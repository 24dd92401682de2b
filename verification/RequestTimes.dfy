/** The table of request timestamps that response times are computed from (`_request_times`). */
module RequestTimes {
  import opened Options

  datatype Op = Request(id: string, at: real) | Response(id: string)

  /** Seconds after which an unanswered request is forgotten. */
  const STALE_AFTER := 300.0

  function Step(table: map<string, real>, op: Op): map<string, real> {
    match op
    case Request(id, at) =>
      var entered := table[id := at];
      map k <- entered | at - entered[k] <= STALE_AFTER :: entered[k]
    case Response(id) => table - {id}
  }

  function Table(ops: seq<Op>): map<string, real> {
    if ops == [] then map[] else Step(Table(ops[..|ops| - 1]), ops[|ops| - 1])
  }

  /** When the request `id` was last seen, if it has not been answered since. */
  function Unanswered(ops: seq<Op>, id: string): Option<real> {
    if ops == [] then None
    else
      var op := ops[|ops| - 1];
      if op.id != id then Unanswered(ops[..|ops| - 1], id)
      else if op.Request? then Some(op.at) else None
  }

  predicate Monotonic(ops: seq<Op>) {
    forall i, j | 0 <= i < j < |ops| :: ops[i].Request? && ops[j].Request? ==> ops[i].at <= ops[j].at
  }

  lemma {:induction false} UnansweredIsRequest(ops: seq<Op>, id: string) returns (i: nat)
    requires Unanswered(ops, id).Some?
    ensures i < |ops| && ops[i] == Request(id, Unanswered(ops, id).value)
  {
    i := |ops| - 1;
    if ops[i].id != id {
      i := UnansweredIsRequest(ops[..i], id);
    }
  }

  /** With a monotonic clock, the table holds exactly the unanswered requests that were at most 300 seconds old
      when the latest request came in (the request last in `ops` or before it). */
  lemma {:induction false} TableExactly(ops: seq<Op>, last: nat, id: string)
    requires Monotonic(ops)
    requires last < |ops| && ops[last].Request? && forall k | last < k < |ops| :: ops[k].Response?
    ensures id in Table(ops) <==> Unanswered(ops, id).Some? && ops[last].at - Unanswered(ops, id).value <= 300.0
    ensures id in Table(ops) ==> Table(ops)[id] == Unanswered(ops, id).value
  {
    var n := |ops| - 1;
    var before := ops[..n];
    if last < n {
      TableExactly(before, last, id);
    } else if exists k :: 0 <= k < n && before[k].Request? {
      var k := LatestRequest(before);
      TableExactly(before, k, id);
      assert before[k].at <= ops[n].at;
    } else {
      NoRequests(before, id);
    }
  }

  lemma {:induction false} LatestRequest(ops: seq<Op>) returns (k: nat)
    requires exists j :: 0 <= j < |ops| && ops[j].Request?
    ensures k < |ops| && ops[k].Request? && forall j | k < j < |ops| :: ops[j].Response?
  {
    k := |ops| - 1;
    if ops[k].Response? {
      k := LatestRequest(ops[..k]);
    }
  }

  lemma {:induction false} NoRequests(ops: seq<Op>, id: string)
    requires forall k | 0 <= k < |ops| :: ops[k].Response?
    ensures Table(ops) == map[] && Unanswered(ops, id) == None
  {
    if ops != [] {
      NoRequests(ops[..|ops| - 1], id);
    }
  }
}

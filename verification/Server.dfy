/** Connection accounting of the proxy server under rotation, its debounced status writes, and the
    retry loop of the health check.
  */
module Server {
  import opened Options
  import opened Numbers

  const STATUS_DEBOUNCE_SECS := 5.0
  const HEALTH_MAX_RETRIES := 3

  /** An upstream is told apart by a number. */
  type Upstream = int

  /** `handlers` maps a connection in progress to the upstream it was given; `writes` are the times of the
      status writes that closing connections made. */
  datatype State = State(upstream: Option<Upstream>, active: int, total: int, lastStatusWrite: real,
                         handlers: map<int, Upstream>, writes: seq<real>)

  datatype Step =
    | Accept                          // a client connects
    | Close(connection: int, now: real)  // its handler ends, by returning or raising
    | Rotated(upstream: Upstream)     // a rotation succeeded
    | RotateFailed

  predicate Enabled(s: State, step: Step) {
    step.Close? ==> step.connection in s.handlers
  }

  function Next(s: State, step: Step): State
    requires Enabled(s, step)
  {
    match step
    case Accept =>
      if s.upstream == None then s
      else s.(active := s.active + 1, total := s.total + 1, handlers := s.handlers[s.total + 1 := s.upstream.value])
    case Close(connection, now) =>
      var closed := s.(active := s.active - 1, handlers := s.handlers - {connection});
      if now - s.lastStatusWrite >= STATUS_DEBOUNCE_SECS
      then closed.(lastStatusWrite := now, writes := s.writes + [now]) else closed
    case Rotated(upstream) => s.(upstream := Some(upstream))
    case RotateFailed => s
  }

  function Initial(upstream: Option<Upstream>): State {
    State(upstream, 0, 0, 0.0, map[], [])
  }

  function Run(start: State, steps: seq<Step>): Option<State> {
    if steps == [] then Some(start)
    else
      match Run(start, steps[..|steps| - 1])
      case None => None
      case Some(s) => if Enabled(s, steps[|steps| - 1]) then Some(Next(s, steps[|steps| - 1])) else None
  }

  predicate SpacedOut(writes: seq<real>) {
    forall i, j | 0 <= i < j < |writes| :: writes[j] - writes[i] >= STATUS_DEBOUNCE_SECS
  }

  ghost predicate Inv(s: State) {
    && s.active == |s.handlers|
    && s.total >= 0
    && (forall id <- s.handlers :: 1 <= id <= s.total)
    && SpacedOut(s.writes)
    && (s.writes != [] ==> s.lastStatusWrite == s.writes[|s.writes| - 1])
  }

  lemma StepKeepsInv(s: State, step: Step)
    requires Inv(s) && Enabled(s, step)
    ensures Inv(Next(s, step))
    ensures s.total <= Next(s, step).total
  {
    if step.Close? {
      OneHandlerLess(s.handlers, step.connection);
      if step.now - s.lastStatusWrite >= STATUS_DEBOUNCE_SECS {
        WriteSpacedOut(s.writes, step.now);
      }
    } else if step.Accept? && s.upstream.Some? {
      assert s.total + 1 !in s.handlers;
    }
  }

  lemma OneHandlerLess(handlers: map<int, Upstream>, connection: int)
    requires connection in handlers
    ensures |handlers - {connection}| == |handlers| - 1
  {
    var rest := handlers - {connection};
    assert handlers.Keys == rest.Keys + {connection};
    assert |handlers| == |handlers.Keys| && |rest| == |rest.Keys|;
  }

  lemma WriteSpacedOut(writes: seq<real>, now: real)
    requires SpacedOut(writes)
    requires writes != [] ==> now - writes[|writes| - 1] >= STATUS_DEBOUNCE_SECS
    ensures SpacedOut(writes + [now])
  {
    var n := |writes|;
    forall i | 0 <= i < n
      ensures now - writes[i] >= STATUS_DEBOUNCE_SECS
    {
      assert i == n - 1 || writes[n - 1] - writes[i] >= STATUS_DEBOUNCE_SECS;
    }
  }

  function Accepts(steps: seq<Step>): nat {
    if steps == [] then 0 else Accepts(steps[..|steps| - 1]) + (if steps[|steps| - 1].Accept? then 1 else 0)
  }

  /** In every run of a started server: the active count is the number of handlers in progress, the total is the number
      of clients that connected, and status writes by closing connections are at least five seconds apart. */
  lemma {:induction false} AccountingHolds(upstream: Upstream, steps: seq<Step>)
    requires Run(Initial(Some(upstream)), steps).Some?
    ensures var s := Run(Initial(Some(upstream)), steps).value;
            && Inv(s) && s.upstream.Some? && s.total == Accepts(steps)
            && s.active == |s.handlers|
            && forall i, j | 0 <= i < j < |s.writes| :: s.writes[j] - s.writes[i] >= 5.0
  {
    hide Inv;
    if steps == [] {
      assert Inv(Initial(Some(upstream))) by {
        InvInitially(Some(upstream));
      }
    } else {
      var before := steps[..|steps| - 1];
      AccountingHolds(upstream, before);
      StepKeepsInv(Run(Initial(Some(upstream)), before).value, steps[|steps| - 1]);
    }
    InvSays(Run(Initial(Some(upstream)), steps).value);
  }

  lemma InvSays(s: State)
    requires Inv(s)
    ensures s.active == |s.handlers|
    ensures forall i, j | 0 <= i < j < |s.writes| :: s.writes[j] - s.writes[i] >= 5.0
  {
  }

  lemma InvInitially(upstream: Option<Upstream>)
    ensures Inv(Initial(upstream))
  {
  }

  /** The upstream of the last rotation that succeeded, or the first one. */
  function CurrentUpstream(first: Option<Upstream>, steps: seq<Step>): Option<Upstream> {
    if steps == [] then first
    else if steps[|steps| - 1].Rotated? then Some(steps[|steps| - 1].upstream)
    else CurrentUpstream(first, steps[..|steps| - 1])
  }

  lemma {:induction false} UpstreamIsCurrent(first: Option<Upstream>, steps: seq<Step>)
    requires Run(Initial(first), steps).Some?
    ensures Run(Initial(first), steps).value.upstream == CurrentUpstream(first, steps)
  {
    if steps != [] {
      UpstreamIsCurrent(first, steps[..|steps| - 1]);
    }
  }

  /** In every run, the next client is given the upstream of the last rotation that succeeded, under a number of its
      own, and counted; before there is any upstream it is refused, and nothing changes. */
  lemma AdmittedWithCurrent(first: Option<Upstream>, steps: seq<Step>)
    requires Run(Initial(first), steps).Some?
    ensures Run(Initial(first), steps + [Accept]).Some?
    ensures var s, t := Run(Initial(first), steps).value, Run(Initial(first), steps + [Accept]).value;
            match CurrentUpstream(first, steps)
            case None => t == s
            case Some(u) =>
              && t.total == s.total + 1 && t.active == s.active + 1
              && t.handlers == s.handlers[t.total := u]
  {
    UpstreamIsCurrent(first, steps);
    assert (steps + [Accept])[..|steps + [Accept]| - 1] == steps;
  }

  /** A status write at `now`, or one not five seconds before, or the first five seconds of the clock. */
  ghost predicate Reported(writes: seq<real>, now: real) {
    now in writes || now < 5.0 || exists w <- writes :: now - w < 5.0
  }

  lemma ReportedStays(writes: seq<real>, w: real, now: real)
    requires Reported(writes, now)
    ensures Reported(writes + [w], now)
  {
    assert forall x <- writes :: x in writes + [w];
  }

  /** No closing goes unreported for longer than the debounce interval: the status is written when it ends, unless
      it was written less than five seconds before. */
  lemma {:induction false} ClosingsAreReported(first: Option<Upstream>, steps: seq<Step>, i: nat)
    requires Run(Initial(first), steps).Some? && i < |steps| && steps[i].Close?
    ensures Reported(Run(Initial(first), steps).value.writes, steps[i].now)
    decreases |steps|
  {
    hide Inv;
    var before, step := steps[..|steps| - 1], steps[|steps| - 1];
    var s := Run(Initial(first), before).value;
    LastWrite(first, before);
    if i < |steps| - 1 {
      ClosingsAreReported(first, before, i);
      if step.Close? {
        ReportedStays(s.writes, step.now, steps[i].now);
      }
    } else if step.now - s.lastStatusWrite >= STATUS_DEBOUNCE_SECS {
      assert (s.writes + [step.now])[|s.writes|] == step.now;
    } else if s.writes != [] {
      assert s.lastStatusWrite in s.writes;
    }
  }

  lemma {:induction false} LastWrite(first: Option<Upstream>, steps: seq<Step>)
    requires Run(Initial(first), steps).Some?
    ensures var s := Run(Initial(first), steps).value;
            s.lastStatusWrite == if s.writes == [] then 0.0 else s.writes[|s.writes| - 1]
  {
    if steps != [] {
      LastWrite(first, steps[..|steps| - 1]);
    }
  }

  /** A connection keeps the upstream that was current when it was accepted, through every rotation, until it is closed;
      no later connection gets its number. */
  lemma {:induction false} HandlerKeepsUpstream(s: State, steps: seq<Step>)
    requires Inv(s) && s.upstream.Some?
    requires Run(Next(s, Accept), steps).Some?
    ensures var t := Run(Next(s, Accept), steps).value;
            && Inv(t) && t.total > s.total
            && (s.total + 1 in t.handlers ==> t.handlers[s.total + 1] == s.upstream.value)
  {
    hide Inv;
    if steps == [] {
      StepKeepsInv(s, Accept);
    } else {
      var before := steps[..|steps| - 1];
      HandlerKeepsUpstream(s, before);
      StepKeepsInv(Run(Next(s, Accept), before).value, steps[|steps| - 1]);
    }
  }

  /** `ProxyServer`, its methods cut at the `await`s. */
  class ProxyServer {
    var upstream: Option<Upstream>
    var activeConnections: int
    var totalConnections: int
    var lastStatusWrite: real
    // the handlers in progress, and the debounced status writes made
    ghost var handlers: map<int, Upstream>
    ghost var writes: seq<real>

    ghost function Current(): State
      reads this
    {
      State(upstream, activeConnections, totalConnections, lastStatusWrite, handlers, writes)
    }

    constructor (upstream: Option<Upstream>)
      ensures Current() == Initial(upstream)
    {
      this.upstream := upstream;
      activeConnections, totalConnections, lastStatusWrite := 0, 0, 0.0;
      handlers, writes := map[], [];
    }

    /** `_on_connection` up to the handler's start: the connection's number and the upstream it is handed. */
    method OnConnection() returns (admitted: Option<(int, Upstream)>)
      modifies this
      ensures Current() == Next(old(Current()), Accept)
      ensures admitted == if upstream == None then None else Some((totalConnections, upstream.value))
      ensures admitted.Some? ==> totalConnections in handlers && handlers[totalConnections] == admitted.value.1
    {
      if upstream == None {
        return None;
      }
      var upstreamSnapshot := upstream.value;
      activeConnections := activeConnections + 1;
      totalConnections := totalConnections + 1;
      handlers := handlers[totalConnections := upstreamSnapshot];
      return Some((totalConnections, upstreamSnapshot));
    }

    /** The `finally` of `_on_connection`; true if it goes on to write the status file. */
    method OnConnectionClosed(connection: int, now: real) returns (writeStatus: bool)
      requires connection in handlers
      modifies this
      ensures Current() == Next(old(Current()), Close(connection, now))
      ensures writeStatus <==> writes == old(writes) + [now]
    {
      activeConnections := activeConnections - 1;
      handlers := handlers - {connection};
      writeStatus := now - lastStatusWrite >= STATUS_DEBOUNCE_SECS;
      if writeStatus {
        lastStatusWrite := now;
        writes := writes + [now];
      }
    }

    /** `_do_rotate` after the manager's call: a new upstream, or None when that raised. */
    method DoRotate(result: Option<Upstream>)
      modifies this
      ensures Current() == Next(old(Current()), if result == None then RotateFailed else Rotated(result.value))
    {
      if result.Some? {
        upstream := result;
      }
    }
  }

  // ---- health check ----

  /** How an attempt to fetch the exit address went. */
  datatype Attempt = Address(ip: string) | Invalid | Error

  function FirstAddress(attempts: seq<Attempt>): (n: nat)
    ensures n <= |attempts|
    ensures n < |attempts| ==> attempts[n].Address?
    ensures forall k | 0 <= k < n :: !attempts[k].Address?
  {
    if attempts == [] || attempts[0].Address? then 0 else 1 + FirstAddress(attempts[1..])
  }

  /** Given how each of the attempts would go, the check succeeds with the first address; it asks for a rotation once
      for each failed attempt that another one follows. */
  method HealthCheck(upstream: Option<Upstream>, attempts: seq<Attempt>, maxRetries: nat := HEALTH_MAX_RETRIES)
    returns (ok: bool, body: Option<string>, failed: nat, rotations: nat)
    requires |attempts| == maxRetries > 0
    ensures upstream == None ==> !ok && failed == rotations == 0
    ensures upstream.Some? ==>
              && failed == FirstAddress(attempts)
              && (ok <==> exists a <- attempts :: a.Address?)
              && (ok ==> body == Some(attempts[failed].ip))
              && rotations == Min(failed, maxRetries - 1)
  {
    ok, body, failed, rotations := false, None, 0, 0;
    if upstream == None {
      return;
    }
    for attempt := 1 to maxRetries + 1
      invariant failed == attempt - 1
      invariant forall k | 0 <= k < failed :: !attempts[k].Address?
      invariant rotations == Min(failed, maxRetries - 1)
    {
      var outcome := attempts[attempt - 1];
      if outcome.Address? {
        FirstIs(attempts, failed);
        assert outcome in attempts;
        return true, Some(outcome.ip), failed, rotations;
      }
      failed := failed + 1;
      if attempt < maxRetries {
        rotations := rotations + 1;
      }
    }
    FirstIs(attempts, failed);
  }

  lemma FirstIs(attempts: seq<Attempt>, n: nat)
    requires n <= |attempts| && (n < |attempts| ==> attempts[n].Address?)
    requires forall k | 0 <= k < n :: !attempts[k].Address?
    ensures FirstAddress(attempts) == n
  {
  }
}

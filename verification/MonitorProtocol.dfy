/** The connection monitor as a step machine: records interleave with the rotation callbacks that they trigger,
    because a callback is awaited in the middle of `record_error`.
  */
module MonitorProtocol {
  import opened Options
  import opened Numbers

  datatype Outcome = Success | TunnelError | Timeout | Reset

  datatype Record = Record(outcome: Outcome, latency: real)

  /** The configuration checks that `windowSize` is positive; the window holds at least one record anyway. */
  datatype Config = Config(enabled: bool, errorThreshold: nat, windowSize: int, hasCallback: bool) {
    function Capacity(): nat {
      if windowSize >= 1 then windowSize else 1
    }

    /** An error triggers a rotation at this many errors in the window, a threshold of 0 working like 1. */
    function Limit(): nat {
      if errorThreshold >= 1 then errorThreshold else 1
    }
  }

  /** `inFlight` counts the rotation callbacks that are being awaited. */
  datatype State = State(window: seq<Record>, connections: nat, errors: nat, rotations: nat,
                         shutdown: bool, inFlight: nat)

  const INITIAL := State([], 0, 0, 0, false, 0)

  datatype Step =
    | RecordSuccess(latency: real)
    | RecordError(outcome: Outcome)
    | CallbackDone       // the callback returned or raised an Exception
    | CallbackCancelled  // the task awaiting the callback was cancelled
    | ResetAll
    | Shutdown

  function LastN<T>(s: seq<T>, n: nat): seq<T> {
    s[|s| - Min(n, |s|)..]
  }

  /** `deque.append` under `maxlen`. */
  function Append(window: seq<Record>, r: Record, capacity: nat): seq<Record>
    requires capacity > 0
  {
    (if |window| >= capacity then window[|window| - capacity + 1..] else window) + [r]
  }

  function ErrorCount(window: seq<Record>): nat {
    if window == [] then 0 else ErrorCount(window[1..]) + (if window[0].outcome != Success then 1 else 0)
  }

  predicate Enabled(s: State, step: Step) {
    match step
    case RecordError(outcome) => outcome != Success
    case CallbackDone => s.inFlight > 0
    case CallbackCancelled => s.inFlight > 0
    case _ => true
  }

  predicate Triggers(c: Config, s: State, step: Step) {
    && c.enabled && step.RecordError?
    && ErrorCount(Append(s.window, Record(step.outcome, 0.0), c.Capacity())) >= c.errorThreshold
  }

  predicate IsRecord(c: Config, step: Step) {
    c.enabled && (step.RecordSuccess? || step.RecordError?)
  }

  function RecordOf(step: Step): Record
    requires step.RecordSuccess? || step.RecordError?
  {
    if step.RecordSuccess? then Record(Success, step.latency) else Record(step.outcome, 0.0)
  }

  function Next(c: Config, s: State, step: Step): State
    requires Enabled(s, step)
  {
    match step
    case RecordSuccess(latency) =>
      if !c.enabled then s
      else s.(window := Append(s.window, Record(Success, latency), c.Capacity()), connections := s.connections + 1)
    case RecordError(outcome) =>
      if !c.enabled then s
      else
        var recorded := s.(window := Append(s.window, Record(outcome, 0.0), c.Capacity()),
                           connections := s.connections + 1, errors := s.errors + 1);
        if ErrorCount(recorded.window) < c.errorThreshold then recorded
        else if s.shutdown then recorded.(window := [])
        else if c.hasCallback then recorded.(rotations := s.rotations + 1, inFlight := s.inFlight + 1)
        else recorded.(rotations := s.rotations + 1, window := [])
    case CallbackDone => s.(inFlight := s.inFlight - 1, window := [])
    case CallbackCancelled => s.(inFlight := s.inFlight - 1)
    case ResetAll => s.(window := [], connections := 0, errors := 0, rotations := 0)
    case Shutdown => s.(shutdown := true)
  }

  /** The step empties the window. */
  predicate Clears(c: Config, s: State, step: Step) {
    step.CallbackDone? || step.ResetAll? || (Triggers(c, s, step) && (s.shutdown || !c.hasCallback))
  }

  function After(c: Config, steps: seq<Step>): Option<State> {
    if steps == [] then Some(INITIAL)
    else
      match After(c, steps[..|steps| - 1])
      case None => None
      case Some(s) =>
        if Enabled(s, steps[|steps| - 1]) then Some(Next(c, s, steps[|steps| - 1])) else None
  }

  // ---- the window ----

  /** All records made since the window was last emptied. */
  function SinceCleared(c: Config, steps: seq<Step>): seq<Record> {
    if steps == [] then []
    else
      var before, step := steps[..|steps| - 1], steps[|steps| - 1];
      match After(c, before)
      case None => []
      case Some(s) =>
        if Clears(c, s, step) then []
        else SinceCleared(c, before) + (if IsRecord(c, step) then [RecordOf(step)] else [])
  }

  lemma AppendIsLastN(all: seq<Record>, r: Record, capacity: nat)
    requires capacity > 0
    ensures Append(LastN(all, capacity), r, capacity) == LastN(all + [r], capacity)
  {
  }

  /** In every run the window holds the last records made since it was last emptied, as many as it has room for. */
  lemma {:induction false} WindowIsLastRecords(c: Config, steps: seq<Step>)
    requires After(c, steps).Some?
    ensures After(c, steps).value.window == LastN(SinceCleared(c, steps), Max(c.windowSize, 1))
  {
    hide ErrorCount, LastN, Append;
    if steps == [] {
      NothingLast(c.Capacity());
    } else {
      var before, step := steps[..|steps| - 1], steps[|steps| - 1];
      var s := After(c, before).value;
      WindowIsLastRecords(c, before);
      if Clears(c, s, step) {
        NothingLast(c.Capacity());
      } else if IsRecord(c, step) {
        AppendIsLastN(SinceCleared(c, before), RecordOf(step), c.Capacity());
      } else {
        assert SinceCleared(c, before) + [] == SinceCleared(c, before);
      }
    }
  }

  lemma NothingLast(n: nat)
    ensures LastN<Record>([], n) == []
  {
  }

  // ---- errors and rotations ----

  lemma {:induction false} ErrorCountConcat(a: seq<Record>, b: seq<Record>)
    ensures ErrorCount(a + b) == ErrorCount(a) + ErrorCount(b)
  {
    if a == [] {
      assert a + b == b;
    } else {
      assert (a + b)[1..] == a[1..] + b;
      ErrorCountConcat(a[1..], b);
    }
  }

  /** An appended record counts once, and what it pushes out at most stops counting. */
  lemma ErrorCountAppend(window: seq<Record>, r: Record, capacity: nat)
    requires capacity > 0
    ensures ErrorCount(Append(window, r, capacity)) <= ErrorCount(window) + (if r.outcome != Success then 1 else 0)
    ensures r.outcome != Success ==> ErrorCount(Append(window, r, capacity)) >= 1
  {
    var cut := if |window| >= capacity then |window| - capacity + 1 else 0;
    ErrorCountConcat(window[..cut], window[cut..]);
    assert window == window[..cut] + window[cut..];
    ErrorCountConcat(window[cut..], [r]);
  }

  ghost predicate Inv(c: Config, s: State) {
    && s.rotations <= s.errors <= s.connections
    && (!c.hasCallback ==> s.inFlight == 0)
  }

  /** While no callback is being awaited, the window is below the limit. */
  ghost predicate BelowLimit(c: Config, s: State) {
    s.inFlight == 0 ==> ErrorCount(s.window) < c.Limit()
  }

  lemma StepKeepsInv(c: Config, s: State, step: Step)
    requires Inv(c, s) && Enabled(s, step)
    ensures Inv(c, Next(c, s, step))
  {
  }

  /** A step keeps that, except exactly the cancellation of the last callback in flight over a window at the limit. */
  lemma StepKeepsBelowLimit(c: Config, s: State, step: Step)
    requires BelowLimit(c, s) && Enabled(s, step)
    ensures BelowLimit(c, Next(c, s, step)) <==>
            !(step.CallbackCancelled? && s.inFlight == 1 && ErrorCount(s.window) >= c.Limit())
  {
    if step.RecordSuccess? {
      ErrorCountAppend(s.window, Record(Success, step.latency), c.Capacity());
    } else if step.RecordError? {
      ErrorCountAppend(s.window, Record(step.outcome, 0.0), c.Capacity());
    }
  }

  /** In every run there were no more rotations than errors and no more errors than connections; as long as no
      awaiting task was cancelled, the window is below the limit whenever no callback is in flight. */
  lemma {:induction false} RunKeeps(c: Config, steps: seq<Step>)
    requires After(c, steps).Some?
    ensures Inv(c, After(c, steps).value)
    ensures CallbackCancelled !in steps ==> BelowLimit(c, After(c, steps).value)
  {
    hide Next, BelowLimit;
    if steps == [] {
      InitiallyBelowLimit(c);
    } else {
      var before, step := steps[..|steps| - 1], steps[|steps| - 1];
      RunKeeps(c, before);
      StepKeepsInv(c, After(c, before).value, step);
      if CallbackCancelled !in steps {
        StepKeepsBelowLimit(c, After(c, before).value, step);
      }
    }
  }

  lemma InitiallyBelowLimit(c: Config)
    ensures BelowLimit(c, INITIAL)
  {
  }

  /** A cancelled rotation leaves its errors behind: the window then stands at the limit with nothing in flight, and the
      rotation counts although it has used up no error. */
  lemma CancellationLeavesErrors()
    ensures var c := Config(true, 1, 100, true);
            var steps := [RecordError(Timeout), CallbackCancelled];
            var s := After(c, steps);
            && s.Some? && !BelowLimit(c, s.value)
            && Serial(c, steps) && s.value.rotations * c.Limit() + ErrorCount(s.value.window) > s.value.errors
  {
    hide After, Serial;
    var c := Config(true, 1, 100, true);
    CancelledRunOverdraws(c);
    OneErrorThenCancelled();
    hide ErrorCount;
  }

  lemma OneErrorThenCancelled()
    ensures Errors(1) + [CallbackCancelled] == [RecordError(Timeout), CallbackCancelled]
  {
    assert Errors(1) == Errors(0) + [RecordError(Timeout)] == [RecordError(Timeout)];
  }

  // ---- what is counted ----

  /** The error that is recorded after `before` reaches the threshold, and the monitor is not shut down. */
  ghost predicate Rotates(c: Config, before: seq<Step>, step: Step) {
    && c.enabled && step.RecordError? && Shutdown !in before
    && ErrorCount(LastN(SinceCleared(c, before) + [RecordOf(step)], c.Capacity())) >= c.errorThreshold
  }

  /** What is counted from the steps alone, since the last reset; callbacks in flight are counted through resets. */
  datatype Tally = Tally(connections: int, errors: int, rotations: int, inFlight: int)

  ghost function TallyOf(c: Config, steps: seq<Step>): Tally {
    if steps == [] then Tally(0, 0, 0, 0)
    else
      var before, step := steps[..|steps| - 1], steps[|steps| - 1];
      var t := TallyOf(c, before);
      var rotation := if Rotates(c, before, step) then 1 else 0;
      var calls := t.inFlight + (if c.hasCallback then rotation else 0)
                   - (if step in {CallbackDone, CallbackCancelled} then 1 else 0);
      if step == ResetAll then Tally(0, 0, 0, calls)
      else Tally(t.connections + (if IsRecord(c, step) then 1 else 0),
                 t.errors + (if IsRecord(c, step) && step.RecordError? then 1 else 0),
                 t.rotations + rotation, calls)
  }

  lemma RotatesHere(c: Config, before: seq<Step>, s: State, step: Step)
    requires Enabled(s, step) && s.window == LastN(SinceCleared(c, before), c.Capacity())
    requires s.shutdown <==> Shutdown in before
    ensures Rotates(c, before, step) <==> Triggers(c, s, step) && !s.shutdown
  {
    hide SinceCleared, LastN, Append, ErrorCount;
    if step.RecordError? {
      AppendIsLastN(SinceCleared(c, before), RecordOf(step), c.Capacity());
    }
  }

  lemma StepTallies(c: Config, before: seq<Step>, s: State, step: Step)
    requires Enabled(s, step) && s.window == LastN(SinceCleared(c, before), c.Capacity())
    requires s.shutdown <==> Shutdown in before
    ensures var t := Next(c, s, step);
            var rotation := if Rotates(c, before, step) then 1 else 0;
            && (t.shutdown <==> s.shutdown || step == Shutdown)
            && t.inFlight == s.inFlight + (if c.hasCallback then rotation else 0)
                             - (if step in {CallbackDone, CallbackCancelled} then 1 else 0)
            && if step == ResetAll then t.connections == t.errors == t.rotations == 0
               else
                 && t.connections == s.connections + (if IsRecord(c, step) then 1 else 0)
                 && t.errors == s.errors + (if IsRecord(c, step) && step.RecordError? then 1 else 0)
                 && t.rotations == s.rotations + rotation
  {
    hide SinceCleared, LastN, Append, ErrorCount, Rotates;
    RotatesHere(c, before, s, step);
  }

  /** In every run: successes and errors count as connections, errors as errors; a rotation is counted, and its callback
      called, exactly when an error reaches the threshold among the last records, unless the monitor was shut down. */
  lemma {:induction false} TotalsExactly(c: Config, steps: seq<Step>)
    requires After(c, steps).Some?
    ensures var s, t := After(c, steps).value, TallyOf(c, steps);
            && s.connections == t.connections && s.errors == t.errors && s.rotations == t.rotations
            && s.inFlight == t.inFlight && (s.shutdown <==> Shutdown in steps)
  {
    hide Next, Rotates, SinceCleared, LastN;
    if steps != [] {
      var before, step := steps[..|steps| - 1], steps[|steps| - 1];
      TotalsExactly(c, before);
      WindowIsLastRecords(c, before);
      StepTallies(c, before, After(c, before).value, step);
      assert steps == before + [step];
    }
  }

  /** After shutdown no callback starts, whatever is recorded, and no rotation is counted. */
  lemma NoCallbackAfterShutdown(c: Config, steps: seq<Step>, more: seq<Step>)
    requires Shutdown in steps && After(c, steps).Some? && After(c, steps + more).Some?
    ensures After(c, steps + more).value.inFlight <= After(c, steps).value.inFlight
    ensures After(c, steps + more).value.rotations <= After(c, steps).value.rotations
  {
    hide After;
    TotalsExactly(c, steps);
    ShutDownStays(c, steps, more);
  }

  lemma {:induction false} ShutDownStays(c: Config, steps: seq<Step>, more: seq<Step>)
    requires After(c, steps).Some? && After(c, steps).value.shutdown
    requires After(c, steps + more).Some?
    ensures After(c, steps + more).value.shutdown
    ensures After(c, steps + more).value.inFlight <= After(c, steps).value.inFlight
    ensures After(c, steps + more).value.rotations <= After(c, steps).value.rotations
    decreases |more|
  {
    if more == [] {
      assert steps + more == steps;
    } else {
      var before := more[..|more| - 1];
      assert (steps + more)[..|steps + more| - 1] == steps + before;
      ShutDownStays(c, steps, before);
    }
  }

  // ---- conservation ----

  /** No record is made while a callback is being awaited. */
  predicate Serial(c: Config, steps: seq<Step>) {
    if steps == [] then true
    else
      var before, step := steps[..|steps| - 1], steps[|steps| - 1];
      && Serial(c, before)
      && match After(c, before)
         case None => true
         case Some(s) => s.inFlight > 0 ==> !IsRecord(c, step)
  }

  /** How many cancelled rotations a step adds; `cancelled` of those counted since the last reset were cancelled before.
      A callback that was in flight during a reset belongs to no rotation that is still counted. */
  function CancelledBy(s: State, step: Step, cancelled: nat): nat {
    if step.ResetAll? then 0
    else if step.CallbackCancelled? && s.rotations > cancelled then cancelled + 1
    else cancelled
  }

  /** Of the rotations counted since the last reset, those whose callback was cancelled. */
  function CancelledRotations(c: Config, steps: seq<Step>): nat {
    if steps == [] then 0
    else
      var before, step := steps[..|steps| - 1], steps[|steps| - 1];
      match After(c, before)
      case None => 0
      case Some(s) => CancelledBy(s, step, CancelledRotations(c, before))
  }

  function Times(a: nat, b: nat): (r: nat) {
    a * b
  }

  /** The errors that `n` rotations have used up, with those in the window, are within the errors recorded. */
  predicate Paid(c: Config, s: State, n: nat) {
    Times(n, c.Limit()) + ErrorCount(s.window) <= s.errors
  }

  /** Each rotation that was not cancelled has used up a window's worth of errors, or is about to. */
  predicate Conserved(c: Config, s: State, cancelled: nat) {
    && s.inFlight <= 1
    && cancelled <= s.rotations
    && (if s.inFlight == 0 then Paid(c, s, s.rotations - cancelled)
        else
          && Times(s.rotations - cancelled, c.Limit()) <= s.errors
          && Paid(c, s, if s.rotations > cancelled then s.rotations - cancelled - 1 else 0))
  }

  lemma StepConserves(c: Config, s: State, step: Step, cancelled: nat)
    requires Conserved(c, s, cancelled) && Enabled(s, step)
    requires s.inFlight > 0 ==> !IsRecord(c, step)
    ensures Conserved(c, Next(c, s, step), CancelledBy(s, step, cancelled))
  {
    hide Append;
    var counted := s.rotations - cancelled;
    assert Times(counted + 1, c.Limit()) == Times(counted, c.Limit()) + c.Limit();
    assert Times(0, c.Limit()) == 0;
    if IsRecord(c, step) {
      ErrorCountAppend(s.window, RecordOf(step), c.Capacity());
    }
  }

  /** In every run whose records do not overlap callbacks: the rotations that were not cancelled, times the limit, plus
      the errors in the window when no callback is in flight, never exceed the errors recorded. */
  lemma {:induction false} SerialRunConserves(c: Config, steps: seq<Step>)
    requires After(c, steps).Some? && Serial(c, steps)
    ensures var s, cancelled := After(c, steps).value, CancelledRotations(c, steps);
            && cancelled <= s.rotations
            && (s.rotations - cancelled) * c.Limit() + (if s.inFlight == 0 then ErrorCount(s.window) else 0) <= s.errors
    ensures Conserved(c, After(c, steps).value, CancelledRotations(c, steps))
  {
    hide Next;
    if steps != [] {
      var before, step := steps[..|steps| - 1], steps[|steps| - 1];
      SerialRunConserves(c, before);
      StepConserves(c, After(c, before).value, step, CancelledRotations(c, before));
    }
  }

  lemma {:induction false} NoneCancelled(c: Config, steps: seq<Step>)
    requires CallbackCancelled !in steps
    ensures CancelledRotations(c, steps) == 0
  {
    if steps != [] {
      NoneCancelled(c, steps[..|steps| - 1]);
    }
  }

  /** Without cancellations all rotations count. */
  lemma UncancelledRunConserves(c: Config, steps: seq<Step>)
    requires After(c, steps).Some? && Serial(c, steps) && CallbackCancelled !in steps
    ensures var s := After(c, steps).value;
            s.rotations * c.Limit() + (if s.inFlight == 0 then ErrorCount(s.window) else 0) <= s.errors
  {
    SerialRunConserves(c, steps);
    NoneCancelled(c, steps);
  }

  // ---- which configurations keep the account of all rotations ----

  ghost predicate AccountOfAll(c: Config, s: State) {
    s.rotations * c.Limit() + (if s.inFlight == 0 then ErrorCount(s.window) else 0) <= s.errors
  }

  /** No callback can be cancelled, or the window has no room for a limit of errors. */
  predicate CannotCancel(c: Config) {
    !c.enabled || !c.hasCallback || c.Capacity() < c.Limit()
  }

  lemma {:induction false} ErrorCountAtMost(window: seq<Record>)
    ensures ErrorCount(window) <= |window|
  {
    if window != [] {
      ErrorCountAtMost(window[1..]);
    }
  }

  /** Nothing is ever in flight then. */
  ghost predicate Idle(c: Config, s: State) {
    s.inFlight == 0 && |s.window| <= c.Capacity()
  }

  lemma StepStaysIdle(c: Config, s: State, step: Step)
    requires CannotCancel(c) && Idle(c, s) && Enabled(s, step)
    ensures Idle(c, Next(c, s, step)) && step != CallbackCancelled
  {
    if step.RecordError? {
      ErrorCountAtMost(Append(s.window, Record(step.outcome, 0.0), c.Capacity()));
    }
  }

  lemma {:induction false} RunStaysIdle(c: Config, steps: seq<Step>)
    requires CannotCancel(c) && After(c, steps).Some?
    ensures Idle(c, After(c, steps).value) && CallbackCancelled !in steps
  {
    hide Next, Enabled;
    if steps != [] {
      var before, step := steps[..|steps| - 1], steps[|steps| - 1];
      RunStaysIdle(c, before);
      StepStaysIdle(c, After(c, before).value, step);
      assert steps == before + [step];
    }
  }

  function Errors(n: nat): seq<Step> {
    if n == 0 then [] else Errors(n - 1) + [RecordError(Timeout)]
  }

  function ErrorRecords(n: nat): seq<Record> {
    if n == 0 then [] else ErrorRecords(n - 1) + [Record(Timeout, 0.0)]
  }

  lemma {:induction false} ErrorRecordsCount(n: nat)
    ensures |ErrorRecords(n)| == n && ErrorCount(ErrorRecords(n)) == n
  {
    if n > 0 {
      ErrorRecordsCount(n - 1);
      ErrorCountConcat(ErrorRecords(n - 1), [Record(Timeout, 0.0)]);
    }
  }

  lemma OneMoreStep(c: Config, steps: seq<Step>, s: State, step: Step)
    requires After(c, steps) == Some(s) && Enabled(s, step)
    ensures After(c, steps + [step]) == Some(Next(c, s, step))
    ensures Serial(c, steps + [step]) <==> Serial(c, steps) && (s.inFlight > 0 ==> !IsRecord(c, step))
  {
    hide Next, Enabled, IsRecord;
    assert (steps + [step])[..|steps + [step]| - 1] == steps;
  }

  /** After `n` errors in a row the callback is in flight if they reach the limit. */
  function AfterRow(c: Config, n: nat): State {
    var rotations := if n == c.Limit() then 1 else 0;
    State(ErrorRecords(n), n, n, rotations, false, rotations)
  }

  lemma OneMoreError(c: Config, n: nat)
    requires c.enabled && c.hasCallback && n < c.Limit() <= c.Capacity()
    ensures Next(c, AfterRow(c, n), RecordError(Timeout)) == AfterRow(c, n + 1)
  {
    ErrorRecordsCount(n);
    ErrorRecordsCount(n + 1);
    assert Append(ErrorRecords(n), Record(Timeout, 0.0), c.Capacity()) == ErrorRecords(n + 1);
    hide ErrorCount, ErrorRecords, Append;
  }

  lemma {:induction false} AfterErrors(c: Config, n: nat)
    requires c.enabled && c.hasCallback && n <= c.Limit() <= c.Capacity()
    ensures Serial(c, Errors(n)) && After(c, Errors(n)) == Some(AfterRow(c, n))
  {
    hide After, Serial, Next, AfterRow;
    if n == 0 {
      BeforeErrors(c);
    } else {
      AfterErrors(c, n - 1);
      OneMoreError(c, n - 1);
      assert AfterRow(c, n - 1).inFlight == 0 by {
        NothingInFlightYet(c, n - 1);
      }
      OneMoreStep(c, Errors(n - 1), AfterRow(c, n - 1), RecordError(Timeout));
    }
  }

  lemma BeforeErrors(c: Config)
    ensures Serial(c, Errors(0)) && After(c, Errors(0)) == Some(AfterRow(c, 0))
  {
    assert ErrorRecords(0) == [];
  }

  lemma NothingInFlightYet(c: Config, n: nat)
    requires n < c.Limit()
    ensures AfterRow(c, n).inFlight == 0
  {
  }

  /** A limit of errors, and their rotation cancelled: the errors stay in the window, and the rotation counts. */
  lemma CancelledRunOverdraws(c: Config)
    requires !CannotCancel(c)
    ensures var steps := Errors(c.Limit()) + [CallbackCancelled];
            && After(c, steps).Some? && Serial(c, steps)
            && !AccountOfAll(c, After(c, steps).value) && !BelowLimit(c, After(c, steps).value)
  {
    hide After, Serial;
    var n := c.Limit();
    AfterErrors(c, n);
    ErrorRecordsCount(n);
    OneMoreStep(c, Errors(n), AfterRow(c, n), CallbackCancelled);
    hide ErrorCount, ErrorRecords, Errors;
  }

  /** For every configuration: in all runs whose records do not overlap callbacks, all rotations together have used up
      no more errors than were recorded, exactly when no callback can be cancelled in it. */
  lemma AccountOfAllExactly(c: Config)
    ensures (forall steps :: After(c, steps).Some? && Serial(c, steps) ==> AccountOfAll(c, After(c, steps).value))
            <==> CannotCancel(c)
  {
    if CannotCancel(c) {
      forall steps | After(c, steps).Some? && Serial(c, steps)
        ensures AccountOfAll(c, After(c, steps).value)
      {
        RunStaysIdle(c, steps);
        UncancelledRunConserves(c, steps);
      }
    } else {
      CancelledRunOverdraws(c);
    }
  }
}

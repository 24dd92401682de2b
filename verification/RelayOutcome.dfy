/** What `relay_data` returns, by the events of the schedule, and that everything can be relayed. */
module RelayOutcome {
  import opened Options
  import opened Numbers
  import opened Relay

  // ---- what the relay returns ----

  predicate IsOver(s: State) {
    s.coordinator.Returned? || s.coordinator.RaisedOut?
  }

  predicate EndedFailed(p: Pipe) {
    p.phase == Done(Failed)
  }

  /** What the coordinator knows of the pipe that ended first, and what it made of both. */
  predicate VerdictInv(s: State) {
    match s.coordinator
    case Waiting => true
    case Joining(d, cleanSoFar) =>
      PipeOf(s, Other(d)).phase.Done? && cleanSoFar == !EndedFailed(PipeOf(s, Other(d)))
    case Returned(clean) =>
      && s.c2r.phase.Done? && s.r2c.phase.Done?
      && clean == (!EndedFailed(s.c2r) && !EndedFailed(s.r2c))
    case RaisedOut =>
      s.c2r.phase.Done? && s.r2c.phase.Done? && (EndedFailed(s.c2r) || EndedFailed(s.r2c))
  }

  lemma StepKeepsVerdict(s: State, step: Step)
    requires VerdictInv(s) && Enabled(s, step)
    ensures VerdictInv(Next(s, step))
  {
  }

  lemma {:induction false} VerdictKept(streams: Streams, steps: seq<Step>)
    requires After(streams, steps).Some?
    ensures VerdictInv(After(streams, steps).value)
  {
    hide Next, Enabled;
    if steps != [] {
      VerdictKept(streams, steps[..|steps| - 1]);
      StepKeepsVerdict(After(streams, steps[..|steps| - 1]).value, steps[|steps| - 1]);
    }
  }

  /** In every schedule that is over: True is returned exactly when neither pipe ended with an unexpected exception. */
  lemma TrueExactly(streams: Streams, steps: seq<Step>)
    requires After(streams, steps).Some? && IsOver(After(streams, steps).value)
    ensures var s := After(streams, steps).value;
            s.coordinator == Returned(true) <==> !EndedFailed(s.c2r) && !EndedFailed(s.r2c)
  {
    hide After;
    VerdictKept(streams, steps);
  }

  /** From the moment at which the first end is noticed, in the state `w`. */
  predicate SinceWake(w: State, s: State) {
    if w.c2r.phase.Done? && w.r2c.phase.Done? then
      s.c2r == w.c2r && s.r2c == w.r2c && s.coordinator.Returned?
    else
      var d := if w.c2r.phase.Done? then RemoteToClient else ClientToRemote;
      && PipeOf(s, Other(d)) == PipeOf(w, Other(d))
      && match s.coordinator
         case Joining(cancelled, _) => cancelled == d
         case Returned(_) => PipeOf(s, d).phase.Done? && !EndedFailed(PipeOf(s, d))
         case RaisedOut => EndedFailed(PipeOf(s, d))
         case Waiting => false
  }

  lemma StepSinceWake(w: State, s: State, step: Step)
    requires w.c2r.phase.Done? || w.r2c.phase.Done?
    requires SinceWake(w, s) && Enabled(s, step)
    ensures SinceWake(w, Next(s, step))
  {
  }

  lemma {:induction false} SinceWakeKept(streams: Streams, steps: seq<Step>, at: nat)
    requires at < |steps| && steps[at] == Wake && After(streams, steps).Some? && After(streams, steps[..at]).Some?
    requires var w := After(streams, steps[..at]).value; w.c2r.phase.Done? || w.r2c.phase.Done?
    ensures SinceWake(After(streams, steps[..at]).value, After(streams, steps).value)
    decreases |steps|
  {
    var before, step := steps[..|steps| - 1], steps[|steps| - 1];
    var w := After(streams, steps[..at]).value;
    if at == |steps| - 1 {
      hide After;
    } else {
      assert before[..at] == steps[..at];
      SinceWakeKept(streams, before, at);
      StepSinceWake(w, After(streams, before).value, step);
    }
  }

  /** In every schedule that is over, an exception comes out, and neither True nor False, exactly when the pipe that was
      still running when the first end was noticed ended with an unexpected exception: it is re-raised when that pipe is
      awaited. The exception of a pipe that had ended by then gives False. */
  lemma RaisesExactly(streams: Streams, steps: seq<Step>, at: nat)
    requires After(streams, steps).Some? && IsOver(After(streams, steps).value)
    requires at < |steps| && steps[at] == Wake
    ensures After(streams, steps[..at]).Some?
    ensures After(streams, steps).value.coordinator == RaisedOut <==>
            exists d :: !PipeOf(After(streams, steps[..at]).value, d).phase.Done?
                        && EndedFailed(PipeOf(After(streams, steps).value, d))
  {
    RunPrefix(streams, steps, at);
    RunPrefix(streams, steps, at + 1);
    assert steps[..at + 1][..at] == steps[..at];
    var w, s := After(streams, steps[..at]).value, After(streams, steps).value;
    assert w.c2r.phase.Done? || w.r2c.phase.Done?;
    SinceWakeKept(streams, steps, at);
    hide After;
    if s.coordinator == RaisedOut {
      var d := if w.c2r.phase.Done? then RemoteToClient else ClientToRemote;
      assert !PipeOf(w, d).phase.Done? && EndedFailed(PipeOf(s, d));
    }
  }

  /** What ended the loop of `d`. */
  function LoopEnd(steps: seq<Step>, d: Direction): Option<Event> {
    if steps == [] then None
    else
      var before, step := steps[..|steps| - 1], steps[|steps| - 1];
      if LoopEnd(before, d) == None && EndsLoop(step, d) then Some(step.event) else LoopEnd(before, d)
  }

  /** How a pipe that has left its loop ends, as long as nobody has cancelled it. */
  predicate EndInv(waiting: bool, p: Pipe, end: Option<Event>) {
    && (p.writerClosed <==> end.Some?)
    && (p.writerClosed <==> p.phase.Closing? || p.phase.Done?)
    && (p.sawEof <==> end == Some(Eof))
    && (waiting ==>
          && end != Some(CancelledError) && p.phase != Done(Cancelled) && p.phase != Closing(Cancelled)
          && (p.phase in {Closing(Clean), Done(Clean)} ==> end in {Some(Eof), Some(Raised(OsFault))}))
  }

  predicate NaturalEnd(p: Pipe, end: Option<Event>) {
    p.phase.Done? && (EndedFailed(p) || end in {Some(Eof), Some(Raised(OsFault))})
  }

  /** What the task of `d` came back with from closing its writer. */
  function TaskEnd(steps: seq<Step>, d: Direction): Option<Event> {
    if steps == [] then None
    else
      var before, step := steps[..|steps| - 1], steps[|steps| - 1];
      if TaskEnd(before, d) == None && LoopEnd(before, d).Some? && step.PipeStep? && step.direction == d
      then Some(step.event) else TaskEnd(before, d)
  }

  /** Where the events of a pipe leave it. */
  predicate PhaseTold(phase: Phase, loopEnd: Option<Event>, taskEnd: Option<Event>) {
    match loopEnd
    case None => taskEnd == None && !phase.Closing? && !phase.Done?
    case Some(l) =>
      var soFar := if l == Raised(OtherFault) then Failed else Clean;
      match taskEnd
      case None => phase == Closing(soFar)
      case Some(CancelledError) => phase == Done(Cancelled)
      case Some(Raised(OtherFault)) => phase == Done(Failed)
      case Some(_) => phase == Done(soFar)
  }

  lemma PipeTold(s: State, step: Step, d: Direction, loopEnd: Option<Event>, taskEnd: Option<Event>)
    requires Enabled(s, step) && PhaseTold(PipeOf(s, d).phase, loopEnd, taskEnd)
    ensures PhaseTold(PipeOf(Next(s, step), d).phase,
                      if loopEnd == None && EndsLoop(step, d) then Some(step.event) else loopEnd,
                      if taskEnd == None && loopEnd.Some? && step.PipeStep? && step.direction == d
                      then Some(step.event) else taskEnd)
  {
  }

  /** In every schedule a pipe ends with an unexpected exception exactly if one came from the closing of its writer,
      or one ended its loop and the closing was not cancelled; ends of stream and connection errors end it cleanly. */
  lemma {:induction false} EndingExactly(streams: Streams, steps: seq<Step>, d: Direction)
    requires After(streams, steps).Some?
    ensures PhaseTold(PipeOf(After(streams, steps).value, d).phase, LoopEnd(steps, d), TaskEnd(steps, d))
  {
    if steps != [] {
      var before := steps[..|steps| - 1];
      EndingExactly(streams, before, d);
      hide Next, Enabled, PhaseTold;
      PipeTold(After(streams, before).value, steps[|steps| - 1], d, LoopEnd(before, d), TaskEnd(before, d));
    }
  }

  /** Once the coordinator is woken, one of the pipes has ended by itself. */
  predicate WakeInv(s: State, c2rEnd: Option<Event>, r2cEnd: Option<Event>) {
    && EndInv(s.coordinator == Waiting, s.c2r, c2rEnd) && EndInv(s.coordinator == Waiting, s.r2c, r2cEnd)
    && (s.cancelRequested ==> s.coordinator != Waiting)
    && (s.coordinator != Waiting ==> NaturalEnd(s.c2r, c2rEnd) || NaturalEnd(s.r2c, r2cEnd))
  }

  function NextEnd(end: Option<Event>, step: Step, d: Direction): Option<Event> {
    if end == None && EndsLoop(step, d) then Some(step.event) else end
  }

  lemma PipeKeepsEnd(waiting: bool, p: Pipe, event: Event, end: Option<Event>, d: Direction)
    requires EndInv(waiting, p, end) && CanHappen(p.phase, event) && (waiting ==> !event.CancelledError?)
    ensures EndInv(waiting, PipeNext(p, event), NextEnd(end, PipeStep(d, event), d))
    ensures !p.phase.Done?
  {
  }

  lemma StepKeepsWakeInv(s: State, step: Step, c2rEnd: Option<Event>, r2cEnd: Option<Event>)
    requires WakeInv(s, c2rEnd, r2cEnd) && Enabled(s, step)
    ensures WakeInv(Next(s, step), NextEnd(c2rEnd, step, ClientToRemote), NextEnd(r2cEnd, step, RemoteToClient))
  {
    if step.PipeStep? {
      hide EndInv;
      PipeKeepsEnd(s.coordinator == Waiting, PipeOf(s, step.direction), step.event,
                   if step.direction == ClientToRemote then c2rEnd else r2cEnd, step.direction);
      hide PipeNext, CanHappen;
    }
  }

  lemma {:induction false} WakeInvKept(streams: Streams, steps: seq<Step>)
    requires After(streams, steps).Some?
    ensures WakeInv(After(streams, steps).value, LoopEnd(steps, ClientToRemote), LoopEnd(steps, RemoteToClient))
  {
    if steps != [] {
      var before := steps[..|steps| - 1];
      WakeInvKept(streams, before);
      hide Next, Enabled, WakeInv;
      StepKeepsWakeInv(After(streams, before).value, steps[|steps| - 1],
                       LoopEnd(before, ClientToRemote), LoopEnd(before, RemoteToClient));
    }
  }

  /** True does mean an end of stream in the schedules in which no loop was ended by a connection error. */
  lemma TrueMeansEndOfStream(streams: Streams, steps: seq<Step>)
    requires After(streams, steps).Some? && After(streams, steps).value.coordinator == Returned(true)
    requires forall d :: LoopEnd(steps, d) != Some(Raised(OsFault))
    ensures After(streams, steps).value.c2r.sawEof || After(streams, steps).value.r2c.sawEof
  {
    hide After, LoopEnd;
    VerdictKept(streams, steps);
    WakeInvKept(streams, steps);
  }

  /** An exception can come out: a pipe is cancelled, and the closing of its writer fails in an unexpected way. */
  lemma ExceptionCanComeOut(streams: Streams)
    requires streams.client == ""
    ensures var steps := [PipeStep(ClientToRemote, Eof), PipeStep(ClientToRemote, Resumed), Wake,
                          PipeStep(RemoteToClient, CancelledError), PipeStep(RemoteToClient, Raised(OtherFault)), Join];
            After(streams, steps).Some? && After(streams, steps).value.coordinator == RaisedOut
  {
    var s1, s2 := PipeStep(ClientToRemote, Eof), PipeStep(ClientToRemote, Resumed);
    var s4, s5 := PipeStep(RemoteToClient, CancelledError), PipeStep(RemoteToClient, Raised(OtherFault));
    var left, done := Pipe(Closing(Clean), "", true, true), Pipe(Done(Clean), "", true, true);
    var t1, t2 := State(left, FRESH, streams, false, Waiting), State(done, FRESH, streams, false, Waiting);
    var t3 := State(done, FRESH, streams, true, Joining(RemoteToClient, true));
    var t4 := State(done, left.(sawEof := false), streams, false, Joining(RemoteToClient, true));
    var t5 := t4.(r2c := Pipe(Done(Failed), "", true, false));
    NoStepYet(streams);
    hide After;
    var p1, p2 := [s1], [s1, s2];
    var p3, p4, p5 := p2 + [Wake], p2 + [Wake] + [s4], p2 + [Wake] + [s4] + [s5];
    assert [] + [s1] == p1 && p1 + [s2] == p2;
    OneMoreStep(streams, [], Initial(streams), s1, t1);
    OneMoreStep(streams, p1, t1, s2, t2);
    OneMoreStep(streams, p2, t2, Wake, t3);
    OneMoreStep(streams, p3, t3, s4, t4);
    OneMoreStep(streams, p4, t4, s5, t5);
    OneMoreStep(streams, p5, t5, Join, t5.(coordinator := RaisedOut));
    assert p5 + [Join] == [s1, s2, Wake, s4, s5, Join];
  }

  /** The relay's documentation ties a return value of True to an end of stream; a connection error gives True too. */
  lemma ConnectionErrorReturnsTrue(streams: Streams)
    ensures var steps := [PipeStep(ClientToRemote, Raised(OsFault)), PipeStep(ClientToRemote, Resumed), Wake,
                          PipeStep(RemoteToClient, CancelledError), PipeStep(RemoteToClient, Resumed), Join];
            After(streams, steps).Some?
            && After(streams, steps).value.coordinator == Returned(true)
            && !After(streams, steps).value.c2r.sawEof && !After(streams, steps).value.r2c.sawEof
  {
    var s1, s2 := PipeStep(ClientToRemote, Raised(OsFault)), PipeStep(ClientToRemote, Resumed);
    var s4, s5 := PipeStep(RemoteToClient, CancelledError), PipeStep(RemoteToClient, Resumed);
    var left, done := Pipe(Closing(Clean), "", true, false), Pipe(Done(Clean), "", true, false);
    var t1, t2 := State(left, FRESH, streams, false, Waiting), State(done, FRESH, streams, false, Waiting);
    var t3 := State(done, FRESH, streams, true, Joining(RemoteToClient, true));
    var t4 := State(done, left, streams, false, Joining(RemoteToClient, true));
    var t5 := t4.(r2c := done);
    NoStepYet(streams);
    hide After;
    var p1, p2 := [s1], [s1, s2];
    var p3, p4, p5 := p2 + [Wake], p2 + [Wake] + [s4], p2 + [Wake] + [s4] + [s5];
    assert [] + [s1] == p1 && p1 + [s2] == p2;
    OneMoreStep(streams, [], Initial(streams), s1, t1);
    OneMoreStep(streams, p1, t1, s2, t2);
    OneMoreStep(streams, p2, t2, Wake, t3);
    OneMoreStep(streams, p3, t3, s4, t4);
    OneMoreStep(streams, p4, t4, s5, t5);
    OneMoreStep(streams, p5, t5, Join, t5.(coordinator := Returned(true)));
    assert p5 + [Join] == [s1, s2, Wake, s4, s5, Join];
  }

  // ---- a schedule that delivers everything ----

  predicate Ready(s: State, d: Direction) {
    && s.coordinator == Waiting && !s.cancelRequested
    && PipeOf(s, d).phase == Reading && !PipeOf(s, Other(d)).phase.Holding?
  }

  /** What `d` has not read yet, read and written. */
  function Delivered(s: State, d: Direction): State {
    var p := PipeOf(s, d);
    var t := UpdatePipe(s, d, p.(written := p.written + SourceOf(s.unread, d)));
    t.(unread := Consume(s.unread, d, |SourceOf(s.unread, d)|))
  }

  /** One chunk, read and written. */
  function ChunkOver(s: State, d: Direction, n: nat): State
    requires n <= |SourceOf(s.unread, d)|
  {
    var p := PipeOf(s, d);
    var t := UpdatePipe(s, d, p.(written := p.written + SourceOf(s.unread, d)[..n]));
    t.(unread := Consume(s.unread, d, n))
  }

  lemma RelayChunk(streams: Streams, steps: seq<Step>, s: State, d: Direction, n: nat) returns (longer: seq<Step>)
    requires After(streams, steps) == Some(s) && Ready(s, d) && 0 < n <= |SourceOf(s.unread, d)| && n <= 65536
    ensures After(streams, longer) == Some(ChunkOver(s, d, n)) && steps <= longer
  {
    hide After;
    var chunk, p := SourceOf(s.unread, d)[..n], PipeOf(s, d);
    var held := UpdatePipe(s, d, p.(phase := Holding(chunk))).(unread := Consume(s.unread, d, n));
    var draining := UpdatePipe(held, d, p.(phase := Draining, written := p.written + chunk));
    OneMoreStep(streams, steps, s, PipeStep(d, Data(chunk)), held);
    OneMoreStep(streams, steps + [PipeStep(d, Data(chunk))], held, Write(d), draining);
    longer := steps + [PipeStep(d, Data(chunk))] + [Write(d)];
    OneMoreStep(streams, longer, draining, PipeStep(d, Resumed), ChunkOver(s, d, n));
    longer := longer + [PipeStep(d, Resumed)];
  }

  lemma NothingLeft(s: State, d: Direction)
    requires SourceOf(s.unread, d) == ""
    ensures Delivered(s, d) == s
  {
    var u, w := SourceOf(s.unread, d), PipeOf(s, d).written;
    assert w + u == w && u[0..] == u;
  }

  lemma ChunkThenRest(s: State, d: Direction, n: nat)
    requires n <= |SourceOf(s.unread, d)|
    ensures Delivered(ChunkOver(s, d, n), d) == Delivered(s, d)
    ensures SourceOf(ChunkOver(s, d, n).unread, d) == SourceOf(s.unread, d)[n..]
    ensures Ready(s, d) ==> Ready(ChunkOver(s, d, n), d)
  {
    var u, w := SourceOf(s.unread, d), PipeOf(s, d).written;
    assert w + u[..n] + u[n..] == w + u;
    assert u[n..][|u[n..]|..] == u[|u|..];
  }

  lemma {:induction false} RelayAll(streams: Streams, steps: seq<Step>, s: State, d: Direction)
    returns (longer: seq<Step>)
    requires After(streams, steps) == Some(s) && Ready(s, d)
    ensures After(streams, longer) == Some(Delivered(s, d)) && steps <= longer
    decreases |SourceOf(s.unread, d)|
  {
    hide After, Delivered, ChunkOver, Ready;
    var u := SourceOf(s.unread, d);
    if u == "" {
      NothingLeft(s, d);
      longer := steps;
    } else {
      var n := Min(|u|, 65536);
      longer := RelayChunk(streams, steps, s, d, n);
      ChunkThenRest(s, d, n);
      longer := RelayAll(streams, longer, ChunkOver(s, d, n), d);
    }
  }

  /** For any bytes of the two sides there is a schedule that relays all of them in both directions, sees both ends of
      stream, closes both writers and returns True. */
  lemma EverythingCanBeDelivered(streams: Streams) returns (steps: seq<Step>)
    ensures After(streams, steps).Some?
    ensures var s := After(streams, steps).value;
            && s.coordinator == Returned(true) && s.c2r.sawEof && s.r2c.sawEof
            && s.c2r.written == streams.client && s.r2c.written == streams.remote
            && s.c2r.writerClosed && s.r2c.writerClosed
  {
    NoStepYet(streams);
    hide After;
    steps := RelayAll(streams, [], Initial(streams), ClientToRemote);
    var s := Delivered(Initial(streams), ClientToRemote);
    steps := RelayAll(streams, steps, s, RemoteToClient);
    s := Delivered(s, RemoteToClient);
    assert "" + streams.client == streams.client && "" + streams.remote == streams.remote;
    assert s.unread == Streams("", "");
    var left := Pipe(Closing(Clean), streams.client, true, true);
    var right := Pipe(Closing(Clean), streams.remote, true, true);
    var t1, t2 := s.(c2r := left), s.(c2r := left, r2c := right);
    var t3 := t2.(c2r := left.(phase := Done(Clean)));
    var t4 := t3.(r2c := right.(phase := Done(Clean)));
    OneMoreStep(streams, steps, s, PipeStep(ClientToRemote, Eof), t1);
    steps := steps + [PipeStep(ClientToRemote, Eof)];
    OneMoreStep(streams, steps, t1, PipeStep(RemoteToClient, Eof), t2);
    steps := steps + [PipeStep(RemoteToClient, Eof)];
    OneMoreStep(streams, steps, t2, PipeStep(ClientToRemote, Resumed), t3);
    steps := steps + [PipeStep(ClientToRemote, Resumed)];
    OneMoreStep(streams, steps, t3, PipeStep(RemoteToClient, Resumed), t4);
    steps := steps + [PipeStep(RemoteToClient, Resumed)];
    OneMoreStep(streams, steps, t4, Wake, t4.(coordinator := Returned(true)));
    steps := steps + [Wake];
  }
}

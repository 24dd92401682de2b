/** The bidirectional relay of a CONNECT tunnel (`relay_data`): two pipes that run concurrently and the
    coordinator that ends them together. Every step is what happens between two `await`s.
  */
module Relay {
  import opened Options

  type Bytes = string

  const RELAY_BUFFER_SIZE := 65536

  /** OsFault: the connection errors that `_pipe` catches; OtherFault: any other Exception. */
  datatype Fault = OsFault | OtherFault

  /** What an await in a pipe comes back with. */
  datatype Event = Data(bytes: Bytes) | Eof | Resumed | Raised(fault: Fault) | CancelledError

  datatype Ending = Clean | Failed | Cancelled

  /** Awaiting the read, about to write the chunk just read, awaiting the drain, or awaiting the closing of the
      writer; `ending` is what the task ends with after that. */
  datatype Phase = Reading | Holding(chunk: Bytes) | Draining | Closing(ending: Ending) | Done(ending: Ending)

  /** `written` is what was handed to the destination's writer so far. */
  datatype Pipe = Pipe(phase: Phase, written: Bytes, writerClosed: bool, sawEof: bool)

  const FRESH := Pipe(Reading, "", false, false)

  predicate CanHappen(phase: Phase, event: Event) {
    match phase
    case Reading => event != Resumed && (event.Data? ==> 0 < |event.bytes| <= RELAY_BUFFER_SIZE)
    case Draining => event.Resumed? || event.Raised? || event.CancelledError?
    case Closing(_) => event.Resumed? || event.Raised? || event.CancelledError?
    case _ => false
  }

  /** Leaving the loop: the writer is closed, and its closing awaited. */
  function Leave(p: Pipe, ending: Ending): Pipe {
    p.(phase := Closing(ending), writerClosed := true)
  }

  /** What an await comes back with. */
  function PipeNext(p: Pipe, event: Event): Pipe
    requires CanHappen(p.phase, event)
  {
    match p.phase
    case Reading =>
      (match event
       case Data(bytes) => p.(phase := Holding(bytes))
       case Eof => Leave(p, Clean).(sawEof := true)
       case Raised(OtherFault) => Leave(p, Failed)
       case _ => Leave(p, Clean))
    case Draining =>
      (match event
       case Resumed => p.(phase := Reading)
       case Raised(OtherFault) => Leave(p, Failed)
       case _ => Leave(p, Clean))
    case Closing(ending) =>
      (match event
       case CancelledError => p.(phase := Done(Cancelled))
       case Raised(OtherFault) => p.(phase := Done(Failed))
       case _ => p.(phase := Done(ending)))
  }

  /** The write of the chunk just read. */
  function PipeWrite(p: Pipe): Pipe
    requires p.phase.Holding?
  {
    p.(phase := Draining, written := p.written + p.phase.chunk)
  }

  /** From one await of a pipe to its next. */
  function AwaitNext(p: Pipe, event: Event): Pipe
    requires CanHappen(p.phase, event)
  {
    var q := PipeNext(p, event);
    if q.phase.Holding? then PipeWrite(q) else q
  }

  /** A pipe by itself, driven by the outcomes of its awaits; None if they do not fit. */
  function PipeAfter(events: seq<Event>): Option<Pipe> {
    if events == [] then Some(FRESH)
    else
      match PipeAfter(events[..|events| - 1])
      case None => None
      case Some(p) =>
        if CanHappen(p.phase, events[|events| - 1]) then Some(AwaitNext(p, events[|events| - 1])) else None
  }

  lemma AwaitRead(p: Pipe, event: Event)
    requires p.phase == Reading && CanHappen(p.phase, event)
    ensures var q := AwaitNext(p, event);
            if event.Data? then
              q.phase == Draining && q.written == p.written + event.bytes && q.writerClosed == p.writerClosed
            else
              && q.phase == Closing(if event == Raised(OtherFault) then Failed else Clean)
              && q.written == p.written && q.writerClosed
  {
  }

  lemma AwaitDrain(p: Pipe, event: Event)
    requires p.phase == Draining && CanHappen(p.phase, event)
    ensures var q := AwaitNext(p, event);
            && q.written == p.written
            && if event == Resumed then q.phase == Reading && q.writerClosed == p.writerClosed
               else q.phase == Closing(if event == Raised(OtherFault) then Failed else Clean) && q.writerClosed
  {
  }

  lemma AwaitClosing(p: Pipe, event: Event)
    requires p.phase.Closing? && CanHappen(p.phase, event)
    ensures var q := AwaitNext(p, event);
            && q.written == p.written && q.writerClosed == p.writerClosed
            && q.phase == Done(match event
                               case CancelledError => Cancelled
                               case Raised(OtherFault) => Failed
                               case _ => p.phase.ending)
  {
  }

  /** `_pipe`, run against the outcomes of its awaits until it ends or they do: what it has read, written and closed
      is what the step function says. */
  method RunPipe(events: seq<Event>) returns (written: Bytes, writerClosed: bool, ending: Option<Ending>)
    requires PipeAfter(events).Some?
    ensures var p := PipeAfter(events).value;
            && written == p.written && writerClosed == p.writerClosed
            && ending == if p.phase.Done? then Some(p.phase.ending) else None
  {
    hide PipeAfter, AwaitNext, CanHappen;
    written, writerClosed, ending := "", false, None;
    var outcome := Clean;
    var next := 0;
    ghost var p := FRESH;
    PipeStart(events);
    while true
      invariant 0 <= next <= |events| && !writerClosed && ending == None && outcome == Clean
      invariant PipeAfter(events[..next]) == Some(p)
      invariant p.phase == Reading && p.written == written && !p.writerClosed
      decreases |events| - next
    {
      if next == |events| {  // still awaiting the read
        assert events[..next] == events;
        return;
      }
      var read := events[next];
      PipeCanHappen(events, next, p);
      AwaitRead(p, read);
      p := PipeAdvance(events, next, p);
      next := next + 1;
      if read.Data? {
        written := written + read.bytes;
        if next == |events| {  // still awaiting the drain
          assert events[..next] == events;
          return;
        }
        var drain := events[next];
        PipeCanHappen(events, next, p);
        AwaitDrain(p, drain);
        p := PipeAdvance(events, next, p);
        next := next + 1;
        if drain == Resumed {
          continue;
        }
        outcome := if drain == Raised(OtherFault) then Failed else Clean;
      } else {
        outcome := if read == Raised(OtherFault) then Failed else Clean;
      }
      break;
    }
    writerClosed := true;
    if next == |events| {  // still awaiting the writer's closing
      assert events[..next] == events;
      return;
    }
    var closing := events[next];
    PipeCanHappen(events, next, p);
    AwaitClosing(p, closing);
    p := PipeAdvance(events, next, p);
    ending := Some(match closing
                   case CancelledError => Cancelled
                   case Raised(OtherFault) => Failed
                   case _ => outcome);
    DoneIsLast(events, next + 1, p);
    assert events[..next + 1] == events;
  }

  lemma PipeStart(events: seq<Event>)
    ensures PipeAfter(events[..0]) == Some(FRESH)
  {
  }

  lemma {:induction false} PrefixFits(events: seq<Event>, n: nat)
    requires n <= |events| && PipeAfter(events).Some?
    ensures PipeAfter(events[..n]).Some?
    decreases |events|
  {
    if n < |events| {
      PrefixFits(events[..|events| - 1], n);
      assert events[..|events| - 1][..n] == events[..n];
    } else {
      assert events[..n] == events;
    }
  }

  lemma PipeCanHappen(events: seq<Event>, n: nat, p: Pipe)
    requires n < |events| && PipeAfter(events).Some? && PipeAfter(events[..n]) == Some(p)
    ensures CanHappen(p.phase, events[n])
  {
    var _ := PipeAdvance(events, n, p);
  }

  lemma PipeAdvance(events: seq<Event>, n: nat, p: Pipe) returns (q: Pipe)
    requires n < |events| && PipeAfter(events).Some? && PipeAfter(events[..n]) == Some(p)
    ensures CanHappen(p.phase, events[n])
    ensures q == AwaitNext(p, events[n]) && PipeAfter(events[..n + 1]) == Some(q)
  {
    PrefixFits(events, n + 1);
    assert events[..n + 1][..n] == events[..n];
    q := PipeAfter(events[..n + 1]).value;
  }

  lemma DoneIsLast(events: seq<Event>, n: nat, p: Pipe)
    requires n <= |events| && PipeAfter(events).Some?
    requires PipeAfter(events[..n]) == Some(p) && p.phase.Done?
    ensures n == |events|
  {
    if n < |events| {
      var _ := PipeAdvance(events, n, p);
    }
  }

  // ---- both pipes and their coordinator ----

  datatype Direction = ClientToRemote | RemoteToClient

  /** The coordinator waits for the first pipe to end, then for the one it cancelled, then it is over. */
  datatype Coordinator = Waiting | Joining(cancelled: Direction, cleanSoFar: bool) | Returned(clean: bool) | RaisedOut

  /** A byte string from the client and one from the remote. */
  datatype Streams = Streams(client: Bytes, remote: Bytes)

  /** `unread` is what either side sends, or would send, that was not read yet. `cancelRequested`: the pipe's next
      resumption raises CancelledError. */
  datatype State = State(c2r: Pipe, r2c: Pipe, unread: Streams, cancelRequested: bool, coordinator: Coordinator)

  function Initial(streams: Streams): State {
    State(FRESH, FRESH, streams, false, Waiting)
  }

  datatype Step = PipeStep(direction: Direction, event: Event) | Write(direction: Direction) | Wake | Join

  function PipeOf(s: State, d: Direction): Pipe {
    if d == ClientToRemote then s.c2r else s.r2c
  }

  function SourceOf(streams: Streams, d: Direction): Bytes {
    if d == ClientToRemote then streams.client else streams.remote
  }

  function Other(d: Direction): Direction {
    if d == ClientToRemote then RemoteToClient else ClientToRemote
  }

  function UpdatePipe(s: State, d: Direction, p: Pipe): State {
    if d == ClientToRemote then s.(c2r := p) else s.(r2c := p)
  }

  /** `n` bytes are taken off what is unread. */
  function Consume(unread: Streams, d: Direction, n: nat): Streams
    requires n <= |SourceOf(unread, d)|
  {
    if d == ClientToRemote then unread.(client := unread.client[n..]) else unread.(remote := unread.remote[n..])
  }

  predicate AwaitsCancellation(s: State, d: Direction) {
    s.cancelRequested && s.coordinator.Joining? && s.coordinator.cancelled == d
  }

  /** A pipe is between its read and its write; nothing else runs until that is done. */
  predicate Busy(s: State) {
    s.c2r.phase.Holding? || s.r2c.phase.Holding?
  }

  /** A read gives the first bytes of what is unread. It gives an end of stream when nothing is unread, or when the
      other pipe has closed its writer: that is the same transport as this pipe's reader, and closing it feeds the
      reader an end of stream, whatever the peer still sends. A pipe is cancelled by the coordinator alone, at its
      next resumption. */
  predicate Enabled(s: State, step: Step) {
    match step
    case PipeStep(d, event) =>
      && !Busy(s)
      && CanHappen(PipeOf(s, d).phase, event)
      && (event.Data? ==> event.bytes <= SourceOf(s.unread, d))
      && (event.Eof? ==> SourceOf(s.unread, d) == "" || PipeOf(s, Other(d)).writerClosed)
      && (event.CancelledError? <==> AwaitsCancellation(s, d))
    case Write(d) => PipeOf(s, d).phase.Holding?
    case Wake => !Busy(s) && s.coordinator == Waiting && (s.c2r.phase.Done? || s.r2c.phase.Done?)
    case Join => !Busy(s) && s.coordinator.Joining? && PipeOf(s, s.coordinator.cancelled).phase.Done?
  }

  function Next(s: State, step: Step): State
    requires Enabled(s, step)
  {
    match step
    case PipeStep(d, event) =>
      var t := UpdatePipe(s, d, PipeNext(PipeOf(s, d), event));
      t.(cancelRequested := s.cancelRequested && !event.CancelledError?,
         unread := if event.Data? then Consume(s.unread, d, |event.bytes|) else s.unread)
    case Write(d) => UpdatePipe(s, d, PipeWrite(PipeOf(s, d)))
    case Wake =>
      var firstDone := if s.c2r.phase.Done? then ClientToRemote else RemoteToClient;
      var clean := PipeOf(s, firstDone).phase.ending != Failed;
      if PipeOf(s, Other(firstDone)).phase.Done?
      then s.(coordinator := Returned(clean && PipeOf(s, Other(firstDone)).phase.ending != Failed))
      else s.(coordinator := Joining(Other(firstDone), clean), cancelRequested := true)
    case Join =>
      s.(coordinator := if PipeOf(s, s.coordinator.cancelled).phase.ending == Failed then RaisedOut
                        else Returned(s.coordinator.cleanSoFar))
  }

  function After(streams: Streams, steps: seq<Step>): Option<State> {
    if steps == [] then Some(Initial(streams))
    else
      match After(streams, steps[..|steps| - 1])
      case None => None
      case Some(s) => if Enabled(s, steps[|steps| - 1]) then Some(Next(s, steps[|steps| - 1])) else None
  }

  // ---- what holds at every await ----

  /** The chunk between read and write. */
  function Held(p: Pipe): Bytes {
    if p.phase.Holding? then p.phase.chunk else ""
  }

  /** What was written, what is held and what is unread are together what the source sends; the writer is closed once
      the pipe has left its loop. */
  predicate PipeInv(p: Pipe, unread: Bytes, source: Bytes) {
    && p.written + Held(p) + unread == source
    && (p.writerClosed <==> p.phase.Closing? || p.phase.Done?)
    && (p.sawEof ==> p.writerClosed)
  }

  predicate CoordinatorInv(s: State) {
    && (s.cancelRequested ==> s.coordinator.Joining? && !PipeOf(s, s.coordinator.cancelled).phase.Done?)
    && (s.coordinator.Joining? ==> PipeOf(s, Other(s.coordinator.cancelled)).phase.Done?)
    && (s.coordinator.Joining? && !s.cancelRequested ==> PipeOf(s, s.coordinator.cancelled).writerClosed)
    && (s.coordinator.Joining? ==> !PipeOf(s, s.coordinator.cancelled).phase.Holding?)
    && (s.coordinator.Returned? || s.coordinator.RaisedOut? ==> s.c2r.phase.Done? && s.r2c.phase.Done?)
  }

  predicate Inv(streams: Streams, s: State) {
    && PipeInv(s.c2r, s.unread.client, streams.client)
    && PipeInv(s.r2c, s.unread.remote, streams.remote)
    && !(s.c2r.phase.Holding? && s.r2c.phase.Holding?)
    && CoordinatorInv(s)
  }

  /** A pipe's step moves bytes from what is unread to what is held, and from there to what is written. */
  lemma PipeKeepsInv(p: Pipe, event: Event, unread: Bytes, source: Bytes)
    requires PipeInv(p, unread, source) && CanHappen(p.phase, event)
    requires event.Data? ==> event.bytes <= unread
    ensures PipeInv(PipeNext(p, event), if event.Data? then unread[|event.bytes|..] else unread, source)
  {
    if event.Data? {
      assert p.written + "" + unread == p.written + event.bytes + unread[|event.bytes|..];
    }
  }

  lemma WriteKeepsInv(p: Pipe, unread: Bytes, source: Bytes)
    requires PipeInv(p, unread, source) && p.phase.Holding?
    ensures PipeInv(PipeWrite(p), unread, source)
  {
    assert p.written + p.phase.chunk + unread == (p.written + p.phase.chunk) + "" + unread;
  }

  lemma StepKeepsInv(streams: Streams, s: State, step: Step)
    requires Inv(streams, s) && Enabled(s, step)
    ensures Inv(streams, Next(s, step))
  {
    if step.PipeStep? {
      var d := step.direction;
      PipeKeepsInv(PipeOf(s, d), step.event, SourceOf(s.unread, d), SourceOf(streams, d));
    } else if step.Write? {
      WriteKeepsInv(PipeOf(s, step.direction), SourceOf(s.unread, step.direction), SourceOf(streams, step.direction));
    }
  }

  lemma {:induction false} RunKeepsInv(streams: Streams, steps: seq<Step>)
    requires After(streams, steps).Some?
    ensures Inv(streams, After(streams, steps).value)
  {
    hide Next, Enabled;
    if steps == [] {
      assert Inv(streams, Initial(streams)) by {
        InitialInv(streams);
      }
    } else {
      RunKeepsInv(streams, steps[..|steps| - 1]);
      StepKeepsInv(streams, After(streams, steps[..|steps| - 1]).value, steps[|steps| - 1]);
    }
  }

  lemma InitialInv(streams: Streams)
    ensures Inv(streams, Initial(streams))
  {
    assert "" + "" + streams.client == streams.client && "" + "" + streams.remote == streams.remote;
  }

  /** At every await of every schedule, no byte is lost, repeated, reordered or sent the wrong way: what was written to
      one side and what is still unread from the other are together what the other sends. When the relay is over, both
      writers are closed. */
  lemma RelaySafety(streams: Streams, steps: seq<Step>)
    requires After(streams, steps).Some?
    ensures var s := After(streams, steps).value;
            && s.c2r.written <= streams.client && s.r2c.written <= streams.remote
            && (!Busy(s) ==> s.c2r.written + s.unread.client == streams.client
                             && s.r2c.written + s.unread.remote == streams.remote)
            && (s.coordinator.Returned? || s.coordinator.RaisedOut? ==> s.c2r.writerClosed && s.r2c.writerClosed)
  {
    hide After, PipeInv;
    RunKeepsInv(streams, steps);
    var s := After(streams, steps).value;
    PipeIsSafe(s.c2r, s.unread.client, streams.client);
    PipeIsSafe(s.r2c, s.unread.remote, streams.remote);
  }

  lemma PipeIsSafe(p: Pipe, unread: Bytes, source: Bytes)
    requires PipeInv(p, unread, source)
    ensures p.written <= source
    ensures !p.phase.Holding? ==> p.written + unread == source
    ensures p.phase.Done? ==> p.writerClosed
  {
    assert p.written + Held(p) + unread == p.written + (Held(p) + unread);
    assert !p.phase.Holding? ==> p.written + "" == p.written;
  }

  // ---- what an end of stream says ----

  lemma {:induction false} RunPrefix(streams: Streams, steps: seq<Step>, n: nat)
    requires n <= |steps| && After(streams, steps).Some?
    ensures After(streams, steps[..n]).Some?
    decreases |steps|
  {
    hide Next, Enabled;
    if n < |steps| {
      RunPrefix(streams, steps[..|steps| - 1], n);
      assert steps[..|steps| - 1][..n] == steps[..n];
    } else {
      assert steps[..n] == steps;
    }
  }

  /** The step ends the loop of the pipe `d`, if that is still running. */
  predicate EndsLoop(step: Step, d: Direction) {
    step.PipeStep? && step.direction == d && !step.event.Data? && !step.event.Resumed?
  }

  /** Some step has ended the loop of `d`, and with it has closed the transport that the other pipe reads from. */
  predicate HasLeft(steps: seq<Step>, d: Direction) {
    exists step <- steps :: EndsLoop(step, d)
  }

  lemma {:induction false} LeftIsClosed(streams: Streams, steps: seq<Step>, d: Direction)
    requires After(streams, steps).Some?
    ensures PipeOf(After(streams, steps).value, d).writerClosed <==> HasLeft(steps, d)
  {
    hide Inv;
    if steps != [] {
      var before, step := steps[..|steps| - 1], steps[|steps| - 1];
      var s := After(streams, before).value;
      LeftIsClosed(streams, before, d);
      RunKeepsInv(streams, before);
      assert steps == before + [step];
      StepCloses(streams, s, step, d);
    }
  }

  lemma StepCloses(streams: Streams, s: State, step: Step, d: Direction)
    requires Inv(streams, s) && Enabled(s, step)
    ensures PipeOf(Next(s, step), d).writerClosed <==> PipeOf(s, d).writerClosed || EndsLoop(step, d)
    ensures PipeOf(s, d).writerClosed ==> PipeOf(Next(s, step), d).written == PipeOf(s, d).written
    ensures PipeOf(Next(s, step), d).sawEof <==> PipeOf(s, d).sawEof || step == PipeStep(d, Eof)
  {
  }

  /** A pipe that has closed its writer has written what it ever will. */
  lemma {:induction false} ClosedWritesNoMore(streams: Streams, steps: seq<Step>, n: nat, d: Direction)
    requires n <= |steps| && After(streams, steps).Some? && After(streams, steps[..n]).Some?
    requires PipeOf(After(streams, steps[..n]).value, d).writerClosed
    ensures PipeOf(After(streams, steps).value, d).writerClosed
    ensures PipeOf(After(streams, steps).value, d).written == PipeOf(After(streams, steps[..n]).value, d).written
    decreases |steps|
  {
    hide Inv, Next, Enabled;
    if n < |steps| {
      var before, step := steps[..|steps| - 1], steps[|steps| - 1];
      assert before[..n] == steps[..n];
      ClosedWritesNoMore(streams, before, n, d);
      RunKeepsInv(streams, before);
      StepCloses(streams, After(streams, before).value, step, d);
    } else {
      assert steps[..n] == steps;
    }
  }

  /** Where a pipe that saw an end of stream saw it. */
  lemma {:induction false} EofSeenAt(streams: Streams, steps: seq<Step>, d: Direction) returns (at: nat)
    requires After(streams, steps).Some? && PipeOf(After(streams, steps).value, d).sawEof
    ensures at < |steps| && steps[at] == PipeStep(d, Eof)
  {
    hide Inv, Next, Enabled;
    var before, step := steps[..|steps| - 1], steps[|steps| - 1];
    RunKeepsInv(streams, before);
    StepCloses(streams, After(streams, before).value, step, d);
    if step == PipeStep(d, Eof) {
      at := |steps| - 1;
    } else {
      at := EofSeenAt(streams, before, d);
    }
  }

  /** In every schedule, a direction that ends by an end of stream has written everything its source sends exactly when
      the opposite pipe had not left its loop by then, or nothing was unread. */
  lemma EofDeliversExactly(streams: Streams, steps: seq<Step>, at: nat, d: Direction)
    requires After(streams, steps).Some?
    requires at < |steps| && steps[at] == PipeStep(d, Eof)
    ensures After(streams, steps[..at]).Some?
    ensures PipeOf(After(streams, steps).value, d).written == SourceOf(streams, d) <==>
            || !HasLeft(steps[..at], Other(d))
            || SourceOf(After(streams, steps[..at]).value.unread, d) == ""
  {
    hide Inv;
    RunPrefix(streams, steps, at);
    RunPrefix(streams, steps, at + 1);
    assert steps[..at + 1][..at] == steps[..at];
    var s := After(streams, steps[..at]).value;
    LeftIsClosed(streams, steps[..at], Other(d));
    RelaySafety(streams, steps[..at]);
    assert PipeOf(s, d).written + SourceOf(s.unread, d) == SourceOf(streams, d);
    ClosedWritesNoMore(streams, steps, at + 1, d);
    assert PipeOf(Next(s, steps[at]), d).written == PipeOf(s, d).written;
  }

  lemma OneMoreStep(streams: Streams, steps: seq<Step>, s: State, step: Step, t: State)
    requires After(streams, steps) == Some(s) && Enabled(s, step) && Next(s, step) == t
    ensures After(streams, steps + [step]) == Some(t)
  {
    hide Enabled, Next;
    assert (steps + [step])[..|steps + [step]| - 1] == steps;
  }

  /** The client closes first: closing the remote's writer ends the remote's stream for the other pipe, and what the
      remote still sends is lost, although both pipes saw an end of stream and the relay reports a clean end. */
  lemma EofCanLoseBytes()
    ensures var steps := [PipeStep(ClientToRemote, Eof), PipeStep(RemoteToClient, Eof),
                          PipeStep(ClientToRemote, Resumed), PipeStep(RemoteToClient, Resumed), Wake];
            var end := After(Streams("", "late"), steps);
            && end.Some? && end.value.coordinator == Returned(true)
            && end.value.r2c.sawEof && end.value.r2c.written == ""
  {
    var streams := Streams("", "late");
    var s1, s2 := PipeStep(ClientToRemote, Eof), PipeStep(RemoteToClient, Eof);
    var s3, s4 := PipeStep(ClientToRemote, Resumed), PipeStep(RemoteToClient, Resumed);
    var left, done := Pipe(Closing(Clean), "", true, true), Pipe(Done(Clean), "", true, true);
    var t1, t2 := State(left, FRESH, streams, false, Waiting), State(left, left, streams, false, Waiting);
    var t3, t4 := State(done, left, streams, false, Waiting), State(done, done, streams, false, Waiting);
    NoStepYet(streams);
    hide After;
    var p1, p2 := [s1], [s1, s2];
    var p3, p4 := p2 + [s3], p2 + [s3] + [s4];
    assert [] + [s1] == p1 && p1 + [s2] == p2;
    OneMoreStep(streams, [], Initial(streams), s1, t1);
    OneMoreStep(streams, p1, t1, s2, t2);
    OneMoreStep(streams, p2, t2, s3, t3);
    OneMoreStep(streams, p3, t3, s4, t4);
    OneMoreStep(streams, p4, t4, Wake, t4.(coordinator := Returned(true)));
    assert p4 + [Wake] == [s1, s2, s3, s4, Wake];
  }

  lemma NoStepYet(streams: Streams)
    ensures After(streams, []) == Some(Initial(streams))
  {
  }

  /** For any bytes of the two sides: all schedules in which the direction ends by an end of stream deliver everything
      exactly when its source sends nothing. */
  lemma EofAlwaysDeliversExactly(streams: Streams, d: Direction)
    ensures (forall steps: seq<Step> ::
               After(streams, steps).Some? && PipeOf(After(streams, steps).value, d).sawEof ==>
               PipeOf(After(streams, steps).value, d).written == SourceOf(streams, d))
            <==> SourceOf(streams, d) == ""
  {
    if SourceOf(streams, d) == "" {
      forall steps: seq<Step> | After(streams, steps).Some?
        ensures PipeOf(After(streams, steps).value, d).written == ""
      {
        hide After;
        RelaySafety(streams, steps);
      }
    } else {
      var s1, s2 := PipeStep(Other(d), Raised(OsFault)), PipeStep(d, Eof);
      var left, ended := Pipe(Closing(Clean), "", true, false), Pipe(Closing(Clean), "", true, true);
      var t1 := UpdatePipe(Initial(streams), Other(d), left);
      NoStepYet(streams);
      hide After;
      assert [] + [s1] == [s1];
      OneMoreStep(streams, [], Initial(streams), s1, t1);
      OneMoreStep(streams, [s1], t1, s2, UpdatePipe(t1, d, ended));
    }
  }

  predicate OneDelivered(streams: Streams, s: State) {
    s.c2r.written == streams.client || s.r2c.written == streams.remote
  }

  predicate IsFault(step: Step) {
    step.PipeStep? && step.event.Raised?
  }

  /** The first pipe to leave, unless by an error, has written everything; and what was complete stays so. */
  lemma StepDelivers(streams: Streams, s: State, step: Step)
    requires Inv(streams, s) && Enabled(s, step) && !IsFault(step)
    requires s.c2r.writerClosed || s.r2c.writerClosed ==> OneDelivered(streams, s)
    ensures var t := Next(s, step);
            t.c2r.writerClosed || t.r2c.writerClosed ==> OneDelivered(streams, t)
  {
    var t := Next(s, step);
    if s.c2r.writerClosed || s.r2c.writerClosed {
      DeliveredStays(streams, s, step, if s.c2r.written == streams.client then ClientToRemote else RemoteToClient);
    } else if t.c2r.writerClosed || t.r2c.writerClosed {
      assert step.PipeStep? && step.event.Eof?;
      var d := step.direction;
      assert PipeOf(s, d).written + "" + "" == PipeOf(s, d).written;
    }
  }

  lemma DeliveredStays(streams: Streams, s: State, step: Step, d: Direction)
    requires Inv(streams, s) && Enabled(s, step) && PipeOf(s, d).written == SourceOf(streams, d)
    ensures PipeOf(Next(s, step), d).written == SourceOf(streams, d)
  {
    StepKeepsInv(streams, s, step);
    WritesMore(s, step, d);
    hide Next, Enabled, CoordinatorInv;
    var p := PipeOf(Next(s, step), d);
    assert |p.written + Held(p) + SourceOf(Next(s, step).unread, d)| == |PipeOf(s, d).written|;
  }

  lemma WritesMore(s: State, step: Step, d: Direction)
    requires Enabled(s, step)
    ensures PipeOf(s, d).written <= PipeOf(Next(s, step), d).written
  {
  }

  /** However the ends of stream race each other: in a schedule without connection errors, as soon as a writer is
      closed, and so when the relay is over, at least one direction has written everything its source sends. */
  lemma {:induction false} OneDirectionDelivers(streams: Streams, steps: seq<Step>)
    requires After(streams, steps).Some? && forall step <- steps :: !IsFault(step)
    ensures var s := After(streams, steps).value;
            s.c2r.writerClosed || s.r2c.writerClosed ==> OneDelivered(streams, s)
  {
    hide Inv, Next, Enabled, OneDelivered;
    if steps != [] {
      var before := steps[..|steps| - 1];
      OneDirectionDelivers(streams, before);
      RunKeepsInv(streams, before);
      StepDelivers(streams, After(streams, before).value, steps[|steps| - 1]);
    }
  }

  /** Once the coordinator has noticed the first end, not one byte more is written in either direction. */
  lemma StepWritesNothingAfterWake(streams: Streams, s: State, step: Step)
    requires Inv(streams, s) && s.coordinator != Waiting && !Busy(s) && Enabled(s, step)
    ensures var t := Next(s, step);
            && t.coordinator != Waiting && !Busy(t)
            && t.c2r.written == s.c2r.written && t.r2c.written == s.r2c.written
  {
  }

  lemma {:induction false} NotBusyAfterWake(streams: Streams, steps: seq<Step>)
    requires After(streams, steps).Some? && After(streams, steps).value.coordinator != Waiting
    ensures !Busy(After(streams, steps).value)
  {
    hide Inv;
    var before, step := steps[..|steps| - 1], steps[|steps| - 1];
    if After(streams, before).value.coordinator != Waiting {
      NotBusyAfterWake(streams, before);
      RunKeepsInv(streams, before);
      StepWritesNothingAfterWake(streams, After(streams, before).value, step);
    }
  }

  lemma {:induction false} NothingWrittenAfterWake(streams: Streams, steps: seq<Step>, more: seq<Step>)
    requires After(streams, steps).Some? && After(streams, steps).value.coordinator != Waiting
    requires After(streams, steps + more).Some?
    ensures After(streams, steps + more).value.coordinator != Waiting
    ensures After(streams, steps + more).value.c2r.written == After(streams, steps).value.c2r.written
    ensures After(streams, steps + more).value.r2c.written == After(streams, steps).value.r2c.written
    decreases |more|
  {
    hide Next, Inv, Enabled;
    if more == [] {
      assert steps + more == steps;
    } else {
      var before := more[..|more| - 1];
      assert (steps + more)[..|steps + more| - 1] == steps + before;
      NothingWrittenAfterWake(streams, steps, before);
      RunKeepsInv(streams, steps + before);
      NotBusyAfterWake(streams, steps + before);
      StepWritesNothingAfterWake(streams, After(streams, steps + before).value, more[|more| - 1]);
    }
  }
}

/** The command/response protocol of the CDP client as a step machine: any number of senders, one receive
    loop, timeouts, send failures, cancellations and disconnects, interleaved at the `await`s.
  */
module CdpProtocol {
  import opened Options

  datatype Message = Response(id: int, payload: string) | Event(name: string) | Ignored

  datatype Future = Unset | Resolved(message: Message) | Cancelled

  datatype Outcome = Answered(message: Message) | TimedOut | SendFailed | Aborted

  /** Where a `send` stands: in the WebSocket's send, in the wait for its future, or done. */
  datatype Phase = Sending | Waiting | Finished(outcome: Outcome)

  datatype Command = Command(phase: Phase, future: Future)

  /** `pending` holds the keys of the table of pending futures; `listening` is false once the receive loop is over. */
  datatype State = State(nextId: int, pending: set<int>, commands: map<int, Command>, listening: bool, closed: bool)

  const INITIAL := State(1, {}, map[], true, false)

  datatype Step =
    | Begin                       // a send registers its future and starts to write
    | Written(id: int)            // the WebSocket took the message
    | WriteFailed(id: int)        // the WebSocket raised
    | Expired(id: int)            // the wait for the future ran into its timeout
    | Woken(id: int)              // the sender sees that its future is done
    | SenderAborted(id: int)      // the sender's own task was cancelled
    | Received(message: Message)  // the receive loop dispatches a message
    | Disconnected                // the receive loop ends because the WebSocket did
    | ListenerCancelled           // the receive loop's task was cancelled
    | Close

  predicate InPhase(s: State, id: int, phase: Phase) {
    id in s.commands && s.commands[id].phase == phase
  }

  predicate Enabled(s: State, step: Step) {
    match step
    case Begin => !s.closed
    case Written(id) => InPhase(s, id, Sending)
    case WriteFailed(id) => InPhase(s, id, Sending)
    case Expired(id) => InPhase(s, id, Waiting)
    case Woken(id) => InPhase(s, id, Waiting) && s.commands[id].future != Unset
    case SenderAborted(id) => id in s.commands && !s.commands[id].phase.Finished?
    case Received(_) => s.listening
    case Disconnected => s.listening
    case ListenerCancelled => s.listening
    case Close => true
  }

  function Cancel(f: Future): Future {
    if f == Unset then Cancelled else f
  }

  function Finish(s: State, id: int, outcome: Outcome, future: Future): State
    requires id in s.commands
  {
    s.(commands := s.commands[id := Command(Finished(outcome), future)])
  }

  function Next(s: State, step: Step): State
    requires Enabled(s, step)
  {
    match step
    case Begin =>
      s.(nextId := s.nextId + 1, pending := s.pending + {s.nextId},
         commands := s.commands[s.nextId := Command(Sending, Unset)])
    case Written(id) => s.(commands := s.commands[id := s.commands[id].(phase := Waiting)])
    case WriteFailed(id) => Finish(s, id, SendFailed, s.commands[id].future).(pending := s.pending - {id})
    case Expired(id) => Finish(s, id, TimedOut, Cancel(s.commands[id].future)).(pending := s.pending - {id})
    case Woken(id) =>
      var f := s.commands[id].future;
      Finish(s, id, if f.Resolved? then Answered(f.message) else Aborted, f)
    case SenderAborted(id) =>
      var c := s.commands[id];
      Finish(s, id, Aborted, if c.phase == Waiting then Cancel(c.future) else c.future)
    case Received(message) => Dispatch(s, message)
    case Disconnected =>
      s.(pending := {}, listening := false,
         commands := map id | id in s.commands ::
           if id in s.pending then s.commands[id].(future := Cancel(s.commands[id].future)) else s.commands[id])
    case ListenerCancelled => s.(listening := false)
    case Close => s.(listening := false, closed := true)
  }

  /** A response goes to the future pending under its id, if there is one that is not done. */
  function Dispatch(s: State, message: Message): State {
    if message.Response? && message.id in s.pending then
      s.(pending := s.pending - {message.id},
         commands :=
           if message.id in s.commands && s.commands[message.id].future == Unset
           then s.commands[message.id := s.commands[message.id].(future := Resolved(message))]
           else s.commands)
    else s
  }

  // ---- what every step keeps ----

  /** An unfinished command's future is in the table exactly while nothing has been done to it; a finished one's is
      there only if its sender was cancelled and no response has come since. */
  predicate CommandInv(id: int, c: Command, isPending: bool) {
    && (!c.phase.Finished? ==> (isPending <==> c.future == Unset))
    && (isPending ==> !c.future.Resolved? && c.phase in {Sending, Waiting, Finished(Aborted)})
    && (c.future.Resolved? ==> c.future.message.Response? && c.future.message.id == id)
    && (c.phase.Finished? && c.phase.outcome.Answered? ==> c.future == Resolved(c.phase.outcome.message))
  }

  ghost predicate Inv(s: State) {
    && s.nextId >= 1
    && (forall id :: id in s.commands <==> 1 <= id < s.nextId)
    && (forall id <- s.pending :: id in s.commands)
    && (forall id <- s.commands :: CommandInv(id, s.commands[id], id in s.pending))
    && (s.closed ==> !s.listening)
  }

  lemma InvInitially()
    ensures Inv(INITIAL)
  {
  }

  lemma StepKeepsInv(s: State, step: Step)
    requires Inv(s) && Enabled(s, step)
    ensures Inv(Next(s, step))
  {
  }

  /** A new command gets an id that no command had; a finished one stays as it ended. */
  lemma StepKeepsCommands(s: State, step: Step)
    requires Inv(s) && Enabled(s, step)
    ensures s.nextId <= Next(s, step).nextId
    ensures step == Begin ==> s.nextId !in s.commands && s.nextId in Next(s, step).commands
    ensures forall id <- s.commands :: id in Next(s, step).commands
              && (s.commands[id].phase.Finished? ==> Next(s, step).commands[id].phase == s.commands[id].phase)
  {
  }

  /** A late or duplicate response, and one for an id that was never issued, change nothing. */
  lemma UnexpectedResponseIgnored(s: State, message: Message)
    requires Inv(s) && s.listening
    requires !message.Response? || message.id !in s.commands || message.id !in s.pending
    ensures Next(s, Received(message)) == s
  {
  }

  /** The disconnect leaves nothing pending and no unfinished command without a verdict. */
  lemma DisconnectClears(s: State)
    requires Inv(s) && s.listening
    ensures var t := Next(s, Disconnected);
            && t.pending == {}
            && forall id <- t.commands :: !t.commands[id].phase.Finished? ==> t.commands[id].future != Unset
  {
  }

  // ---- whole runs ----

  function Last<T>(s: seq<T>): T
    requires s != []
  {
    s[|s| - 1]
  }

  function Init<T>(s: seq<T>): seq<T>
    requires s != []
  {
    s[..|s| - 1]
  }

  /** The state after a run of steps, or None if one of them was not possible. */
  function After(steps: seq<Step>): Option<State> {
    if steps == [] then Some(INITIAL)
    else
      match After(Init(steps))
      case None => None
      case Some(s) => if Enabled(s, Last(steps)) then Some(Next(s, Last(steps))) else None
  }

  /** How many commands a run has issued. */
  function Begins(steps: seq<Step>): nat {
    if steps == [] then 0 else Begins(Init(steps)) + (if Last(steps) == Begin then 1 else 0)
  }

  predicate IsResponseTo(step: Step, id: int) {
    step.Received? && step.message.Response? && step.message.id == id
  }

  /** The first response to command `id` received after the command was issued. */
  function FirstResponse(steps: seq<Step>, id: int): Option<Message> {
    if steps == [] then None
    else
      match FirstResponse(Init(steps), id)
      case Some(m) => Some(m)
      case None =>
        if IsResponseTo(Last(steps), id) && 1 <= id <= Begins(Init(steps)) then Some(Last(steps).message) else None
  }

  lemma {:induction false} FirstResponseIsFirst(steps: seq<Step>, id: int) returns (at: int)
    ensures FirstResponse(steps, id).Some? <==> at != -1
    ensures at != -1 ==>
              && 0 <= at < |steps|
              && IsResponseTo(steps[at], id) && steps[at].message == FirstResponse(steps, id).value
              && 1 <= id <= Begins(steps[..at])
    ensures forall k | 0 <= k < (if at == -1 then |steps| else at) ::
              IsResponseTo(steps[k], id) ==> !(1 <= id <= Begins(steps[..k]))
  {
    at := -1;
    if steps != [] {
      at := FirstResponseIsFirst(Init(steps), id);
      assert forall k | 0 <= k < |steps| :: Init(steps)[..k] == steps[..k];
      if at == -1 && FirstResponse(steps, id).Some? {
        at := |steps| - 1;
      }
    }
  }

  lemma {:induction false} RespondedWasIssued(steps: seq<Step>, id: int)
    requires FirstResponse(steps, id).Some?
    ensures 1 <= id <= Begins(steps)
  {
    if FirstResponse(Init(steps), id).Some? {
      RespondedWasIssued(Init(steps), id);
    }
  }

  /** A step resolves only the future its response is for, and puts only a new id into the table. */
  lemma StepResolves(s: State, step: Step)
    requires Inv(s) && Enabled(s, step)
    ensures var t := Next(s, step);
            && t.nextId == s.nextId + (if step == Begin then 1 else 0)
            && (forall id <- t.commands :: t.commands[id].future.Resolved? ==>
                  || (id in s.commands && s.commands[id].future == t.commands[id].future)
                  || (IsResponseTo(step, id) && id in s.pending && t.commands[id].future.message == step.message))
            && (forall id <- t.pending ::
                  if id in s.pending then !IsResponseTo(step, id) else step == Begin && id == s.nextId)
  {
  }

  ghost predicate History(steps: seq<Step>, s: State) {
    && s.nextId == 1 + Begins(steps)
    && (forall id <- s.commands :: s.commands[id].future.Resolved? ==>
          FirstResponse(steps, id) == Some(s.commands[id].future.message))
    && (forall id <- s.pending :: FirstResponse(steps, id) == None)
  }

  lemma HistoryKept(steps: seq<Step>, s: State)
    requires steps != [] && Inv(s) && History(Init(steps), s) && Enabled(s, Last(steps))
    ensures History(steps, Next(s, Last(steps)))
  {
    var step, t := Last(steps), Next(s, Last(steps));
    StepResolves(s, step);
    PendingIssued(s);
    hide Next, Inv, Enabled;
    forall id <- t.pending
      ensures FirstResponse(steps, id) == None
    {
      if id !in s.pending && FirstResponse(Init(steps), id).Some? {
        RespondedWasIssued(Init(steps), id);
      }
    }
  }

  lemma PendingIssued(s: State)
    requires Inv(s)
    ensures forall id <- s.pending :: 1 <= id < s.nextId
  {
  }

  /** In every run: the invariant holds, ids are issued one after the other from 1, and a future that holds a
      response holds the first one received for its own id since that id was issued. */
  lemma {:induction false} RunKeeps(steps: seq<Step>)
    requires After(steps).Some?
    ensures Inv(After(steps).value) && History(steps, After(steps).value)
  {
    hide Inv, Next, History;
    if steps == [] {
      InvInitially();
      assert History([], INITIAL) by {
        HistoryInitially();
      }
    } else {
      var s := After(Init(steps)).value;
      RunKeeps(Init(steps));
      StepKeepsInv(s, Last(steps));
      HistoryKept(steps, s);
    }
  }

  lemma HistoryInitially()
    ensures History([], INITIAL)
  {
  }

  /** A command that ends with an answer got the first response to its own id, received after it was issued. */
  lemma AnsweredByFirstResponse(steps: seq<Step>, id: int) returns (at: int)
    requires After(steps).Some? && id in After(steps).value.commands
    requires var phase := After(steps).value.commands[id].phase; phase.Finished? && phase.outcome.Answered?
    ensures 0 <= at < |steps| && IsResponseTo(steps[at], id)
    ensures After(steps).value.commands[id].phase == Finished(Answered(steps[at].message))
    ensures 1 <= id <= Begins(steps[..at])
    ensures forall k | 0 <= k < at :: IsResponseTo(steps[k], id) ==> !(1 <= id <= Begins(steps[..k]))
  {
    RunKeeps(steps);
    at := FirstResponseIsFirst(steps, id);
  }

  /** Every finished command of a run stays in the table of commands as it ended, however the run goes on. */
  lemma {:induction false} FinishedForGood(steps: seq<Step>, more: seq<Step>, id: int)
    requires After(steps).Some? && id in After(steps).value.commands
    requires After(steps).value.commands[id].phase.Finished?
    requires After(steps + more).Some?
    ensures id in After(steps + more).value.commands
    ensures After(steps + more).value.commands[id].phase == After(steps).value.commands[id].phase
    decreases |more|
  {
    hide Inv, Next;
    if more == [] {
      assert steps + more == steps;
    } else {
      assert Init(steps + more) == steps + Init(more);
      FinishedForGood(steps, Init(more), id);
      RunKeeps(steps + Init(more));
      StepKeepsCommands(After(steps + Init(more)).value, Last(steps + more));
    }
  }

  /** Unfinished commands with nothing done to their future. */
  function Open(s: State): set<int> {
    set id <- s.commands | !s.commands[id].phase.Finished? && s.commands[id].future == Unset
  }

  /** Unfinished commands whose future is done, so that their sender is about to finish. */
  function Settled(s: State): set<int> {
    set id <- s.commands | !s.commands[id].phase.Finished? && s.commands[id].future != Unset
  }

  function Answers(s: State): set<int> {
    set id <- s.commands | s.commands[id].phase.Finished? && s.commands[id].phase.outcome.Answered?
  }

  function Timeouts(s: State): set<int> {
    set id <- s.commands | s.commands[id].phase.Finished? && s.commands[id].phase.outcome.TimedOut?
  }

  function SendFailures(s: State): set<int> {
    set id <- s.commands | s.commands[id].phase.Finished? && s.commands[id].phase.outcome.SendFailed?
  }

  function Aborts(s: State): set<int> {
    set id <- s.commands | s.commands[id].phase.Finished? && s.commands[id].phase.outcome.Aborted?
  }

  /** What the senders cancelled from outside leave in the table. */
  function Leftovers(s: State): set<int> {
    set id <- s.pending | InPhase(s, id, Finished(Aborted))
  }

  /** What is pending is open, or was left by a sender that was aborted. */
  lemma PendingIsOpenOrLeft(steps: seq<Step>)
    requires After(steps).Some?
    ensures var s := After(steps).value;
            s.pending == Open(s) + Leftovers(s)
  {
    RunKeeps(steps);
  }

  lemma ClassesPartition(s: State)
    ensures s.commands.Keys == Open(s) + Settled(s) + Answers(s) + Timeouts(s) + SendFailures(s) + Aborts(s)
    ensures Open(s) !! Settled(s) !! Answers(s) !! Timeouts(s) !! SendFailures(s) !! Aborts(s)
  {
    forall id <- s.commands
      ensures id in Open(s) + Settled(s) + Answers(s) + Timeouts(s) + SendFailures(s) + Aborts(s)
    {
      var phase := s.commands[id].phase;
      assert phase.Finished? ==>
          phase.outcome.Answered? || phase.outcome.TimedOut? || phase.outcome.SendFailed? || phase.outcome.Aborted?;
    }
  }

  /** In every run the issued ids are 1, 2, 3, ... and each is in exactly one of the classes: open, settled, answered,
      timed out, failed to send, aborted. The table of pending futures holds the open ones and the leftovers. */
  lemma IssuedIdsPartitioned(steps: seq<Step>)
    requires After(steps).Some?
    ensures var s := After(steps).value;
            && (forall id :: id in s.commands <==> 1 <= id <= Begins(steps))
            && s.commands.Keys == Open(s) + Settled(s) + Answers(s) + Timeouts(s) + SendFailures(s) + Aborts(s)
            && Open(s) !! Settled(s) !! Answers(s) !! Timeouts(s) !! SendFailures(s) !! Aborts(s)
            && s.pending == Open(s) + Leftovers(s)
  {
    hide After, Begins, FirstResponse, Open, Settled, Answers, Timeouts, SendFailures, Aborts, Leftovers;
    RunKeeps(steps);
    ClassesPartition(After(steps).value);
    PendingIsOpenOrLeft(steps);
  }

  // ---- responses over whole runs ----

  lemma OneMoreStep(steps: seq<Step>, step: Step)
    requires After(steps + [step]).Some?
    ensures After(steps).Some? && Enabled(After(steps).value, step)
    ensures After(steps + [step]) == Some(Next(After(steps).value, step))
  {
    assert Init(steps + [step]) == steps;
  }

  /** In every run, a response to a command that was already responded to since it was issued leaves all as it is. */
  lemma RepeatedResponseIgnored(steps: seq<Step>, message: Message)
    requires message.Response? && FirstResponse(steps, message.id).Some?
    requires After(steps + [Received(message)]).Some?
    ensures After(steps + [Received(message)]) == After(steps)
  {
    hide Inv, FirstResponse;
    OneMoreStep(steps, Received(message));
    RunKeeps(steps);
  }

  /** In every run, a response changes something exactly when its command is open or was left by an aborted sender. */
  lemma ResponseChangesExactly(steps: seq<Step>, message: Message)
    requires message.Response? && After(steps + [Received(message)]).Some?
    ensures After(steps + [Received(message)]) != After(steps) <==>
            message.id in Open(After(steps).value) + Leftovers(After(steps).value)
  {
    OneMoreStep(steps, Received(message));
    PendingIsOpenOrLeft(steps);
    hide Open, Leftovers, After;
    assert message.id in After(steps).value.pending <==>
           After(steps).value.pending - {message.id} != After(steps).value.pending;
  }

  /** Once nobody listens, be it because of a disconnect or of `close`, that stays so, no future gets a response any
      more, and what is pending is left from before or was issued since. */
  lemma {:induction false} NothingHeard(steps: seq<Step>, more: seq<Step>)
    requires After(steps).Some? && !After(steps).value.listening && After(steps + more).Some?
    ensures var s, t := After(steps).value, After(steps + more).value;
            && !t.listening && s.nextId <= t.nextId
            && (forall id <- t.commands :: t.commands[id].future.Resolved? ==>
                  id in s.commands && s.commands[id].future == t.commands[id].future)
            && (forall id <- t.pending :: id in s.pending || s.nextId <= id < t.nextId)
    decreases |more|
  {
    hide Inv, Enabled;
    if more == [] {
      assert steps + more == steps;
    } else {
      assert Init(steps + more) == steps + Init(more);
      NothingHeard(steps, Init(more));
      RunKeeps(steps + Init(more));
      StepHearsNothing(After(steps + Init(more)).value, Last(more));
      hide Next;
    }
  }

  lemma StepHearsNothing(s: State, step: Step)
    requires Inv(s) && Enabled(s, step) && !s.listening
    ensures !Next(s, step).listening && s.nextId <= Next(s, step).nextId
    ensures forall id <- Next(s, step).commands :: Next(s, step).commands[id].future.Resolved? ==>
              id in s.commands && s.commands[id].future == Next(s, step).commands[id].future
    ensures forall id <- Next(s, step).pending :: id in s.pending || s.nextId <= id < Next(s, step).nextId
  {
  }

  /** After a disconnect, however the run goes on: nothing issued before is pending again, and a command is answered
      only with a response that had come in before. */
  lemma DisconnectIsFinal(steps: seq<Step>, more: seq<Step>, id: int)
    requires After(steps + [Disconnected]).Some? && After(steps + [Disconnected] + more).Some?
    ensures var t := After(steps + [Disconnected] + more).value;
            && (id in t.pending ==> id > Begins(steps))
            && (id in Answers(t) ==> FirstResponse(steps, id) == Some(t.commands[id].phase.outcome.message))
  {
    OneMoreStep(steps, Disconnected);
    var s := After(steps).value;
    RunKeeps(steps);
    RunKeeps(steps + [Disconnected] + more);
    NothingHeard(steps + [Disconnected], more);
    hide After, FirstResponse, Begins;
    var t := After(steps + [Disconnected] + more).value;
    if id in Answers(t) {
      assert CommandInv(id, t.commands[id], id in t.pending);
    }
  }
}

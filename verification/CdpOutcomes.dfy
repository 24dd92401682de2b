/** What comes of every command in every run of the CDP client, told from the steps of the run alone. */
module CdpOutcomes {
  import opened Options
  import opened CdpProtocol

  /** The WebSocket was lost after command `id` was issued. */
  function Dropped(steps: seq<Step>, id: int): bool {
    steps != [] && (Dropped(Init(steps), id) || (Last(steps) == Disconnected && 1 <= id <= Begins(Init(steps))))
  }

  /** What the future of an unfinished command holds: the first response to it, or the cancellation by a disconnect that
      came before any. */
  function FutureBy(steps: seq<Step>, id: int): Future {
    if FirstResponse(steps, id).Some? then Resolved(FirstResponse(steps, id).value)
    else if Dropped(steps, id) then Cancelled
    else Unset
  }

  /** How far a command is, and how it ended. */
  function PhaseBy(steps: seq<Step>, id: int): Phase {
    if WriteFailed(id) in steps then Finished(SendFailed)
    else if Expired(id) in steps then Finished(TimedOut)
    else if SenderAborted(id) in steps then Finished(Aborted)
    else if Woken(id) in steps then
      Finished(if FirstResponse(steps, id).Some? then Answered(FirstResponse(steps, id).value) else Aborted)
    else if Written(id) in steps then Waiting
    else Sending
  }

  predicate Silenced(steps: seq<Step>) {
    Disconnected in steps || ListenerCancelled in steps || Close in steps
  }

  ghost predicate CommandTold(steps: seq<Step>, s: State, id: int) {
    && id in s.commands
    && s.commands[id].phase == PhaseBy(steps, id)
    && (!s.commands[id].phase.Finished? ==> s.commands[id].future == FutureBy(steps, id))
    && (Dropped(steps, id) || Woken(id) in steps ==> FirstResponse(steps, id).Some? || !s.listening)
  }

  ghost predicate Told(steps: seq<Step>, s: State) {
    && (forall id | 1 <= id <= Begins(steps) :: CommandTold(steps, s, id))
    && (forall id | id > Begins(steps) ::
          && WriteFailed(id) !in steps && Expired(id) !in steps && SenderAborted(id) !in steps
          && Woken(id) !in steps && Written(id) !in steps
          && FirstResponse(steps, id) == None && !Dropped(steps, id))
    && (s.listening <==> !Silenced(steps))
    && (s.closed <==> Close in steps)
  }

  lemma InSteps(steps: seq<Step>)
    requires steps != []
    ensures forall step :: step in steps <==> step in Init(steps) || step == Last(steps)
  {
    assert steps == Init(steps) + [Last(steps)];
  }

  /** The step that brings a command's end, if it does. */
  predicate Ends(step: Step, id: int) {
    step in {WriteFailed(id), Expired(id), Woken(id), SenderAborted(id)}
  }

  lemma CommandKept(steps: seq<Step>, s: State, id: int)
    requires steps != [] && Inv(s) && Enabled(s, Last(steps)) && 1 <= id <= Begins(Init(steps))
    requires CommandTold(Init(steps), s, id)
    ensures CommandTold(steps, Next(s, Last(steps)), id)
  {
    InSteps(steps);
    StepTellsCommand(Init(steps), s, Last(steps), id);
    hide Next, Inv, Enabled;
  }

  /** What one more step does to a command, and to what is told of it. */
  lemma StepTellsCommand(before: seq<Step>, s: State, step: Step, id: int)
    requires Inv(s) && Enabled(s, step) && CommandTold(before, s, id)
    ensures var t := Next(s, step);
            var c, d := s.commands[id], t.commands[id];
            var first, dropped := FirstResponse(before, id), Dropped(before, id);
            var now := if first == None && IsResponseTo(step, id) then Some(step.message) else first;
            && id in t.commands
            && (t.listening ==> s.listening) && (step == Disconnected ==> !t.listening)
            && (IsResponseTo(step, id) ==> s.listening)
            && (Ends(step, id) || step == Written(id) ==> !c.phase.Finished?)
            && d.phase == (if step == WriteFailed(id) then Finished(SendFailed)
                           else if step == Expired(id) then Finished(TimedOut)
                           else if step == SenderAborted(id) then Finished(Aborted)
                           else if step == Woken(id) then
                             Finished(if first.Some? then Answered(first.value) else Aborted)
                           else if step == Written(id) then Waiting
                           else c.phase)
            && (!d.phase.Finished? ==>
                  d.future == if now.Some? then Resolved(now.value)
                              else if dropped || step == Disconnected then Cancelled else Unset)
            && (step == Woken(id) ==> first.Some? || dropped)
  {
    hide FirstResponse, Dropped, PhaseBy;
  }

  lemma NewCommandTold(steps: seq<Step>, s: State)
    requires steps != [] && Last(steps) == Begin && Inv(s) && Enabled(s, Begin) && Told(Init(steps), s)
    requires s.nextId == 1 + Begins(Init(steps))
    ensures CommandTold(steps, Next(s, Begin), s.nextId)
  {
    InSteps(steps);
  }

  lemma UnissuedTold(steps: seq<Step>, s: State, id: int)
    requires steps != [] && Inv(s) && Enabled(s, Last(steps)) && Told(Init(steps), s)
    requires s.nextId == 1 + Begins(Init(steps)) && id > Begins(steps)
    ensures WriteFailed(id) !in steps && Expired(id) !in steps && SenderAborted(id) !in steps
    ensures Woken(id) !in steps && Written(id) !in steps
    ensures FirstResponse(steps, id) == None && !Dropped(steps, id)
  {
    InSteps(steps);
  }

  lemma FlagsTold(steps: seq<Step>, s: State)
    requires steps != [] && Inv(s) && Enabled(s, Last(steps)) && Told(Init(steps), s)
    ensures Next(s, Last(steps)).listening <==> !Silenced(steps)
    ensures Next(s, Last(steps)).closed <==> Close in steps
  {
    InSteps(steps);
  }

  lemma {:induction false} RunTold(steps: seq<Step>)
    requires After(steps).Some?
    ensures Told(steps, After(steps).value)
  {
    if steps != [] {
      var s, step := After(Init(steps)).value, Last(steps);
      RunTold(Init(steps));
      RunKeeps(Init(steps));
      hide Inv, Next, Enabled, CommandTold, FirstResponse, Dropped;
      FlagsTold(steps, s);
      forall id | 1 <= id <= Begins(steps)
        ensures CommandTold(steps, Next(s, step), id)
      {
        if id <= Begins(Init(steps)) {
          CommandKept(steps, s, id);
        } else {
          NewCommandTold(steps, s);
        }
      }
      forall id | id > Begins(steps)
        ensures WriteFailed(id) !in steps && Expired(id) !in steps && SenderAborted(id) !in steps
        ensures Woken(id) !in steps && Written(id) !in steps
        ensures FirstResponse(steps, id) == None && !Dropped(steps, id)
      {
        UnissuedTold(steps, s, id);
      }
    }
  }

  /** In every run, each issued command is where the steps of the run put it: failed to send, timed out or aborted
      exactly if that step occurred; answered with the first response to it exactly if its sender was woken after that
      response; otherwise waiting or still being sent. As long as it is unfinished its future holds that first
      response, if there was one, and else a cancellation exactly if the WebSocket was lost since. */
  lemma OutcomeExactly(steps: seq<Step>, id: int)
    requires After(steps).Some? && 1 <= id <= Begins(steps)
    ensures var s := After(steps).value;
            && id in s.commands && s.commands[id].phase == PhaseBy(steps, id)
            && (!s.commands[id].phase.Finished? ==> s.commands[id].future == FutureBy(steps, id))
  {
    RunTold(steps);
    assert CommandTold(steps, After(steps).value, id);
  }

  /** A response answers its command: a sender that waits when the first response to it has come can be woken, and then
      ends with that response. */
  lemma ResponseAnswers(steps: seq<Step>, id: int)
    requires After(steps).Some? && InPhase(After(steps).value, id, Waiting) && FirstResponse(steps, id).Some?
    ensures After(steps + [Woken(id)]).Some?
    ensures id in After(steps + [Woken(id)]).value.commands
    ensures After(steps + [Woken(id)]).value.commands[id].phase == Finished(Answered(FirstResponse(steps, id).value))
  {
    RespondedWasIssued(steps, id);
    OutcomeExactly(steps, id);
    assert Init(steps + [Woken(id)]) == steps;
    hide Begins, FirstResponse, PhaseBy;
  }

  /** The client listens until the WebSocket is lost, the loop is cancelled or the client closed, and takes commands
      until it is closed. */
  lemma FlagsExactly(steps: seq<Step>)
    requires After(steps).Some?
    ensures After(steps).value.listening <==>
            Disconnected !in steps && ListenerCancelled !in steps && Close !in steps
    ensures Enabled(After(steps).value, Begin) <==> Close !in steps
  {
    RunTold(steps);
    hide After;
  }
}

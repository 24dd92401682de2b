/** `CdpClient`: its methods' stretches between two `await`s, each of which is one step of the protocol. */
module CdpClient {
  import opened Options
  import P = CdpProtocol

  /** An asyncio future, shared between the pending table and the sender that waits for it. */
  class Future {
    var value: P.Future
    ghost const command: int  // the id it was created for

    constructor (command: int)
      ensures value == P.Unset && this.command == command
    {
      value := P.Unset;
      this.command := command;
    }

    predicate Done()
      reads this
    {
      value != P.Unset
    }

    method SetResult(message: P.Message)
      requires !Done()
      modifies this
      ensures value == P.Resolved(message)
    {
      value := P.Resolved(message);
    }

    method Cancel()
      modifies this
      ensures value == P.Cancel(old(value))
    {
      if !Done() {
        value := P.Cancelled;
      }
    }
  }

  class CdpClient {
    var nextId: int
    var pending: map<int, Future>
    var closed: bool
    var listening: bool
    // what the senders hold: the future each one created, and where it stands
    ghost var futures: map<int, Future>
    ghost var commands: map<int, P.Command>

    /** The table maps an id to the very future that the sender of that id created and waits for. */
    ghost predicate Valid()
      reads this, futures.Values
    {
      && futures.Keys == commands.Keys
      && nextId >= 1 && (forall id <- futures :: 1 <= id < nextId)
      && (forall id <- pending :: id in futures && pending[id] == futures[id])
      && (forall id <- futures :: futures[id].command == id && futures[id].value == commands[id].future)
    }

    ghost function State(): P.State
      reads this
    {
      P.State(nextId, pending.Keys, commands, listening, closed)
    }

    /** A client whose receive loop has just been started. */
    constructor ()
      ensures Valid() && State() == P.INITIAL
    {
      nextId, pending, closed, listening := 1, map[], false, true;
      futures, commands := map[], map[];
    }

    /** `send` up to its first await; None where it raises because the client is closed. */
    method BeginSend() returns (sent: Option<(int, Future)>)
      requires Valid()
      modifies this
      ensures Valid()
      ensures sent == None <==> old(closed)
      ensures sent == None ==> futures == old(futures) && State() == old(State())
      ensures sent.Some? ==>
                && sent.value.0 == old(nextId) && fresh(sent.value.1)
                && futures == old(futures)[old(nextId) := sent.value.1]
                && State() == P.Next(old(State()), P.Begin)
    {
      if closed {
        return None;
      }
      var msgId := nextId;
      nextId := nextId + 1;
      var future := new Future(msgId);
      pending := pending[msgId := future];
      futures := futures[msgId := future];
      commands := commands[msgId := P.Command(P.Sending, P.Unset)];
      assert State().pending == old(State()).pending + {msgId};
      return Some((msgId, future));
    }

    /** The WebSocket took the message. */
    ghost method Written(id: int)
      requires Valid() && P.Enabled(State(), P.Written(id))
      modifies this
      ensures Valid() && futures == old(futures) && State() == P.Next(old(State()), P.Written(id))
    {
      commands := commands[id := commands[id].(phase := P.Waiting)];
    }

    /** The exception handler around the WebSocket's send. */
    method WriteFailed(id: int)
      requires Valid() && P.Enabled(State(), P.WriteFailed(id))
      modifies this
      ensures Valid() && futures == old(futures) && State() == P.Next(old(State()), P.WriteFailed(id))
    {
      pending := pending - {id};
      commands := commands[id := commands[id].(phase := P.Finished(P.SendFailed))];
    }

    /** `wait_for` cancels the future, and the handler of its TimeoutError drops the entry. */
    method Expired(id: int, future: Future)
      requires Valid() && P.Enabled(State(), P.Expired(id)) && future == futures[id]
      modifies this, future
      ensures Valid() && futures == old(futures) && State() == P.Next(old(State()), P.Expired(id))
    {
      future.Cancel();
      pending := pending - {id};
      commands := commands[id := P.Command(P.Finished(P.TimedOut), future.value)];
    }

    /** The await of the future returns its message, or raises because it was cancelled. */
    method Woken(id: int, future: Future) returns (result: Option<P.Message>)
      requires Valid() && P.Enabled(State(), P.Woken(id)) && future == futures[id]
      modifies this
      ensures Valid() && futures == old(futures) && State() == P.Next(old(State()), P.Woken(id))
      ensures commands[id].phase == P.Finished(if result.Some? then P.Answered(result.value) else P.Aborted)
    {
      result := if future.value.Resolved? then Some(future.value.message) else None;
      var phase := P.Finished(if result.Some? then P.Answered(result.value) else P.Aborted);
      commands := commands[id := commands[id].(phase := phase)];
    }

    /** The receive loop's handling of one message. */
    method Receive(message: P.Message)
      requires Valid() && listening
      modifies this, futures.Values
      ensures Valid() && futures == old(futures) && State() == P.Next(old(State()), P.Received(message))
    {
      if message.Response? {
        var msgId := message.id;
        if msgId in pending {
          var future := pending[msgId];
          pending := pending - {msgId};
          if !future.Done() {
            future.SetResult(message);
            commands := commands[msgId := commands[msgId].(future := future.value)];
          }
        }
      }
    }

    /** Cancels the pending futures; they are visited in the order they were entered, which is that of their ids. */
    method CancelPending()
      requires Valid()
      modifies futures.Values
      ensures forall id <- futures ::
          futures[id].value == if id in pending then P.Cancel(old(futures[id].value)) else old(futures[id].value)
    {
      for next := 1 to nextId
        invariant forall id <- futures ::
            futures[id].value ==
            if id in pending && id < next then P.Cancel(old(futures[id].value)) else old(futures[id].value)
      {
        if next in pending {
          var future := pending[next];
          if !future.Done() {
            future.Cancel();
          }
        }
      }
    }

    /** The end of the receive loop after the WebSocket closed. */
    method Disconnected()
      requires Valid() && listening
      modifies this, futures.Values
      ensures Valid() && futures == old(futures) && State() == P.Next(old(State()), P.Disconnected)
    {
      CancelPending();
      pending := map[];
      listening := false;
      commands := P.Next(old(State()), P.Disconnected).commands;
    }

    /** `close`: it cancels the receive loop, whose clean-up is then skipped. */
    method Close()
      requires Valid()
      modifies this
      ensures Valid() && futures == old(futures) && State() == P.Next(old(State()), P.Close)
    {
      closed := true;
      listening := false;
    }
  }
}

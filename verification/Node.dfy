/** Class `node`: its calls and completion handlers update the connection state and the send queue in
    place, and each takes exactly the transition `NodeModel` defines for it. */
module Node {
  import opened Backoff
  import NM = NodeModel
  import opened NodeModel

  class Node {
    var state: ConnectState
    var sendQueue: seq<QueuedMessage>
    var backoffTime: nat

    // outstanding operations and history
    ghost var ops: seq<Op>
    ghost var accepted: seq<QueuedMessage>
    ghost var written: seq<Completion>
    ghost var popped: seq<QueuedMessage>
    ghost var called: seq<Completion>

    ghost function State(): NodeState
      reads this
    {
      NodeState(state, sendQueue, backoffTime, ops, accepted, written, popped, called)
    }

    ghost predicate Valid()
      reads this
    {
      OpsOk(State())
    }

    constructor ()
      ensures Valid() && State() == InitialNode()
    {
      state, sendQueue, backoffTime := Disconnected, [], 0;
      ops, accepted, written, popped, called := [], [], [], [], [];
    }

    method BackOffBy(value: bool)
      requires Valid()
      modifies this
      ensures Valid() && State() == Step(old(State()), BackOffCall(value))
    {
      if value {
        var raised := if backoffTime != 0 then 2 * backoffTime else 1;
        backoffTime := if raised < MAX_BACKOFF_TIME then raised else MAX_BACKOFF_TIME;
      } else {
        backoffTime := if backoffTime > 1 then backoffTime / 2 else 0;
      }
      assert State() == Step(old(State()), BackOffCall(value));
    }

    method SendMessage(m: QueuedMessage)
      requires Valid()
      modifies this
      ensures Valid() && State() == Step(old(State()), Send(m))
    {
      QueueSend(m);
      if state == Connected {
        if |sendQueue| == 1 {
          ScheduleSend();
        }
      } else {
        if state != Connecting {
          Connect();
        }
      }
      assert State() == Step(old(State()), Send(m));
    }

    method Connect()
      requires state != Connecting && state != Connected
      modifies this
      ensures State() == NM.Connect(old(State()))
    {
      assert state != Connecting;
      assert state != Connected;
      state := Connecting;
      ops := ops + [TcpConnect];
    }

    method OnTcpConnected(ec: ErrorCode)
      requires Valid() && ops == [TcpConnect]
      modifies this
      ensures Valid() && State() == Step(old(State()), Complete(ec))
    {
      ops := [];
      if ec != NoError {
        state := Disconnected;
      } else {
        ops := ops + [Handshake];
      }
      assert State() == Step(old(State()), Complete(ec));
    }

    method OnHandshake(ec: ErrorCode)
      requires Valid() && ops == [Handshake]
      modifies this
      ensures Valid() && State() == Step(old(State()), Complete(ec))
    {
      ops := [];
      if ec != NoError {
        state := Disconnected;
      } else {
        state := Connected;
        if sendQueue != [] {
          ScheduleSend();
        }
      }
      assert State() == Step(old(State()), Complete(ec));
    }

    method QueueSend(m: QueuedMessage)
      modifies this
      ensures State() == NM.QueueSend(old(State()), m)
    {
      sendQueue := sendQueue + [m];
      accepted := accepted + [m];
    }

    method DoSend()
      requires sendQueue != []
      modifies this
      ensures State() == NM.DoSend(old(State()))
    {
      var message := sendQueue[0];
      ops := ops + [Write(message)];
    }

    method OnWritten(message: QueuedMessage, ec: ErrorCode)
      requires Valid() && ops == [Write(message)]
      modifies this
      ensures Valid() && State() == Step(old(State()), Complete(ec))
    {
      ops := [];
      written := written + [Completion(message, ec)];
      if ec == WebsocketClosed || ec == Eof || ec == OperationAborted {
        state := Disconnected;
        Connect();
      } else {
        popped := popped + [sendQueue[0]];
        sendQueue := sendQueue[1..];
        called := called + [Completion(message, ec)];
        if sendQueue != [] {
          ScheduleSend();
        }
      }
      assert State() == Step(old(State()), Complete(ec));
    }

    method ScheduleSend()
      requires sendQueue != []
      modifies this
      ensures State() == NM.ScheduleSend(old(State()))
    {
      if backoffTime != 0 {
        ops := ops + [BackoffWait(backoffTime)];
      } else {
        assert sendQueue != [];
        DoSend();
      }
    }

    method OnBackoffTimer(failed: bool)
      requires Valid() && |ops| == 1 && ops[0].BackoffWait?
      modifies this
      ensures !failed ==> Valid() && State() == Step(old(State()), Complete(NoError))
      ensures failed ==> State() == old(State()).(ops := [])
    {
      ops := [];
      if !failed {
        assert sendQueue != [];
        DoSend();
        assert State() == Step(old(State()), Complete(NoError));
      }
    }
  }
}

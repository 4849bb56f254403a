/** What holds of a node's sending side over every run without a read-side close. */
module NodeTheorems {
  import opened Wrappers
  import opened Backoff
  import opened NodeModel

  // What a run's events say by themselves

  function SentMessages(events: seq<Event>): seq<QueuedMessage> {
    if events == [] then []
    else
      var last := |events| - 1;
      SentMessages(events[..last]) + if events[last].Send? then [events[last].m] else []
  }

  function BackOffCalls(events: seq<Event>): seq<bool> {
    if events == [] then []
    else
      var last := |events| - 1;
      BackOffCalls(events[..last]) + if events[last].BackOffCall? then [events[last].value] else []
  }

  lemma StepHistory(s: NodeState, e: Event)
    requires OpsOk(s) && Enabled(s, e)
    ensures Step(s, e).accepted == s.accepted + if e.Send? then [e.m] else []
    ensures Step(s, e).backoffTime == if e.BackOffCall? then BackOff(s.backoffTime, e.value) else s.backoffTime
  {
  }

  lemma {:induction false} HistoriesMatchEvents(events: seq<Event>, s: NodeState)
    requires Run(events) == Some(s)
    ensures s.accepted == SentMessages(events)
    ensures s.backoffTime == BackoffAfter(BackOffCalls(events))
  {
    if events != [] {
      var last := |events| - 1;
      var before := Run(events[..last]).value;
      HistoriesMatchEvents(events[..last], before);
      StepHistory(before, events[last]);
      if events[last].BackOffCall? {
        BackoffAppend(BackOffCalls(events[..last]), events[last].value);
      } else {
        assert BackOffCalls(events) == BackOffCalls(events[..last]);
      }
    }
  }

  lemma {:induction false} WriteIsNext(written: seq<Completion>, accepted: seq<QueuedMessage>, k: nat)
    requires WritesInOrder(written, accepted) && k < |written|
    ensures |Settled(written[..k])| < |accepted| && written[k].message == accepted[|Settled(written[..k])|]
  {
    var last := |written| - 1;
    if k < last {
      WriteIsNext(written[..last], accepted, k);
      assert written[..last][..k] == written[..k];
    }
  }

  /** Conservation and order. The messages popped and those queued are the messages sent, in order; each
      popped message had its callback called once, with the result of the write that settled it; the k-th
      write was of the first message not settled by then; and the pause never exceeds 1024 ms. */
  lemma NothingLostOrReordered(events: seq<Event>, s: NodeState)
    requires Run(events) == Some(s)
    ensures s.popped + s.queue == SentMessages(events)
    ensures Messages(s.called) == s.popped
    ensures s.called == Settled(s.written)
    ensures forall k | 0 <= k < |s.written| ::
              var settled := |Settled(s.written[..k])|;
              settled < |SentMessages(events)| && s.written[k].message == SentMessages(events)[settled]
    ensures s.backoffTime <= 1024
  {
    HistoriesMatchEvents(events, s);
    RunHistory(events);
    BackoffIsSaturatingCounter(BackOffCalls(events));
    forall k | 0 <= k < |s.written|
      ensures |Settled(s.written[..k])| < |SentMessages(events)|
           && s.written[k].message == SentMessages(events)[|Settled(s.written[..k])|]
    {
      WriteIsNext(s.written, s.accepted, k);
    }
  }

  /** At most one operation is outstanding. While connected, there is one exactly when messages are queued,
      and it is a pause or a write of the first of them; while disconnected there is none. */
  lemma OneOutstanding(events: seq<Event>, s: NodeState)
    requires Run(events) == Some(s)
    ensures |s.ops| <= 1 && s.state != Disconnecting
    ensures s.state == Connected ==> (s.ops != [] <==> s.queue != [])
    ensures s.state == Connected && s.ops != [] ==> s.ops[0].BackoffWait? || s.ops[0] == Write(s.queue[0])
    ensures s.state == Connecting <==> s.ops == [TcpConnect] || s.ops == [Handshake]
    ensures s.state == Disconnected ==> s.ops == []
  {
    assert OpsOk(s);
  }

  /** A write that ends in a closed websocket, an end of file or an aborted operation loses nothing: the node
      reconnects with the same queue, and no callback is called. */
  lemma ClosedWriteLosesNothing(s: NodeState, ec: ErrorCode)
    requires OpsOk(s) && Enabled(s, Complete(ec)) && s.ops[0].Write?
    requires ec == WebsocketClosed || ec == Eof || ec == OperationAborted
    ensures var s' := Step(s, Complete(ec));
            && s'.queue == s.queue && s'.popped == s.popped && s'.called == s.called
            && s'.state == Connecting && s'.ops == [TcpConnect]
            && s'.written == s.written + [Completion(s.queue[0], ec)]
  {
  }

  /** A write that ends in anything else, be it success or another error, takes its message off the queue and
      calls its callback; the node stays connected. */
  lemma OtherWritesSettle(s: NodeState, ec: ErrorCode)
    requires OpsOk(s) && Enabled(s, Complete(ec)) && s.ops[0].Write?
    requires ec != WebsocketClosed && ec != Eof && ec != OperationAborted
    ensures var s' := Step(s, Complete(ec));
            && s.queue == [s.ops[0].message] + s'.queue && s'.popped == s.popped + [s.ops[0].message]
            && s'.called == s.called + [Completion(s.ops[0].message, ec)]
            && s'.written == s.written + [Completion(s.ops[0].message, ec)] && s'.state == Connected
  {
    assert s.queue == [s.queue[0]] + s.queue[1..];
  }

  lemma {:induction false} SettledCodes(written: seq<Completion>)
    ensures forall c :: c in Settled(written) <==>
              c in written && c.ec != WebsocketClosed && c.ec != Eof && c.ec != OperationAborted
  {
    if written != [] {
      var last := |written| - 1;
      SettledCodes(written[..last]);
      assert written == written[..last] + [written[last]];
    }
  }

  /** Over every run the callbacks called are those of exactly the writes that did not lose the connection. */
  lemma CalledUnlessClosed(events: seq<Event>, s: NodeState)
    requires Run(events) == Some(s)
    ensures forall c :: c in s.called <==>
              c in s.written && c.ec != WebsocketClosed && c.ec != Eof && c.ec != OperationAborted
  {
    RunHistory(events);
    SettledCodes(s.written);
  }

  /** What is outstanding next. A connection is made in two operations, and lost when either fails, with the
      queue kept. While connected with messages queued, each write comes after a pause of `backoffTime`, or at
      once where that is 0; nothing starts while an operation is outstanding. */
  lemma NextOperation(s: NodeState, e: Event)
    requires OpsOk(s) && Enabled(s, e)
    ensures var s' := Step(s, e);
            && (!e.Complete? && s.ops != [] ==> s'.ops == s.ops && s'.state == s.state)
            && (e.BackOffCall? ==> s'.ops == s.ops && s'.state == s.state && s'.queue == s.queue)
            && (e.Send? ==> s'.queue == s.queue + [e.m])
            && (e.Send? && s.state == Disconnected ==> s'.state == Connecting && s'.ops == [TcpConnect])
            && (e.Complete? && s.state == Connecting ==> s'.queue == s.queue)
            && (e.Complete? && s.state == Connecting && e.ec != NoError ==> s'.state == Disconnected && s'.ops == [])
            && (e == Complete(NoError) && s.ops[0].TcpConnect? ==> s'.state == Connecting && s'.ops == [Handshake])
            && (e == Complete(NoError) && s.ops[0].Handshake? ==> s'.state == Connected)
            && (s'.state == Connected && s'.queue != [] && !e.BackOffCall? && (e.Complete? || s.ops == []) ==>
                  s'.ops == if (e.Complete? && s.ops[0].BackoffWait?) || s.backoffTime == 0 then [Write(s'.queue[0])]
                            else [BackoffWait(s.backoffTime)])
  {
  }

  // Progress: when every operation succeeds, the queue drains.

  function Remaining(s: NodeState): nat
    requires OpsOk(s)
  {
    if s.ops == [] then 0
    else match s.ops[0]
      case TcpConnect => 2 * |s.queue| + 2
      case Handshake => 2 * |s.queue| + 1
      case BackoffWait(_) => 2 * |s.queue|
      case Write(_) => 2 * |s.queue| - 1
  }

  /** Each success brings the node closer to an empty queue. */
  lemma SuccessProgresses(s: NodeState)
    requires OpsOk(s) && s.ops != []
    ensures Enabled(s, Complete(NoError))
    ensures Remaining(Step(s, Complete(NoError))) < Remaining(s)
    ensures Step(s, Complete(NoError)).state in {Connecting, Connected}
  {
  }

  function Drain(s: NodeState): (r: NodeState)
    requires OpsOk(s)
    decreases Remaining(s)
  {
    if s.ops == [] then s
    else
      SuccessProgresses(s);
      Drain(Step(s, Complete(NoError)))
  }

  function Succeeded(queue: seq<QueuedMessage>): seq<Completion> {
    seq(|queue|, i requires 0 <= i < |queue| => Completion(queue[i], NoError))
  }

  /** What one success does to the histories. */
  lemma SuccessHistory(s: NodeState)
    requires OpsOk(s) && s.ops != []
    ensures var s' := Completed(s, NoError);
            if s.ops[0].Write? then
              && s'.queue == s.queue[1..]
              && s'.called == s.called + [Completion(s.queue[0], NoError)] && s'.popped == s.popped + [s.queue[0]]
            else s'.queue == s.queue && s'.called == s.called && s'.popped == s.popped
  {
  }

  lemma SucceededSplit(queue: seq<QueuedMessage>)
    requires queue != []
    ensures Succeeded(queue) == [Completion(queue[0], NoError)] + Succeeded(queue[1..])
  {
  }

  /** What a node has delivered by the time all that was queued has been written. */
  predicate Delivers(s: NodeState, r: NodeState) {
    && r.state == Connected && r.queue == [] && r.ops == []
    && r.called == s.called + Succeeded(s.queue)
    && r.popped == s.popped + s.queue
  }

  lemma DeliversAfterSuccess(s: NodeState, r: NodeState)
    requires OpsOk(s) && s.ops != [] && Delivers(Completed(s, NoError), r)
    ensures Delivers(s, r)
  {
    SuccessHistory(s);
    if s.ops[0].Write? {
      SucceededSplit(s.queue);
      assert s.popped + [s.queue[0]] + s.queue[1..] == s.popped + s.queue;
    }
  }

  /** With every operation succeeding, within `Remaining(s)` completions the node is connected, its queue is
      empty, and every queued message's callback has been called in order with success. */
  lemma {:induction false} DrainDelivers(s: NodeState)
    requires OpsOk(s) && s.state in {Connecting, Connected}
    ensures Delivers(s, Drain(s))
    decreases Remaining(s)
  {
    if s.ops != [] {
      SuccessProgresses(s);
      var s' := Step(s, Complete(NoError));
      DrainDelivers(s');
      DeliversAfterSuccess(s, Drain(s'));
    }
  }

  lemma SendConnects(s: NodeState, m: QueuedMessage)
    requires OpsOk(s)
    ensures Step(s, Send(m)).state in {Connecting, Connected}
  {
  }

  lemma SucceededAppend(a: seq<Completion>, queue: seq<QueuedMessage>)
    ensures Messages(a + Succeeded(queue)) == Messages(a) + queue
  {
  }

  /** A node that lost its connection delivers everything once one more message is sent. */
  lemma SendRevives(events: seq<Event>, s: NodeState, m: QueuedMessage)
    requires Run(events) == Some(s)
    ensures var r := Drain(Step(s, Send(m)));
            r.queue == [] && r.popped == SentMessages(events) + [m] && Messages(r.called) == r.popped
  {
    HistoriesMatchEvents(events, s);
    var s' := Step(s, Send(m));
    StepHistory(s, Send(m));
    SendConnects(s, m);
    DrainDelivers(s');
    SucceededAppend(s'.called, s'.queue);
    RunHistory(events);
    HistoryKeeps(s, Send(m));
  }
}

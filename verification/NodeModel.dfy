/** The values and transitions of the sending side of `node/node`, with the asynchronous operations it
    has outstanding. Class `Node.Node` is proved to take exactly these transitions. */
module NodeModel {
  import opened Wrappers
  import opened Backoff

  datatype ConnectState = Disconnected | Connecting | Connected | Disconnecting

  datatype ErrorCode = NoError | WebsocketClosed | Eof | OperationAborted | OtherError(code: int)

  /** A message and the callback that goes with it. */
  datatype QueuedMessage = QueuedMessage(msg: string, callback: int)

  datatype Op = TcpConnect | Handshake | BackoffWait(ms: nat) | Write(message: QueuedMessage)

  datatype Completion = Completion(message: QueuedMessage, ec: ErrorCode)

  /** Four fields of the node, its outstanding operations, then its history: messages accepted for
      sending, writes completed, messages popped, callbacks called. */
  datatype NodeState = NodeState(
    state: ConnectState, queue: seq<QueuedMessage>, backoffTime: nat, ops: seq<Op>,
    accepted: seq<QueuedMessage>, written: seq<Completion>, popped: seq<QueuedMessage>, called: seq<Completion>)

  predicate LosesConnection(ec: ErrorCode) {
    ec == WebsocketClosed || ec == Eof || ec == OperationAborted
  }

  /** The writes that ended in anything but a closed websocket, an end of file, or an aborted operation. */
  function Settled(written: seq<Completion>): seq<Completion> {
    if written == [] then []
    else
      var last := |written| - 1;
      Settled(written[..last]) + if written[last].ec in {WebsocketClosed, Eof, OperationAborted} then [] else [written[last]]
  }

  function Messages(cs: seq<Completion>): seq<QueuedMessage> {
    seq(|cs|, i requires 0 <= i < |cs| => cs[i].message)
  }

  predicate IsSending(s: NodeState) {
    |s.ops| == 1 && s.queue != [] &&
    match s.ops[0]
    case BackoffWait(ms) => ms > 0
    case Write(m) => m == s.queue[0]
    case _ => false
  }

  /** At most one operation is outstanding: the one the connection state calls for. */
  predicate OpsOk(s: NodeState) {
    match s.state
    case Disconnected => s.ops == []
    case Connecting => s.ops == [TcpConnect] || s.ops == [Handshake]
    case Connected => if s.queue == [] then s.ops == [] else IsSending(s)
    case Disconnecting => false
  }

  /** Every write was of the message that is next after those settled before it. */
  predicate WritesInOrder(written: seq<Completion>, accepted: seq<QueuedMessage>) {
    written != [] ==>
      var last := |written| - 1;
      && WritesInOrder(written[..last], accepted)
      && |Settled(written[..last])| < |accepted|
      && written[last].message == accepted[|Settled(written[..last])|]
  }

  /** No message is lost, repeated to its callback, or overtaken. */
  predicate HistoryOk(s: NodeState) {
    && s.accepted == s.popped + s.queue
    && s.called == Settled(s.written)
    && s.popped == Messages(s.called)
    && WritesInOrder(s.written, s.accepted)
  }

  function Connect(s: NodeState): NodeState {
    s.(state := Connecting, ops := s.ops + [TcpConnect])
  }

  function QueueSend(s: NodeState, m: QueuedMessage): NodeState {
    s.(queue := s.queue + [m], accepted := s.accepted + [m])
  }

  function DoSend(s: NodeState): NodeState
    requires s.queue != []
  {
    s.(ops := s.ops + [Write(s.queue[0])])
  }

  function ScheduleSend(s: NodeState): NodeState
    requires s.queue != []
  {
    if s.backoffTime != 0 then s.(ops := s.ops + [BackoffWait(s.backoffTime)]) else DoSend(s)
  }

  function SendMessage(s: NodeState, m: QueuedMessage): NodeState {
    var queued := QueueSend(s, m);
    if s.state == Connected then if |queued.queue| == 1 then ScheduleSend(queued) else queued
    else if s.state != Connecting then Connect(queued)
    else queued
  }

  function TcpDone(s: NodeState, ec: ErrorCode): NodeState {
    if ec != NoError then s.(state := Disconnected) else s.(ops := s.ops + [Handshake])
  }

  function HandshakeDone(s: NodeState, ec: ErrorCode): NodeState {
    if ec != NoError then s.(state := Disconnected)
    else if s.queue != [] then ScheduleSend(s.(state := Connected))
    else s.(state := Connected)
  }

  function WriteDone(s: NodeState, m: QueuedMessage, ec: ErrorCode): NodeState
    requires s.queue != []
  {
    var done := s.(written := s.written + [Completion(m, ec)]);
    if LosesConnection(ec) then Connect(done.(state := Disconnected))
    else
      var popped := done.(queue := s.queue[1..], popped := s.popped + [s.queue[0]],
                          called := s.called + [Completion(m, ec)]);
      if popped.queue != [] then ScheduleSend(popped) else popped
  }

  // Runs: calls from outside and completions of what is outstanding

  datatype Event =
    | Send(m: QueuedMessage)
    | BackOffCall(value: bool)
    | Complete(ec: ErrorCode)      // the outstanding operation completes; a wait only expires

  predicate Enabled(s: NodeState, e: Event) {
    e.Complete? ==> |s.ops| == 1 && (s.ops[0].BackoffWait? ==> e.ec == NoError)
  }

  function Completed(s: NodeState, ec: ErrorCode): NodeState
    requires OpsOk(s) && Enabled(s, Complete(ec))
  {
    var rest := s.(ops := []);
    match s.ops[0]
    case TcpConnect => TcpDone(rest, ec)
    case Handshake => HandshakeDone(rest, ec)
    case BackoffWait(_) => DoSend(rest)
    case Write(m) => WriteDone(rest, m, ec)
  }

  function Step(s: NodeState, e: Event): (s': NodeState)
    requires OpsOk(s) && Enabled(s, e)
    ensures OpsOk(s')
  {
    match e
    case Send(m) => SendMessage(s, m)
    case BackOffCall(value) => s.(backoffTime := BackOff(s.backoffTime, value))
    case Complete(ec) => Completed(s, ec)
  }

  function InitialNode(): NodeState {
    NodeState(Disconnected, [], 0, [], [], [], [], [])
  }

  /** The state after a run, if every event in it was possible when it came. */
  function Run(events: seq<Event>): (r: Option<NodeState>)
    ensures r.Some? ==> OpsOk(r.value)
  {
    if events == [] then Some(InitialNode())
    else
      var last := |events| - 1;
      var before := Run(events[..last]);
      if before.Some? && Enabled(before.value, events[last]) then Some(Step(before.value, events[last])) else None
  }

  // The histories

  lemma SettledAppend(written: seq<Completion>, c: Completion)
    ensures Settled(written + [c]) == Settled(written) + if c.ec in {WebsocketClosed, Eof, OperationAborted} then [] else [c]
  {
    assert (written + [c])[..|written|] == written;
  }

  lemma {:induction false} MoreAccepted(written: seq<Completion>, accepted: seq<QueuedMessage>, m: QueuedMessage)
    requires WritesInOrder(written, accepted)
    ensures WritesInOrder(written, accepted + [m])
  {
    if written != [] {
      MoreAccepted(written[..|written| - 1], accepted, m);
    }
  }

  lemma SendKeeps(s: NodeState, m: QueuedMessage)
    requires HistoryOk(s)
    ensures HistoryOk(SendMessage(s, m))
  {
    MoreAccepted(s.written, s.accepted, m);
    assert s.popped + (s.queue + [m]) == s.accepted + [m];
  }

  /** A completed write is of the next message to settle. */
  lemma NextWrite(s: NodeState, c: Completion)
    requires HistoryOk(s) && s.queue != [] && c.message == s.queue[0]
    ensures WritesInOrder(s.written + [c], s.accepted)
  {
    assert (s.written + [c])[..|s.written|] == s.written;
    assert s.accepted[|s.popped|] == s.queue[0];
  }

  lemma MessagesAppend(cs: seq<Completion>, c: Completion)
    ensures Messages(cs + [c]) == Messages(cs) + [c.message]
  {
  }

  lemma WriteKeeps(s: NodeState, ec: ErrorCode)
    requires HistoryOk(s) && s.queue != []
    ensures HistoryOk(WriteDone(s, s.queue[0], ec))
  {
    var c := Completion(s.queue[0], ec);
    SettledAppend(s.written, c);
    NextWrite(s, c);
    MessagesAppend(s.called, c);
    hide WritesInOrder, Settled, Messages;
    assert s.popped + s.queue == s.popped + [s.queue[0]] + s.queue[1..];
  }

  /** Every event keeps the histories in step. */
  lemma HistoryKeeps(s: NodeState, e: Event)
    requires OpsOk(s) && Enabled(s, e) && HistoryOk(s)
    ensures HistoryOk(Step(s, e))
  {
    if e.Send? {
      SendKeeps(s, e.m);
    } else if e.Complete? && s.ops[0].Write? {
      assert HistoryOk(s.(ops := []));
      WriteKeeps(s.(ops := []), e.ec);
    } else {
      assert HistoryOk(Step(s, e));
    }
  }

  lemma {:induction false} RunHistory(events: seq<Event>)
    requires Run(events).Some?
    ensures HistoryOk(Run(events).value)
  {
    if events != [] {
      RunHistory(events[..|events| - 1]);
      HistoryKeeps(Run(events[..|events| - 1]).value, events[|events| - 1]);
    }
  }
}

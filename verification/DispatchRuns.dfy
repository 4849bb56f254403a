/** What holds of the dispatcher over every run: when handlers are called and with what, and when
    requests are broadcast again. */
module DispatchRuns {
  import opened Wrappers
  import opened Quorum
  import opened DispatchModel

  // The part of each history that is about one nonce

  function CallsOf(calls: seq<Call>, n: Nonce): (r: seq<Call>)
    ensures forall c <- r :: c in calls && c.nonce == n
  {
    if calls == [] then []
    else
      var last := |calls| - 1;
      CallsOf(calls[..last], n) + if calls[last].nonce == n then [calls[last]] else []
  }

  function SendsOf(sends: seq<Sent>, n: Nonce): (r: seq<Sent>)
    ensures forall s <- r :: s in sends && s.nonce == n
  {
    if sends == [] then []
    else
      var last := |sends| - 1;
      SendsOf(sends[..last], n) + if sends[last].nonce == n then [sends[last]] else []
  }

  lemma CallsOfAppend(calls: seq<Call>, c: Call, n: Nonce)
    ensures CallsOf(calls + [c], n) == CallsOf(calls, n) + if c.nonce == n then [c] else []
  {
    assert (calls + [c])[..|calls|] == calls;
  }

  lemma SendsOfAppend(sends: seq<Sent>, s: Sent, n: Nonce)
    ensures SendsOf(sends + [s], n) == SendsOf(sends, n) + if s.nonce == n then [s] else []
  {
    assert (sends + [s])[..|sends|] == sends;
  }

  // The invariant, one nonce at a time

  predicate IsIssued(d: Dispatch, n: Nonce) {
    1 <= n <= |d.issued|
  }

  /** Some answer is shared by as many senders as required. */
  ghost predicate HasQuorum(votes: map<Uuid, DbResponse>, required: nat) {
    exists v :: |Supporters(votes, v)| >= required
  }

  ghost predicate Unsettled(info: MsgInfo) {
    !HasQuorum(info.responses, info.responsesRequired)
  }

  /** At most one retry completion is outstanding, and it cannot run before the given time. */
  predicate WaitsFrom(waits: seq<Wait>, from: int, now: nat) {
    |waits| <= 1 && (waits != [] ==> if waits[0].Waiting? then waits[0].due >= from else now >= from)
  }

  /** The earliest time of the k-th broadcast (counting from 0) of a request issued at this time. */
  function BroadcastTime(issuedAt: nat, k: int): int {
    issuedAt + REQUEST_RETRY_TIME + BROADCAST_RETRY_TIME * k
  }

  ghost predicate PendingOk(info: MsgInfo, issue: Issue, broadcasts: int, now: nat) {
    && info.swarm == issue.request.swarm
    && info.request == issue.envelope
    && info.policy == issue.request.policy
    && info.responsesRequired == RequiredResponses(issue.request)
    && info.timeoutAt == issue.at + 1000 * issue.request.timeoutSeconds
    && (info.policy == Fastest <==> info.retryTimer.None?)
    && (info.retryTimer.Some? ==> WaitsFrom(info.retryTimer.value.waits, BroadcastTime(issue.at, broadcasts), now))
    && Unsettled(info)
  }

  /** The first send follows the request's policy; each later one is a timely broadcast of the same envelope. */
  predicate SendsOk(sends: seq<Sent>, n: Nonce, issue: Issue, now: nat) {
    && sends != []
    && sends[0] == Sent(n, issue.request.swarm, issue.envelope, issue.request.policy, issue.at)
    && (forall k | 1 <= k < |sends| ::
          && sends[k] == Sent(n, issue.request.swarm, issue.envelope, Broadcast, sends[k].at)
          && BroadcastTime(issue.at, k - 1) <= sends[k].at <= now)
  }

  predicate FromTimeout(c: Call, issue: Issue, now: nat) {
    c.reply.FromClient? ==>
      c.reply.errorMessage == REQUEST_TIMEOUT_MSG && issue.at + 1000 * issue.request.timeoutSeconds <= now
  }

  ghost predicate NonceOk(w: World, n: Nonce) {
    var d := w.d;
    && d.nextNonce == |d.issued| + 1
    && if !IsIssued(d, n) then
         n !in d.messages && n !in d.dropped && CallsOf(d.calls, n) == [] && SendsOf(d.sends, n) == []
       else
         var issue := d.issued[n - 1];
         var sends := SendsOf(d.sends, n);
         var calls := CallsOf(d.calls, n);
         && issue.at <= w.now
         && |issue.request.members| < SIZE_T_RANGE
         && issue.envelope == EnvelopeFor(issue.request, n)
         && SendsOk(sends, n, issue, w.now)
         && (issue.request.policy == Fastest ==> |sends| == 1)
         && (n in d.messages ==> PendingOk(d.messages[n], issue, |sends| - 1, w.now))
         && (if n in d.messages || n in d.dropped then calls == [] else |calls| == 1)
         && (n in d.messages ==> n !in d.dropped)
         && (forall c <- calls :: FromTimeout(c, issue, w.now))
  }

  /** Storing one more answer leaves no answer with a quorum, unless it is that answer's own class. */
  lemma NewestClassDecides(info: MsgInfo, sender: Uuid, response: DbResponse)
    requires Unsettled(info)
    ensures var after := Record(info, sender, response);
            Qualifies(after, sender) <==> HasQuorum(after.responses, after.responsesRequired)
  {
    var after := Record(info, sender, response);
    if !Qualifies(after, sender) {
      forall v ensures |Supporters(after.responses, v)| < after.responsesRequired {
        if ResponsesAreEqual(response, v) {
          assert Supporters(after.responses, v) == Supporters(after.responses, response);
        } else {
          assert |Supporters(info.responses, v)| < info.responsesRequired;
          SubsetSize(Supporters(after.responses, v), Supporters(info.responses, v));
        }
      }
    }
  }

  lemma SupportsItself(responses: map<Uuid, DbResponse>, x: Uuid)
    requires x in responses
    ensures |Supporters(responses, responses[x])| >= 1
  {
    SubsetSize({x}, Supporters(responses, responses[x]));
  }

  /** With no quorum stored, a request requires at least one answer, and one that requires one stores none. */
  lemma OneAnswerSuffices(info: MsgInfo)
    requires Unsettled(info)
    ensures info.responsesRequired >= 1
    ensures info.responsesRequired == 1 ==> info.responses == map[]
  {
    assert |Supporters(info.responses, DbResponse(0, NotSet, ""))| < info.responsesRequired;
    if x :| x in info.responses {
      SupportsItself(info.responses, x);
    }
  }

  lemma NewRequestOk(w: World, r: Request, n: Nonce)
    requires NonceOk(w, n) && Enabled(w, Send(r)) && n == w.d.nextNonce
    ensures NonceOk(Step(w, Send(r)), n)
  {
    var d := w.d;
    var sent := Sent(n, r.swarm, EnvelopeFor(r, n), r.policy, w.now);
    SendsOfAppend(d.sends, sent, n);
    hide SendsOf, CallsOf;
    var d' := SendMessage(d, r, w.now);
    assert SendsOf(d'.sends, n) == [sent];
    var info := d'.messages[n];
    assert Unsettled(info) by {
      assert forall v :: Supporters(info.responses, v) == {};
    }
    assert d'.issued[n - 1] == Issue(r, EnvelopeFor(r, n), w.now);
  }

  lemma SendKeeps(w: World, r: Request, n: Nonce)
    requires NonceOk(w, n) && Enabled(w, Send(r))
    ensures NonceOk(Step(w, Send(r)), n)
  {
    var d := w.d;
    if n == d.nextNonce {
      NewRequestOk(w, r, n);
    } else {
      SendsOfAppend(d.sends, Sent(d.nextNonce, r.swarm, EnvelopeFor(r, d.nextNonce), r.policy, w.now), n);
      hide SendsOf, CallsOf, HasQuorum;
    }
  }

  /** A finished request: one handler call more, and nothing pending. */
  lemma FinishKeeps(w: World, m: Nonce, reply: Reply, n: Nonce)
    requires NonceOk(w, n) && m in w.d.messages
    requires reply.FromClient? ==>
      reply.errorMessage == REQUEST_TIMEOUT_MSG && w.d.messages[m].timeoutAt <= w.now
    ensures NonceOk(w.(d := Finish(w.d, m, reply)), n)
  {
    CallsOfAppend(w.d.calls, Call(m, reply), n);
    hide SendsOf, CallsOf, HasQuorum;
  }

  lemma ReceiveKeeps(w: World, env: ResponseEnvelope, n: Nonce)
    requires NonceOk(w, n)
    ensures NonceOk(Step(w, Respond(env)), n)
  {
    hide SendsOf, CallsOf;
    var d := w.d;
    if Accepted(env) && env.body.value.nonce in d.messages {
      var m := env.body.value.nonce;
      if Qualifies(Record(d.messages[m], env.sender, env.body.value), env.sender) {
        FinishKeeps(w, m, FromSwarm(env.body.value), n);
      } else if n == m {
        NewestClassDecides(d.messages[n], env.sender, env.body.value);
      }
    }
  }

  /** The earliest time of an issued request's next broadcast. */
  function NextBroadcast(d: Dispatch, n: Nonce): int
    requires IsIssued(d, n)
  {
    BroadcastTime(d.issued[n - 1].at, |SendsOf(d.sends, n)| - 1)
  }

  /** The timer's outstanding waits may change as long as they come to nothing too early. */
  lemma SetWaitsKeeps(w: World, m: Nonce, waits: seq<Wait>, n: Nonce)
    requires NonceOk(w, n) && HasRetryTimer(w.d, m)
    requires n == m ==> WaitsFrom(waits, NextBroadcast(w.d, n), w.now)
    ensures NonceOk(w.(d := SetWaits(w.d, m, waits)), n)
  {
    hide SendsOf, CallsOf, HasQuorum;
  }

  /** What the timer operations do to at most one wait. */
  lemma WaitsStayTimely(waits: seq<Wait>, from: int, now: nat)
    requires WaitsFrom(waits, from, now)
    ensures KeepQueued(waits) == if waits == [Queued] then waits else []
    ensures WaitsFrom(MarkDue(waits, now), from, now)
    ensures Queued in waits ==> TakeQueued(waits) == [] && from <= now
  {
    if waits != [] {
      assert KeepQueued(waits[1..]) == [] && MarkDue(waits[1..], now) == [];
    }
  }

  lemma FailKeeps(w: World, err: Option<SwarmError>, n: Nonce)
    requires NonceOk(w, n) && Enabled(w, Fail(err))
    ensures NonceOk(Step(w, Fail(err)), n)
  {
    hide SendsOf, CallsOf, HasQuorum;
    var d := w.d;
    if err.Some? && !IsFatal(err.value) && HasRetryTimer(d, err.value.nonce) {
      var waits := d.messages[err.value.nonce].retryTimer.value.waits;
      if n == err.value.nonce {
        WaitsStayTimely(waits, NextBroadcast(d, n), w.now);
      }
      SetWaitsKeeps(w, err.value.nonce, KeepQueued(waits), n);
    }
  }

  lemma OneMoreSend(sends: seq<Sent>, n: Nonce, issue: Issue, now: nat)
    requires SendsOk(sends, n, issue, now) && BroadcastTime(issue.at, |sends| - 1) <= now
    ensures SendsOk(sends + [Sent(n, issue.request.swarm, issue.envelope, Broadcast, now)], n, issue, now)
  {
  }

  lemma RebroadcastKeeps(w: World, m: Nonce, n: Nonce)
    requires NonceOk(w, n) && HasRetryTimer(w.d, m)
    requires w.d.messages[m].retryTimer.value.waits == []
    requires n == m ==> NextBroadcast(w.d, n) <= w.now
    ensures NonceOk(w.(d := Retry(w.d, m, w.now)), n)
  {
    var d := w.d;
    var info := d.messages[m];
    SendsOfAppend(d.sends, Sent(m, info.swarm, info.request, Broadcast, w.now), n);
    assert KeepQueued([]) == [];
    hide SendsOf, CallsOf, HasQuorum, KeepQueued;
    if n == m {
      OneMoreSend(SendsOf(d.sends, n), n, d.issued[n - 1], w.now);
    }
  }

  lemma RetryKeeps(w: World, m: Nonce, failed: bool, n: Nonce)
    requires NonceOk(w, n) && NonceOk(w, m) && Enabled(w, RetryRun(m, failed))
    ensures NonceOk(Step(w, RetryRun(m, failed)), n)
  {
    hide SendsOf, CallsOf, HasQuorum;
    var d := w.d;
    if m in d.messages {
      var waits := d.messages[m].retryTimer.value.waits;
      WaitsStayTimely(waits, NextBroadcast(d, m), w.now);
      SetWaitsKeeps(w, m, TakeQueued(waits), n);
      if !failed {
        RebroadcastKeeps(w.(d := SetWaits(d, m, TakeQueued(waits))), m, n);
      }
    }
  }

  /** The invariant of every nonce is kept by every event. */
  lemma StepKeeps(w: World, e: Event, n: Nonce)
    requires NonceOk(w, n) && Enabled(w, e)
    requires e.RetryRun? ==> NonceOk(w, e.nonce)
    ensures NonceOk(Step(w, e), n)
  {
    hide SendsOf, CallsOf, HasQuorum;
    match e
    case Tick(ms) =>
    case Send(r) => SendKeeps(w, r, n);
    case Respond(env) => ReceiveKeeps(w, env, n);
    case Fail(err) => FailKeeps(w, err, n);
    case RetryDue(m) =>
      var waits := w.d.messages[m].retryTimer.value.waits;
      if n == m {
        WaitsStayTimely(waits, NextBroadcast(w.d, n), w.now);
      }
      SetWaitsKeeps(w, m, MarkDue(waits, w.now), n);
    case RetryRun(m, failed) => RetryKeeps(w, m, failed, n);
    case TimeoutRun(m) =>
      if m in w.d.messages {
        FinishKeeps(w, m, FromClient(REQUEST_TIMEOUT_MSG), n);
      }
  }

  /** The invariant holds of every nonce in every reachable state. */
  lemma {:induction false} RunKeeps(events: seq<Event>, n: Nonce)
    requires Run(events).Some?
    ensures NonceOk(Run(events).value, n)
  {
    if events != [] {
      var last := |events| - 1;
      RunKeeps(events[..last], n);
      if events[last].RetryRun? {
        RunKeeps(events[..last], events[last].nonce);
      }
      StepKeeps(Run(events[..last]).value, events[last], n);
    }
  }
}

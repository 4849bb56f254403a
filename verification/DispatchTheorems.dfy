/** The dispatcher's promises, each over every run. */
module DispatchTheorems {
  import opened Wrappers
  import opened Quorum
  import opened DispatchModel
  import opened DispatchRuns

  // What a run's events say by themselves

  function SendCount(events: seq<Event>): nat {
    if events == [] then 0
    else SendCount(events[..|events| - 1]) + if events[|events| - 1].Send? then 1 else 0
  }

  /** The latest accepted answer of each sender to the n-th request, since that request was sent. */
  function Votes(events: seq<Event>, n: Nonce): map<Uuid, DbResponse> {
    if events == [] then map[]
    else
      var e, earlier := events[|events| - 1], Votes(events[..|events| - 1], n);
      if e.Send? && SendCount(events) == n then map[]
      else if e.Respond? && IsVote(e.env, n) then earlier[e.env.sender := e.env.body.value]
      else earlier
  }

  /** An answer to the n-th request that parses and is signed, unless it is a quick read. */
  predicate IsVote(env: ResponseEnvelope, n: Nonce) {
    env.body.Some? && env.body.value.nonce == n && (env.signed || env.body.value.kind == QuickRead)
  }

  /** The senders whose vote has this kind and this serialized form. */
  function Sharing(votes: map<Uuid, DbResponse>, kind: ResponseCase, wire: string): set<Uuid> {
    set x | x in votes && votes[x].kind == kind && votes[x].wire == wire
  }

  /** One answer for a fastest request, else 2f + 1 where the swarm has 3f + 1 to 3f + 3 nodes; a swarm
      without nodes needs more than it can ever have. */
  function Needed(r: Request): nat {
    if r.policy == Fastest then 1
    else if r.members == {} then 0xAAAA_AAAA_AAAA_AAAB
    else 2 * ((|r.members| - 1) / 3) + 1
  }

  ghost predicate Reaches(events: seq<Event>, w: World) {
    Run(events) == Some(w)
  }

  lemma RunStep(events: seq<Event>, e: Event)
    ensures Run(events + [e]) ==
            if Run(events).Some? && Enabled(Run(events).value, e) then Some(Step(Run(events).value, e)) else None
    ensures SendCount(events + [e]) == SendCount(events) + if e.Send? then 1 else 0
  {
    assert (events + [e])[..|events|] == events;
  }

  /** The last event of a run was possible, and led to where the run ends. */
  lemma LastStep(events: seq<Event>, w: World) returns (prefix: seq<Event>, e: Event, before: World)
    requires events != [] && Reaches(events, w)
    ensures prefix == events[..|events| - 1] && e == events[|events| - 1] && events == prefix + [e]
    ensures Reaches(prefix, before) && Enabled(before, e) && w == Step(before, e)
  {
    prefix, e := events[..|events| - 1], events[|events| - 1];
    before := Run(prefix).value;
  }

  lemma {:induction false} SendsAreCounted(events: seq<Event>, w: World)
    requires Reaches(events, w)
    ensures |w.d.issued| == SendCount(events)
  {
    if events != [] {
      SendsAreCounted(events[..|events| - 1], Run(events[..|events| - 1]).value);
    }
  }

  lemma VotesStep(prefix: seq<Event>, e: Event, n: Nonce)
    ensures Votes(prefix + [e], n) ==
            if e.Send? && SendCount(prefix) + 1 == n then map[]
            else if e.Respond? && IsVote(e.env, n) then Votes(prefix, n)[e.env.sender := e.env.body.value]
            else Votes(prefix, n)
  {
    assert (prefix + [e])[..|prefix|] == prefix;
  }

  /** A pending request stores exactly each sender's latest accepted answer. */
  lemma {:induction false} StoresLatestVotes(events: seq<Event>, w: World, n: Nonce)
    requires Reaches(events, w) && n in w.d.messages
    ensures w.d.messages[n].responses == Votes(events, n)
  {
    if events != [] {
      var prefix, e, before := LastStep(events, w);
      RunKeeps(prefix, n);
      SendsAreCounted(prefix, before);
      VotesStep(prefix, e, n);
      if n in before.d.messages {
        StoresLatestVotes(prefix, before, n);
      }
      hide Run, Votes, SendsOf, CallsOf, HasQuorum;
    }
  }

  // Quorums

  lemma SharingIsSupport(votes: map<Uuid, DbResponse>, v: DbResponse)
    ensures Supporters(votes, v) == Sharing(votes, v.kind, v.wire)
  {
  }

  lemma QuorumIsShared(votes: map<Uuid, DbResponse>, required: nat)
    ensures HasQuorum(votes, required) <==> exists kind, wire :: |Sharing(votes, kind, wire)| >= required
  {
    if HasQuorum(votes, required) {
      var v :| |Supporters(votes, v)| >= required;
      SharingIsSupport(votes, v);
      assert |Sharing(votes, v.kind, v.wire)| >= required;
    }
    if kind, wire :| |Sharing(votes, kind, wire)| >= required {
      SharingIsSupport(votes, DbResponse(0, kind, wire));
      assert |Supporters(votes, DbResponse(0, kind, wire))| >= required;
    }
  }

  lemma NeededIsRequired(r: Request)
    requires |r.members| < SIZE_T_RANGE
    ensures RequiredResponses(r) == Needed(r)
  {
    if r.members == {} {
      assert (|r.members| - 1) % SIZE_T_RANGE == 0xFFFF_FFFF_FFFF_FFFF;
    } else {
      assert |r.members| >= 1;
    }
  }

  /** No set of senders as large as the request needs ever has one kind and one serialized form in its latest
      answers while it pends. */
  lemma NoPendingQuorum(events: seq<Event>, w: World, n: Nonce, agreeing: set<Uuid>, kind: ResponseCase, wire: string)
    requires Reaches(events, w) && n in w.d.messages
    requires agreeing <= Votes(events, n).Keys
    requires forall x <- agreeing :: Votes(events, n)[x].kind == kind && Votes(events, n)[x].wire == wire
    ensures IsIssued(w.d, n) && |agreeing| < Needed(w.d.issued[n - 1].request)
  {
    RunKeeps(events, n);
    StoresLatestVotes(events, w, n);
    NeededIsRequired(w.d.issued[n - 1].request);
    var votes := w.d.messages[n].responses;
    SharingIsSupport(votes, DbResponse(0, kind, wire));
    hide Run, Votes, SendsOf, CallsOf, Supporters, Needed;
    SubsetSize(agreeing, Sharing(votes, kind, wire));
  }

  /** The handler is called on exactly the event after which some answer first has a quorum among the
      latest votes; it is given that answer. A request that needs one answer then has stored one. */
  lemma FiresOnFirstQuorum(events: seq<Event>, w: World, env: ResponseEnvelope, n: Nonce)
    requires Reaches(events, w) && IsVote(env, n) && n in w.d.messages
    ensures IsIssued(w.d, n)
    ensures var needed := Needed(w.d.issued[n - 1].request);
            var votes := Votes(events + [Respond(env)], n);
            var after := Step(w, Respond(env)).d;
            && (forall kind, wire :: |Sharing(Votes(events, n), kind, wire)| < needed)
            && (needed == 1 ==> |votes| == 1)
            && (if exists kind, wire :: |Sharing(votes, kind, wire)| >= needed then
                  && n !in after.messages
                  && after.calls == w.d.calls + [Call(n, FromSwarm(env.body.value))]
                  && |Sharing(votes, env.body.value.kind, env.body.value.wire)| >= needed
                else
                  n in after.messages && after.calls == w.d.calls)
  {
    RunKeeps(events, n);
    StoresLatestVotes(events, w, n);
    VotesStep(events, Respond(env), n);
    NeededIsRequired(w.d.issued[n - 1].request);
    hide Run, Votes, SendsOf, CallsOf, Needed;
    var info := w.d.messages[n];
    var recorded := Record(info, env.sender, env.body.value);
    NewestClassDecides(info, env.sender, env.body.value);
    OneAnswerSuffices(info);
    assert Unsettled(info);
    hide HasQuorum;
    QuorumIsShared(info.responses, info.responsesRequired);
    QuorumIsShared(recorded.responses, info.responsesRequired);
    SharingIsSupport(recorded.responses, env.body.value);
    hide Supporters, Sharing;
    assert recorded.responses == Votes(events + [Respond(env)], n);
  }

  /** Calls are only ever of issued requests, and what a request was issued with never changes. */
  lemma IssuesLast(w: World, e: Event, n: Nonce)
    requires Enabled(w, e) && IsIssued(w.d, n)
    ensures IsIssued(Step(w, e).d, n) && Step(w, e).d.issued[n - 1] == w.d.issued[n - 1]
  {
  }

  lemma {:induction false} CallIsItsOwn(calls: seq<Call>, c: Call)
    requires c in calls
    ensures c in CallsOf(calls, c.nonce)
  {
    var last := |calls| - 1;
    if calls[last] != c {
      assert c in calls[..last];
      CallIsItsOwn(calls[..last], c);
    }
  }

  lemma AddedAnswer(w: World, e: Event, c: Call)
    requires Enabled(w, e) && c in Step(w, e).d.calls && c !in w.d.calls && c.reply.FromSwarm?
    ensures e.Respond? && IsVote(e.env, c.nonce) && c.nonce in w.d.messages && c.reply.response == e.env.body.value
    ensures Step(w, e).d.calls == w.d.calls + [c]
  {
    hide Supporters;
  }

  /** An event that adds a call of a swarm's answer is a response with that body and the support needed. */
  lemma NewAnswerHasQuorum(prefix: seq<Event>, before: World, e: Event, c: Call)
    requires Reaches(prefix, before) && Enabled(before, e)
    requires c in Step(before, e).d.calls && c !in before.d.calls && c.reply.FromSwarm?
    ensures IsIssued(before.d, c.nonce)
    ensures e.Respond? && e.env.body == Some(c.reply.response)
    ensures |Sharing(Votes(prefix + [e], c.nonce), c.reply.response.kind, c.reply.response.wire)|
         >= Needed(before.d.issued[c.nonce - 1].request)
  {
    AddedAnswer(before, e, c);
    hide *;
    FiresOnFirstQuorum(prefix, before, e.env, c.nonce);
  }

  /** Each answer a handler was given arrived in an event after which the senders whose latest votes have its
      kind and its serialized form were as many as the request needs. */
  lemma {:induction false} AnswerHadQuorum(events: seq<Event>, w: World, c: Call) returns (k: nat)
    requires Reaches(events, w) && c in w.d.calls && c.reply.FromSwarm?
    ensures IsIssued(w.d, c.nonce)
    ensures k < |events| && events[k].Respond? && events[k].env.body == Some(c.reply.response)
    ensures |Sharing(Votes(events[..k + 1], c.nonce), c.reply.response.kind, c.reply.response.wire)|
         >= Needed(w.d.issued[c.nonce - 1].request)
  {
    var prefix, e, before := LastStep(events, w);
    hide Run, Votes, Sharing, Needed, Step, Enabled;
    if c in before.d.calls {
      k := AnswerHadQuorum(prefix, before, c);
      assert prefix[..k + 1] == events[..k + 1];
    } else {
      k := |prefix|;
      NewAnswerHasQuorum(prefix, before, e, c);
      assert events[..k + 1] == events;
    }
    IssuesLast(before, e, c.nonce);
  }

  /** Quorum soundness, for votes as the envelopes name them. Of the senders whose answers agreed with a
      delivered one, more than the fault bound are not faulty; so if the votes in the names of senders who are
      not faulty all had one kind and one serialized form, so has what the caller was given. */
  lemma DeliveredAnswerIsSound(events: seq<Event>, w: World, c: Call, faulty: set<Uuid>) returns (k: nat)
    requires Reaches(events, w) && c in w.d.calls && c.reply.FromSwarm?
    requires IsIssued(w.d, c.nonce) && w.d.issued[c.nonce - 1].request.policy != Fastest
    requires w.d.issued[c.nonce - 1].request.members != {}
    requires |faulty| <= FaultBound(|w.d.issued[c.nonce - 1].request.members|)
    ensures k < |events|
    ensures var votes, members := Votes(events[..k + 1], c.nonce), w.d.issued[c.nonce - 1].request.members;
            && |Sharing(votes, c.reply.response.kind, c.reply.response.wire) - faulty| >= FaultBound(|members|) + 1
            && exists x | x in votes && x !in faulty ::
                 votes[x].kind == c.reply.response.kind && votes[x].wire == c.reply.response.wire
  {
    k := AnswerHadQuorum(events, w, c);
    RunKeeps(events, c.nonce);
    var votes, members := Votes(events[..k + 1], c.nonce), w.d.issued[c.nonce - 1].request.members;
    var agreeing := Sharing(votes, c.reply.response.kind, c.reply.response.wire);
    hide Run, Votes, SendsOf, CallsOf;
    assert |members| >= 1;
    TakeAway(agreeing, faulty);
    assert agreeing - faulty != {};
    var x :| x in agreeing - faulty;
    assert x in votes && x !in faulty;
  }

  /** Quorum attainability. While a non-fastest request pends, there is a member who is not faulty without a
      vote of this kind and serialized form: the correct members' agreement alone always completes a request. */
  lemma PendingMeansDisagreement(events: seq<Event>, w: World, n: Nonce, faulty: set<Uuid>, kind: ResponseCase, wire: string)
    requires Reaches(events, w) && n in w.d.messages
    requires IsIssued(w.d, n) && w.d.issued[n - 1].request.policy != Fastest && w.d.issued[n - 1].request.members != {}
    requires |faulty| <= FaultBound(|w.d.issued[n - 1].request.members|)
    ensures exists x | x in w.d.issued[n - 1].request.members && x !in faulty ::
              x !in Votes(events, n) || Votes(events, n)[x].kind != kind || Votes(events, n)[x].wire != wire
  {
    var members, votes := w.d.issued[n - 1].request.members, Votes(events, n);
    assert |members| >= 1;
    hide Run, Votes;
    if forall x | x in members && x !in faulty :: x in votes && votes[x].kind == kind && votes[x].wire == wire {
      NoPendingQuorum(events, w, n, members - faulty, kind, wire);
      TakeAway(members, faulty);
    }
  }

  // Fates

  datatype Fate = Pending | Answered | TimedOut | Dropped

  ghost function Fates(d: Dispatch, n: Nonce): set<Fate> {
    (if n in d.messages then {Pending} else {}) +
    (if n in d.dropped then {Dropped} else {}) +
    (if exists c <- CallsOf(d.calls, n) :: c.reply.FromSwarm? then {Answered} else {}) +
    (if exists c <- CallsOf(d.calls, n) :: c.reply.FromClient? then {TimedOut} else {})
  }

  /** Every issued request has exactly one fate, and its handler is called at most once: not at all
      while it pends or when it was dropped, once otherwise. A call of the client timeout carries its
      message and comes no earlier than that timeout. */
  lemma OneFate(events: seq<Event>, w: World, n: Nonce)
    requires Reaches(events, w)
    ensures IsIssued(w.d, n) <==> 1 <= n <= SendCount(events)
    ensures IsIssued(w.d, n) ==> exists f :: Fates(w.d, n) == {f}
    ensures |CallsOf(w.d.calls, n)| == if Fates(w.d, n) !! {Answered, TimedOut} then 0 else 1
    ensures IsIssued(w.d, n) ==> forall c <- CallsOf(w.d.calls, n) :: c.reply.FromClient? ==>
              c.reply.errorMessage == "Request timeout"
              && w.d.issued[n - 1].at + 1000 * w.d.issued[n - 1].request.timeoutSeconds <= w.now
  {
    RunKeeps(events, n);
    SendsAreCounted(events, w);
    var calls := CallsOf(w.d.calls, n);
    if calls != [] {
      assert calls[0] in calls;
      assert Fates(w.d, n) == {if calls[0].reply.FromSwarm? then Answered else TimedOut};
    } else if IsIssued(w.d, n) {
      assert Fates(w.d, n) == {if n in w.d.messages then Pending else Dropped};
    } else {
      assert Fates(w.d, n) == {};
    }
  }

  /** What is over for a request, step by step: its fate, its calls and its sends stay as they are. */
  ghost predicate SameFor(a: Dispatch, b: Dispatch, n: Nonce) {
    && (n in a.dropped <==> n in b.dropped)
    && CallsOf(a.calls, n) == CallsOf(b.calls, n)
    && SendsOf(a.sends, n) == SendsOf(b.sends, n)
  }

  predicate IsQuiet(d: Dispatch, n: Nonce) {
    IsIssued(d, n) && (n in d.messages ==> d.messages[n].retryTimer.Some? ==> d.messages[n].retryTimer.value.waits == [])
  }

  /** One event adds at most one send and one call, neither of them for a request that is not pending. */
  lemma StepAppends(w: World, e: Event, n: Nonce)
    requires Enabled(w, e) && n != w.d.nextNonce
    ensures var d, d' := w.d, Step(w, e).d;
            && (n !in d.messages ==> CallsOf(d'.calls, n) == CallsOf(d.calls, n))
            && (n !in d.messages || !e.RetryRun? || e.nonce !in d.messages ==> SendsOf(d'.sends, n) == SendsOf(d.sends, n))
  {
    var d, d' := w.d, Step(w, e).d;
    if |d'.sends| > |d.sends| {
      SendsOfAppend(d.sends, d'.sends[|d.sends|], n);
    }
    if |d'.calls| > |d.calls| {
      CallsOfAppend(d.calls, d'.calls[|d.calls|], n);
    }
    hide SendsOf, CallsOf, Supporters, MarkDue, TakeQueued, KeepQueued;
  }

  lemma FinishedStays(w: World, e: Event, n: Nonce)
    requires w.d.nextNonce == |w.d.issued| + 1
    requires Enabled(w, e) && IsIssued(w.d, n) && n !in w.d.messages
    ensures n !in Step(w, e).d.messages && IsIssued(Step(w, e).d, n)
    ensures n in Step(w, e).d.dropped <==> n in w.d.dropped
  {
    hide Supporters, MarkDue, TakeQueued, KeepQueued, NewInfo, Record;
    match e
    case Tick(ms) =>
    case Send(r) =>
    case Respond(env) =>
    case Fail(err) =>
    case RetryDue(m) =>
    case RetryRun(m, failed) =>
    case TimeoutRun(m) =>
  }

  lemma FinishedStep(w: World, e: Event, n: Nonce)
    requires w.d.nextNonce == |w.d.issued| + 1
    requires Enabled(w, e) && IsIssued(w.d, n) && n !in w.d.messages
    ensures n !in Step(w, e).d.messages && SameFor(w.d, Step(w, e).d, n) && IsIssued(Step(w, e).d, n)
  {
    FinishedStays(w, e, n);
    StepAppends(w, e, n);
    hide Step, Enabled, SendsOf, CallsOf;
  }

  lemma {:induction false} PrefixRuns(events: seq<Event>, more: seq<Event>)
    requires Run(events + more).Some?
    ensures Run(events).Some?
  {
    if more == [] {
      assert events + more == events;
    } else {
      var last := |more| - 1;
      assert (events + more)[..|events| + last] == events + more[..last];
      PrefixRuns(events, more[..last]);
    }
  }

  /** A finished request never pends again, and nothing more is called or sent for it. */
  lemma {:induction false} FinishedForGood(events: seq<Event>, more: seq<Event>, w: World, w': World, n: Nonce)
    requires Reaches(events, w) && Reaches(events + more, w')
    requires IsIssued(w.d, n) && n !in w.d.messages
    ensures IsIssued(w'.d, n) && n !in w'.d.messages
    ensures SameFor(w.d, w'.d, n)
  {
    if more == [] {
      assert events + more == events;
    } else {
      var last := |more| - 1;
      assert (events + more)[..|events| + last] == events + more[..last];
      var before := Run(events + more[..last]).value;
      FinishedForGood(events, more[..last], w, before, n);
      RunKeeps(events + more[..last], n);
      FinishedStep(before, more[last], n);
    }
  }

  /** The branches that give up on a request without a word to its handler. */
  ghost predicate DropsAt(events: seq<Event>, k: nat, n: Nonce)
    requires k < |events|
  {
    && events[k].Fail? && events[k].err.Some? && events[k].err.value.nonce == n
    && events[k].err.value.message in {"INVALID TIMESTAMP", "REQUEST TOO LARGE"}
    && Run(events[..k]).Some? && n in Run(events[..k]).value.d.messages
  }

  lemma DropStep(w: World, e: Event, n: Nonce)
    requires Enabled(w, e) && 0 !in w.d.messages
    ensures n in Step(w, e).d.dropped <==>
            n in w.d.dropped
            || (&& e.Fail? && e.err.Some? && e.err.value.nonce == n && n in w.d.messages
                && e.err.value.message in {"INVALID TIMESTAMP", "REQUEST TOO LARGE"})
  {
    hide Supporters, MarkDue, TakeQueued, KeepQueued;
  }

  lemma {:induction false} DroppedIffDrops(events: seq<Event>, w: World, n: Nonce)
    requires Reaches(events, w)
    ensures n in w.d.dropped <==> exists k | 0 <= k < |events| :: DropsAt(events, k, n)
  {
    if events != [] {
      var prefix, e, before := LastStep(events, w);
      DroppedIffDrops(prefix, before, n);
      RunKeeps(prefix, 0);
      DropStep(before, e, n);
      forall k | 0 <= k < |prefix| ensures DropsAt(prefix, k, n) <==> DropsAt(events, k, n) {
        assert prefix[..k] == events[..k];
      }
      hide Run, Step, Enabled;
      assert n in w.d.dropped <==> n in before.d.dropped || DropsAt(events, |prefix|, n);
    }
  }

  /** Once its client timeout has run, a request's handler has been called exactly once if and only if
      no TIMESTAMP or TOO LARGE error reached it while it was pending. */
  lemma CalledOnceIffNotDropped(events: seq<Event>, w: World, n: Nonce, t: nat)
    requires Reaches(events, w)
    requires t < |events| && events[t] == TimeoutRun(n)
    ensures |CallsOf(w.d.calls, n)| == 1 <==> !exists k | 0 <= k < |events| :: DropsAt(events, k, n)
  {
    var done, more := events[..t + 1], events[t + 1..];
    assert done + more == events;
    PrefixRuns(done, more);
    assert done[..t] == events[..t];
    RunKeeps(events[..t], n);
    FinishedForGood(done, more, Run(done).value, w, n);
    RunKeeps(events, n);
    DroppedIffDrops(events, w, n);
  }

  /** The promise that every handler is called is false: here is a run in which one never is. */
  lemma DroppedRequestIsSilent(r: Request)
    requires |r.members| < SIZE_T_RANGE
    ensures var events := [Send(r), Fail(Some(SwarmError(TIMESTAMP_ERROR_MSG, 1))), TimeoutRun(1)];
            Run(events).Some? && IsIssued(Run(events).value.d, 1) && CallsOf(Run(events).value.d.calls, 1) == []
  {
    var w0 := World(0, InitialDispatch());
    var error := SwarmError(TIMESTAMP_ERROR_MSG, 1);
    assert TIMESTAMP_ERROR_MSG[0] != DUPLICATE_ERROR_MSG[0];
    RunStep([], Send(r));
    RunStep([Send(r)], Fail(Some(error)));
    RunStep([Send(r), Fail(Some(error))], TimeoutRun(1));
    assert [] + [Send(r)] == [Send(r)];
    assert [Send(r)] + [Fail(Some(error))] == [Send(r), Fail(Some(error))];
    assert [Send(r), Fail(Some(error))] + [TimeoutRun(1)] == [Send(r), Fail(Some(error)), TimeoutRun(1)];
  }

  // Retries

  /** The request goes out as asked for, under its own nonce. Up to its client timeout of S seconds it is
      broadcast again at most (1000 S + 1500) / 3000 times; every retry is a broadcast of the envelope first
      sent, to the swarm it was sent to. */
  lemma RetryBound(events: seq<Event>, w: World, n: Nonce)
    requires Reaches(events, w) && IsIssued(w.d, n)
    ensures var issue := w.d.issued[n - 1];
            var r, sends := issue.request, SendsOf(w.d.sends, n);
            && sends != [] && sends[0] == Sent(n, r.swarm, Envelope(r.dbUuid, n, r.msg, r.stamp), r.policy, issue.at)
            && (w.now <= issue.at + 1000 * r.timeoutSeconds ==> |sends| - 1 <= (1000 * r.timeoutSeconds + 1500) / 3000)
            && (r.policy == Fastest ==> |sends| == 1)
            && forall k | 1 <= k < |sends| ::
                 && sends[k] == sends[0].(policy := Broadcast, at := sends[k].at)
                 && sends[k].at >= issue.at + 1500 + 3000 * (k - 1)
  {
    RunKeeps(events, n);
    var sends := SendsOf(w.d.sends, n);
    if |sends| > 1 {
      assert BroadcastTime(w.d.issued[n - 1].at, |sends| - 2) <= sends[|sends| - 1].at <= w.now;
    }
  }

  lemma QuietStaysQuiet(w: World, e: Event, n: Nonce)
    requires w.d.nextNonce == |w.d.issued| + 1
    requires Enabled(w, e) && IsQuiet(w.d, n)
    ensures IsQuiet(Step(w, e).d, n)
    ensures e.RetryRun? && e.nonce in w.d.messages ==> e.nonce != n
  {
    assert KeepQueued([]) == [] && MarkDue([], w.now) == [];
    hide Supporters, MarkDue, TakeQueued, KeepQueued;
  }

  lemma QuietStep(w: World, e: Event, n: Nonce)
    requires w.d.nextNonce == |w.d.issued| + 1
    requires Enabled(w, e) && IsQuiet(w.d, n)
    ensures SendsOf(Step(w, e).d.sends, n) == SendsOf(w.d.sends, n)
  {
    QuietStaysQuiet(w, e, n);
    if e.RetryRun? && e.nonce in w.d.messages {
      var info := w.d.messages[e.nonce];
      SendsOfAppend(w.d.sends, Sent(e.nonce, info.swarm, info.request, Broadcast, w.now), n);
    } else {
      StepAppends(w, e, n);
    }
    hide SendsOf, Supporters, MarkDue, TakeQueued, KeepQueued;
  }

  lemma {:induction false} QuietForGood(events: seq<Event>, more: seq<Event>, w: World, w': World, n: Nonce)
    requires Reaches(events, w) && Reaches(events + more, w') && IsQuiet(w.d, n)
    ensures IsQuiet(w'.d, n) && SendsOf(w'.d.sends, n) == SendsOf(w.d.sends, n)
  {
    if more == [] {
      assert events + more == events;
    } else {
      var last := |more| - 1;
      assert (events + more)[..|events| + last] == events + more[..last];
      var before := Run(events + more[..last]).value;
      QuietForGood(events, more[..last], w, before, n);
      RunKeeps(events + more[..last], n);
      QuietStaysQuiet(before, more[last], n);
      QuietStep(before, more[last], n);
    }
  }

  /** A DUPLICATE answer that finds no retry completion queued ends the broadcasts of that request. */
  lemma DuplicateStopsRetries(events: seq<Event>, more: seq<Event>, w: World, w': World, n: Nonce)
    requires n != 0 && Reaches(events, w) && HasRetryTimer(w.d, n)
    requires Queued !in w.d.messages[n].retryTimer.value.waits
    requires Reaches(events + [Fail(Some(SwarmError(DUPLICATE_ERROR_MSG, n)))] + more, w')
    ensures SendsOf(w'.d.sends, n) == SendsOf(w.d.sends, n)
  {
    var e := Fail(Some(SwarmError(DUPLICATE_ERROR_MSG, n)));
    var waits := w.d.messages[n].retryTimer.value.waits;
    RunKeeps(events, n);
    RunStep(events, e);
    WaitsStayTimely(waits, NextBroadcast(w.d, n), w.now);
    hide Run, SendsOf, CallsOf, HasQuorum, Supporters;
    assert DUPLICATE_ERROR_MSG[0] != TIMESTAMP_ERROR_MSG[0] && DUPLICATE_ERROR_MSG[0] != TOO_LARGE_ERROR_MSG[0];
    QuietForGood(events + [e], more, Run(events + [e]).value, w', n);
  }
}

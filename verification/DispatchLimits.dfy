/** Where the dispatcher's promises end: duplicate errors that come too late or for the wrong request, and
    answers that nobody signed. Each limit has its exact condition and a run that reaches it. */
module DispatchLimits {
  import opened Wrappers
  import opened KeyOrder
  import opened Quorum
  import opened DispatchModel
  import opened DispatchRuns
  import opened DispatchTheorems

  // Duplicate errors

  function Duplicate(n: Nonce): Event {
    Fail(Some(SwarmError(DUPLICATE_ERROR_MSG, n)))
  }

  lemma DuplicateIsNotFatal(n: Nonce)
    ensures !IsFatal(SwarmError(DUPLICATE_ERROR_MSG, n))
  {
    assert DUPLICATE_ERROR_MSG[0] != TIMESTAMP_ERROR_MSG[0] && DUPLICATE_ERROR_MSG[0] != TOO_LARGE_ERROR_MSG[0];
  }

  lemma {:induction false} QueuedIsKept(waits: seq<Wait>)
    ensures Queued in waits ==> Queued in KeepQueued(waits)
  {
    if waits != [] {
      assert waits == [waits[0]] + waits[1..];
      QueuedIsKept(waits[1..]);
    }
  }

  /** A completion that was queued when the duplicate error came runs nevertheless, and broadcasts. */
  lemma DuplicateTooLate(events: seq<Event>, w: World, n: Nonce) returns (w': World)
    requires n != 0 && Reaches(events, w) && HasRetryTimer(w.d, n)
    requires Queued in w.d.messages[n].retryTimer.value.waits
    ensures Reaches(events + [Duplicate(n)] + [RetryRun(n, false)], w')
    ensures |SendsOf(w'.d.sends, n)| == |SendsOf(w.d.sends, n)| + 1
    ensures HasRetryTimer(w'.d, n) && exists wait <- w'.d.messages[n].retryTimer.value.waits :: wait.Waiting?
  {
    DuplicateIsNotFatal(n);
    QueuedIsKept(w.d.messages[n].retryTimer.value.waits);
    RunStep(events, Duplicate(n));
    RunStep(events + [Duplicate(n)], RetryRun(n, false));
    hide Run, KeepQueued, SendsOf;
    var w1 := Step(w, Duplicate(n));
    assert w1.d.sends == w.d.sends;
    w' := Step(w1, RetryRun(n, false));
    var info := w1.d.messages[n];
    assert w'.d.sends == w.d.sends + [Sent(n, info.swarm, info.request, Broadcast, w.now)];
    SendsOfAppend(w.d.sends, Sent(n, info.swarm, info.request, Broadcast, w.now), n);
    var waits := w'.d.messages[n].retryTimer.value.waits;
    assert waits[|waits| - 1] in waits && waits[|waits| - 1].Waiting?;
  }

  /** A duplicate error ends the broadcasts of a request, whatever happens afterwards, exactly when it finds
      no retry completion queued. */
  lemma DuplicateStopsRetriesIff(events: seq<Event>, w: World, n: Nonce)
    requires n != 0 && Reaches(events, w) && HasRetryTimer(w.d, n)
    ensures Queued !in w.d.messages[n].retryTimer.value.waits <==>
            forall more, w' :: Reaches(events + [Duplicate(n)] + more, w') ==>
              SendsOf(w'.d.sends, n) == SendsOf(w.d.sends, n)
  {
    hide Run, Reaches, SendsOf;
    if Queued in w.d.messages[n].retryTimer.value.waits {
      var w' := DuplicateTooLate(events, w, n);
      assert SendsOf(w'.d.sends, n) != SendsOf(w.d.sends, n);
    } else {
      forall more, w' | Reaches(events + [Duplicate(n)] + more, w')
        ensures SendsOf(w'.d.sends, n) == SendsOf(w.d.sends, n)
      {
        DuplicateStopsRetries(events, more, w, w', n);
      }
    }
  }

  /** A request that is not fastest, when its first retry wait has just run out. */
  function QueuedRetry(r: Request): seq<Event> {
    [Send(r)] + [Tick(REQUEST_RETRY_TIME)] + [RetryDue(1)]
  }

  lemma FirstSend(r: Request) returns (w: World)
    requires |r.members| < SIZE_T_RANGE
    ensures Reaches([Send(r)], w) && w == World(0, SendMessage(InitialDispatch(), r, 0))
    ensures |SendsOf(w.d.sends, 1)| == 1
  {
    RunStep([], Send(r));
    assert [] + [Send(r)] == [Send(r)];
    w := Step(World(0, InitialDispatch()), Send(r));
    var sent := Sent(1, r.swarm, EnvelopeFor(r, 1), r.policy, 0);
    assert w.d.sends == [] + [sent];
    SendsOfAppend([], sent, 1);
  }

  lemma RetryIsQueued(r: Request) returns (w: World)
    requires |r.members| < SIZE_T_RANGE && r.policy != Fastest
    ensures Reaches(QueuedRetry(r), w) && HasRetryTimer(w.d, 1) && Queued in w.d.messages[1].retryTimer.value.waits
    ensures |SendsOf(w.d.sends, 1)| == 1
  {
    var w1 := FirstSend(r);
    RunStep([Send(r)], Tick(REQUEST_RETRY_TIME));
    RunStep([Send(r)] + [Tick(REQUEST_RETRY_TIME)], RetryDue(1));
    hide Run, SendsOf, HonestMajoritySize;
    var w2 := w1.(now := REQUEST_RETRY_TIME);
    assert Step(w1, Tick(REQUEST_RETRY_TIME)) == w2;
    var waits := w2.d.messages[1].retryTimer.value.waits;
    assert waits == [Waiting(REQUEST_RETRY_TIME)];
    assert MarkDue(waits, REQUEST_RETRY_TIME) == [Queued] + waits[1..];
    w := Step(w2, RetryDue(1));
    assert w.d.messages[1].retryTimer.value.waits[0] == Queued;
  }

  /** A run that broadcasts after a duplicate error. */
  lemma BroadcastAfterDuplicate(r: Request)
    requires |r.members| < SIZE_T_RANGE && r.policy != Fastest
    ensures var late := Run(QueuedRetry(r) + [Duplicate(1)] + [RetryRun(1, false)]);
            && Run(QueuedRetry(r)).Some? && |SendsOf(Run(QueuedRetry(r)).value.d.sends, 1)| == 1
            && late.Some? && |SendsOf(late.value.d.sends, 1)| == 2
  {
    var w := RetryIsQueued(r);
    hide Run, SendsOf, QueuedRetry, HasRetryTimer;
    var _ := DuplicateTooLate(QueuedRetry(r), w, 1);
  }

  /** The handler of a duplicate error meets the timer it cancels in every case but one: the request is
      pending and was sent as `fastest`, for which no timer is made. */
  lemma DuplicateFindsTimerIff(events: seq<Event>, w: World, n: Nonce)
    requires Reaches(events, w) && n != 0
    ensures HasTimerIfDuplicate(w.d, Some(SwarmError(DUPLICATE_ERROR_MSG, n))) <==>
            !(n in w.d.messages && IsIssued(w.d, n) && w.d.issued[n - 1].request.policy == Fastest)
  {
    RunKeeps(events, n);
  }

  /** So the first answer to a fastest request must not be a duplicate error. */
  lemma FastestDuplicate(r: Request)
    requires |r.members| < SIZE_T_RANGE && r.policy == Fastest
    ensures Run([Send(r)]).Some? && !HasTimerIfDuplicate(Run([Send(r)]).value.d, Some(SwarmError(DUPLICATE_ERROR_MSG, 1)))
  {
    RunStep([], Send(r));
    assert [] + [Send(r)] == [Send(r)];
  }

  // Signatures

  predicate IsAnswerTo(e: Event, n: Nonce) {
    e.Respond? && IsVote(e.env, n)
  }

  /** Each vote came in an accepted envelope that names the voter. */
  lemma {:induction false} VoteArrived(events: seq<Event>, n: Nonce, x: Uuid) returns (e: Event)
    requires x in Votes(events, n)
    ensures e in events && IsAnswerTo(e, n) && e.env.sender == x && e.env.body.value == Votes(events, n)[x]
  {
    var last := |events| - 1;
    if IsAnswerTo(events[last], n) && events[last].env.sender == x {
      e := events[last];
    } else {
      e := VoteArrived(events[..last], n, x);
    }
  }

  /** Signatures make a quorum sound. Let every signed answer to a request name a member, as the swarm sees
      to, and let every one that names a member who is not faulty have this kind and serialized form. Then so
      has the answer delivered, unless it is a quick read, which needs no signature. */
  lemma SignedAnswerIsSound(events: seq<Event>, w: World, c: Call, faulty: set<Uuid>, kind: ResponseCase, wire: string)
    requires Reaches(events, w) && c in w.d.calls && c.reply.FromSwarm?
    requires IsIssued(w.d, c.nonce) && w.d.issued[c.nonce - 1].request.policy != Fastest
    requires w.d.issued[c.nonce - 1].request.members != {}
    requires |faulty| <= FaultBound(|w.d.issued[c.nonce - 1].request.members|)
    requires forall e <- events | IsAnswerTo(e, c.nonce) && e.env.signed ::
               e.env.sender in w.d.issued[c.nonce - 1].request.members
    requires forall e <- events | IsAnswerTo(e, c.nonce) && e.env.signed ::
               e.env.sender in w.d.issued[c.nonce - 1].request.members - faulty ==>
                 e.env.body.value.kind == kind && e.env.body.value.wire == wire
    requires c.reply.response.kind != QuickRead
    ensures c.reply.response.kind == kind && c.reply.response.wire == wire
  {
    var k := DeliveredAnswerIsSound(events, w, c, faulty);
    var votes := Votes(events[..k + 1], c.nonce);
    hide Run, Votes;
    var x :| x in Sharing(votes, c.reply.response.kind, c.reply.response.wire) - faulty;
    var e := VoteArrived(events[..k + 1], c.nonce, x);
    assert e in events;
  }

  /** Unsigned answers in the names of these nodes. */
  function Forgeries(a: DbResponse, names: seq<Uuid>): (events: seq<Event>)
    ensures forall e <- events :: e.Respond? && !e.env.signed
  {
    if names == [] then []
    else Forgeries(a, names[..|names| - 1]) + [Respond(ResponseEnvelope(names[|names| - 1], false, Some(a)))]
  }

  /** The handler has been given this answer, or all these nodes' votes are for it. */
  ghost predicate IsForged(events: seq<Event>, w: World, a: DbResponse, names: set<Uuid>) {
    || Call(1, FromSwarm(a)) in w.d.calls
    || (1 in w.d.messages && Votes(events, 1) == map x | x in names :: a)
  }

  lemma OneMoreForgery(events: seq<Event>, w: World, r: Request, a: DbResponse, names: set<Uuid>, name: Uuid) returns (w': World)
    requires Reaches(events, w) && IsForged(events, w, a, names)
    requires a.kind == QuickRead && a.nonce == 1
    ensures var e := Respond(ResponseEnvelope(name, false, Some(a)));
            Reaches(events + [e], w') && IsForged(events + [e], w', a, names + {name})
    ensures w'.d.issued == w.d.issued
  {
    var e := Respond(ResponseEnvelope(name, false, Some(a)));
    RunStep(events, e);
    w' := Step(w, e);
    VotesStep(events, e, 1);
    hide Run, Votes, HasQuorum, Supporters;
    if 1 in w.d.messages {
      FiresOnFirstQuorum(events, w, e.env, 1);
      hide Step;
    }
  }

  /** Each unsigned quick read counts as the vote of the node it names, until the handler has been called. */
  lemma {:induction false} ForgeriesCount(r: Request, a: DbResponse, names: seq<Uuid>) returns (w: World)
    requires |r.members| < SIZE_T_RANGE && a.kind == QuickRead && a.nonce == 1
    ensures Reaches([Send(r)] + Forgeries(a, names), w) && w.d.issued == [Issue(r, EnvelopeFor(r, 1), 0)]
    ensures IsForged([Send(r)] + Forgeries(a, names), w, a, SetOf(names))
  {
    if names == [] {
      assert [Send(r)] + Forgeries(a, []) == [Send(r)] == [] + [Send(r)];
      w := FirstSend(r);
      VotesStep([], Send(r), 1);
    } else {
      var front, name := names[..|names| - 1], names[|names| - 1];
      var before := ForgeriesCount(r, a, front);
      w := OneMoreForgery([Send(r)] + Forgeries(a, front), before, r, a, SetOf(front), name);
      assert names == front + [name];
      assert SetOf(names) == SetOf(front) + {name};
      hide Run, IsForged;
      assert [Send(r)] + Forgeries(a, names) ==
             [Send(r)] + Forgeries(a, front) + [Respond(ResponseEnvelope(name, false, Some(a)))];
    }
  }

  /** A quick read that no member sent can be delivered for any request but a fastest one, to any swarm that
      has a node: unsigned envelopes with the members' names are enough. */
  lemma QuickReadsCanBeForged(r: Request, a: DbResponse, names: seq<Uuid>) returns (w: World)
    requires 1 <= |r.members| < SIZE_T_RANGE && r.policy != Fastest
    requires a.kind == QuickRead && a.nonce == 1 && SetOf(names) == r.members
    ensures Reaches([Send(r)] + Forgeries(a, names), w)
    ensures Call(1, FromSwarm(a)) in w.d.calls
  {
    w := ForgeriesCount(r, a, names);
    var events := [Send(r)] + Forgeries(a, names);
    RunKeeps(events, 1);
    hide Run, Votes, Forgeries;
    if Call(1, FromSwarm(a)) !in w.d.calls {
      NoPendingQuorum(events, w, 1, r.members, a.kind, a.wire);
    }
  }
}

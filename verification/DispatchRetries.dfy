/** The retries that do come: when a pending request is broadcast again, to the millisecond. */
module DispatchRetries {
  import opened Wrappers
  import opened DispatchModel
  import opened DispatchRuns
  import opened DispatchTheorems

  /** When the next retry is due, by the sends so far. */
  function DueTime(sends: seq<Sent>): nat
    requires sends != []
  {
    if |sends| == 1 then sends[0].at + 1500 else sends[|sends| - 1].at + 3000
  }

  /** Exactly one retry wait is outstanding: for the time the retry is due, or queued with that time past. */
  ghost predicate IsArmed(w: World, n: Nonce) {
    && HasRetryTimer(w.d, n) && SendsOf(w.d.sends, n) != []
    && var waits, due := w.d.messages[n].retryTimer.value.waits, DueTime(SendsOf(w.d.sends, n));
       waits == [Waiting(due)] || (waits == [Queued] && due <= w.now)
  }

  /** What takes a wait away: a duplicate error, or a completion that failed, that finds the request pending. */
  predicate Disturbs(w: World, e: Event, n: Nonce) {
    n in w.d.messages &&
    (e == RetryRun(n, true)
     || (e.Fail? && e.err.Some? && e.err.value.nonce == n && e.err.value.message == "DUPLICATE REQUEST"))
  }

  ghost predicate IsUndisturbed(events: seq<Event>, n: Nonce) {
    forall k | 0 <= k < |events| :: Run(events[..k]).Some? ==> !Disturbs(Run(events[..k]).value, events[k], n)
  }

  lemma OneWait(due: nat, now: nat)
    ensures MarkDue([Waiting(due)], now) == if due <= now then [Queued] else [Waiting(due)]
    ensures MarkDue([Queued], now) == [Queued] && TakeQueued([Queued]) == [] && KeepQueued([]) == []
  {
    assert [Waiting(due)][1..] == [] && [Queued][1..] == [];
    assert MarkDue([], now) == [];
  }

  /** A new request's first retry is due after 1500 ms. */
  lemma SendArms(w: World, r: Request, n: Nonce)
    requires NonceOk(w, n) && Enabled(w, Send(r)) && n == w.d.nextNonce && r.policy != Fastest
    ensures IsArmed(Step(w, Send(r)), n)
  {
    var sent := Sent(n, r.swarm, EnvelopeFor(r, n), r.policy, w.now);
    var w' := Step(w, Send(r));
    FirstWait(r.policy, w.now);
    SendsOfAppend(w.d.sends, sent, n);
    assert w'.d.sends == w.d.sends + [sent] && w'.d.messages[n].retryTimer == RetryTimerFor(r.policy, w.now);
    assert SendsOf(w.d.sends, n) == [] && w'.now == w.now && n in w'.d.messages;
    hide Step, SendsOf, CallsOf, NonceOk, RetryTimerFor, Enabled;
    assert SendsOf(w'.d.sends, n) == [] + [sent];
  }

  lemma FirstWait(policy: SendPolicy, now: nat)
    requires policy != Fastest
    ensures RetryTimerFor(policy, now) == Some(Timer(now + 1500, [Waiting(now + 1500)]))
  {
    assert KeepQueued([]) == [];
    assert [] + [Waiting(now + 1500)] == [Waiting(now + 1500)];
  }

  /** A retry that runs is a broadcast, and the next one is due 3000 ms later. */
  lemma RetryArms(w: World, n: Nonce)
    requires IsArmed(w, n) && Enabled(w, RetryRun(n, false))
    ensures var w' := Step(w, RetryRun(n, false));
            && IsArmed(w', n) && w'.now == w.now
            && SendsOf(w'.d.sends, n) ==
               SendsOf(w.d.sends, n) + [Sent(n, w.d.messages[n].swarm, w.d.messages[n].request, Broadcast, w.now)]
  {
    var info, w' := w.d.messages[n], Step(w, RetryRun(n, false));
    var sent := Sent(n, info.swarm, info.request, Broadcast, w.now);
    assert info.retryTimer.value.waits == [Queued];
    OneWait(0, 0);
    NextWait(info.retryTimer.value.expiry, w.now);
    assert w'.d.sends == w.d.sends + [sent];
    assert w'.d.messages[n].retryTimer == Some(Timer(w.now + 3000, [Waiting(w.now + 3000)]));
    hide Step, Enabled, SendsOf;
    SendsOfAppend(w.d.sends, sent, n);
  }

  lemma NextWait(expiry: nat, now: nat)
    ensures AsyncWait(ExpiresAt(Timer(expiry, []), now + 3000)) == Timer(now + 3000, [Waiting(now + 3000)])
  {
    assert KeepQueued([]) == [];
    assert [] + [Waiting(now + 3000)] == [Waiting(now + 3000)];
  }

  lemma DueArms(w: World, n: Nonce)
    requires IsArmed(w, n) && Enabled(w, RetryDue(n))
    ensures var w' := Step(w, RetryDue(n));
            && IsArmed(w', n) && n in w'.d.messages && w'.now == w.now && w'.d.sends == w.d.sends
            && w'.d.messages[n].swarm == w.d.messages[n].swarm && w'.d.messages[n].request == w.d.messages[n].request
            && (DueTime(SendsOf(w.d.sends, n)) <= w.now ==> Enabled(w', RetryRun(n, false)))
  {
    OneWait(DueTime(SendsOf(w.d.sends, n)), w.now);
    hide SendsOf, MarkDue, DueTime;
  }

  lemma SameArmed(w: World, w': World, n: Nonce)
    requires IsArmed(w, n) && n in w'.d.messages && w'.d.messages[n].retryTimer == w.d.messages[n].retryTimer
    requires SendsOf(w'.d.sends, n) == SendsOf(w.d.sends, n) && w'.now >= w.now
    ensures IsArmed(w', n)
  {
    hide SendsOf;
  }

  lemma TimerStays(w: World, e: Event, n: Nonce)
    requires NonceOk(w, n) && Enabled(w, e) && !Disturbs(w, e, n) && IsArmed(w, n) && n in Step(w, e).d.messages
    requires e != RetryDue(n) && e != RetryRun(n, false)
    ensures var w' := Step(w, e);
            w'.d.messages[n].retryTimer == w.d.messages[n].retryTimer && w'.now >= w.now
  {
    hide SendsOf, CallsOf, HasQuorum, Supporters, MarkDue, TakeQueued, KeepQueued, DueTime, NewInfo;
    if e.Fail? && e.err.Some? && e.err.value.nonce == n {
      assert e.err.value.message != DUPLICATE_ERROR_MSG;
    }
  }

  lemma NewlyArmed(w: World, e: Event, n: Nonce)
    requires NonceOk(w, n) && Enabled(w, e) && n !in w.d.messages && n in Step(w, e).d.messages
    requires IsIssued(Step(w, e).d, n) && Step(w, e).d.issued[n - 1].request.policy != Fastest
    ensures IsArmed(Step(w, e), n)
  {
    if IsIssued(w.d, n) {
      FinishedStays(w, e, n);
    } else {
      hide SendsOf, CallsOf, IsArmed;
      SendArms(w, e.request, n);
    }
  }

  lemma StaysArmed(w: World, e: Event, n: Nonce)
    requires NonceOk(w, n) && Enabled(w, e) && !Disturbs(w, e, n) && IsArmed(w, n) && n in Step(w, e).d.messages
    requires e != RetryDue(n) && e != RetryRun(n, false)
    ensures IsArmed(Step(w, e), n)
  {
    TimerStays(w, e, n);
    assert n != w.d.nextNonce && (e.RetryRun? ==> e.nonce != n);
    StepAppends(w, e, n);
    assert SendsOf(Step(w, e).d.sends, n) == SendsOf(w.d.sends, n);
    hide *;
    SameArmed(w, Step(w, e), n);
  }

  lemma ArmedStep(w: World, e: Event, n: Nonce)
    requires NonceOk(w, n) && Enabled(w, e) && !Disturbs(w, e, n) && n in Step(w, e).d.messages
    requires n in w.d.messages ==> IsArmed(w, n)
    requires IsIssued(Step(w, e).d, n) && Step(w, e).d.issued[n - 1].request.policy != Fastest
    ensures IsArmed(Step(w, e), n)
  {
    hide *;
    if n !in w.d.messages {
      NewlyArmed(w, e, n);
    } else if e == RetryRun(n, false) {
      RetryArms(w, n);
    } else if e == RetryDue(n) {
      DueArms(w, n);
    } else {
      StaysArmed(w, e, n);
    }
  }

  /** Over every run, while a request that is not fastest pends undisturbed, exactly one retry wait is
      outstanding: due 1500 ms after the request was sent, or 3000 ms after its last broadcast. */
  lemma {:induction false} RetryIsDue(events: seq<Event>, w: World, n: Nonce)
    requires Reaches(events, w) && n in w.d.messages
    requires IsIssued(w.d, n) && w.d.issued[n - 1].request.policy != Fastest
    requires IsUndisturbed(events, n)
    ensures IsArmed(w, n)
  {
    var prefix, e, before := LastStep(events, w);
    RunKeeps(prefix, n);
    assert IsUndisturbed(prefix, n) by {
      assert forall k | 0 <= k < |prefix| :: prefix[..k] == events[..k] && prefix[k] == events[k];
    }
    assert !Disturbs(before, e, n);
    hide Run, Step, Enabled, Disturbs;
    if n in before.d.messages {
      IssuesLast(before, e, n);
      RetryIsDue(prefix, before, n);
    }
    ArmedStep(before, e, n);
  }

  /** So the retry comes: once the clock has reached that time and the io thread runs, the request is
      broadcast, and the next retry is due 3000 ms later. */
  lemma RetryComes(events: seq<Event>, w: World, n: Nonce, ms: nat) returns (w': World)
    requires Reaches(events, w) && n in w.d.messages
    requires IsIssued(w.d, n) && w.d.issued[n - 1].request.policy != Fastest
    requires IsUndisturbed(events, n)
    requires SendsOf(w.d.sends, n) != [] ==> w.now + ms >= DueTime(SendsOf(w.d.sends, n))
    ensures Reaches(events + [Tick(ms)] + [RetryDue(n)] + [RetryRun(n, false)], w')
    ensures IsArmed(w', n) && w'.now == w.now + ms
    ensures SendsOf(w'.d.sends, n) ==
            SendsOf(w.d.sends, n) + [Sent(n, w.d.messages[n].swarm, w.d.messages[n].request, Broadcast, w.now + ms)]
  {
    hide *;
    RetryIsDue(events, w, n);
    var w1, w2 := ClockRuns(w, n, ms);
    w' := Step(w2, RetryRun(n, false));
    ThreeSteps(events, w, Tick(ms), w1, RetryDue(n), w2, RetryRun(n, false));
  }

  lemma ClockRuns(w: World, n: Nonce, ms: nat) returns (w1: World, w2: World)
    requires IsArmed(w, n) && n in w.d.messages
    requires SendsOf(w.d.sends, n) != [] ==> w.now + ms >= DueTime(SendsOf(w.d.sends, n))
    ensures Enabled(w, Tick(ms)) && w1 == Step(w, Tick(ms)) && Enabled(w1, RetryDue(n)) && w2 == Step(w1, RetryDue(n))
    ensures Enabled(w2, RetryRun(n, false))
    ensures var w' := Step(w2, RetryRun(n, false));
            && IsArmed(w', n) && w'.now == w.now + ms
            && SendsOf(w'.d.sends, n) ==
               SendsOf(w.d.sends, n) + [Sent(n, w.d.messages[n].swarm, w.d.messages[n].request, Broadcast, w.now + ms)]
  {
    hide *;
    w1 := ClockReaches(w, n, ms);
    DueArms(w1, n);
    w2 := Step(w1, RetryDue(n));
    RetryArms(w2, n);
  }

  lemma ClockReaches(w: World, n: Nonce, ms: nat) returns (w1: World)
    requires IsArmed(w, n)
    ensures Enabled(w, Tick(ms)) && w1 == Step(w, Tick(ms)) && w1.d == w.d && w1.now == w.now + ms
    ensures Enabled(w1, RetryDue(n)) && IsArmed(w1, n) && SendsOf(w.d.sends, n) != []
  {
    w1 := w.(now := w.now + ms);
    assert HasRetryTimer(w.d, n);
    hide SendsOf, DueTime;
    SameArmed(w, w1, n);
    hide IsArmed;
  }

  lemma ThreeSteps(events: seq<Event>, w: World, e: Event, w1: World, e1: Event, w2: World, e2: Event)
    requires Reaches(events, w) && Enabled(w, e) && w1 == Step(w, e)
    requires Enabled(w1, e1) && w2 == Step(w1, e1) && Enabled(w2, e2)
    ensures Reaches(events + [e] + [e1] + [e2], Step(w2, e2))
  {
    hide Run, Step, Enabled;
    RunStep(events, e);
    RunStep(events + [e], e1);
    RunStep(events + [e] + [e1], e2);
  }
}

/** Class `db_dispatch`: its handlers update the table of pending requests in place, and each takes
    exactly the transition `DispatchModel` defines for it. */
module DbDispatch {
  import opened Wrappers
  import opened Quorum
  import opened DispatchModel
  import opened DispatchRuns

  datatype TimerResult = Elapsed | Aborted | TimerError

  /** What ends the process: a timer that was never made is used. */
  datatype Crash = NullTimer

  class DbDispatch {
    var nextNonce: Nonce
    var messages: map<Nonce, MsgInfo>

    // history
    ghost var issued: seq<Issue>
    ghost var sends: seq<Sent>
    ghost var calls: seq<Call>
    ghost var dropped: set<Nonce>

    ghost function State(): Dispatch
      reads this
    {
      Dispatch(nextNonce, messages, issued, sends, calls, dropped)
    }

    /** No stored answer has a quorum: such a request would have been finished already. */
    ghost predicate Valid()
      reads this
    {
      forall n <- messages :: Unsettled(messages[n])
    }

    constructor ()
      ensures Valid() && State() == InitialDispatch()
    {
      nextNonce, messages := 1, map[];
      issued, sends, calls, dropped := [], [], [], {};
    }

    method SetupClientTimeout(info: MsgInfo, timeoutSeconds: nat, now: nat) returns (r: MsgInfo)
      ensures r == info.(timeoutAt := now + 1000 * timeoutSeconds)
    {
      r := info.(timeoutAt := now + 1000 * timeoutSeconds);
    }

    method SetupRequestPolicy(info: MsgInfo, policy: SendPolicy, nodeCount: nat, now: nat) returns (r: MsgInfo)
      ensures r == info.(policy := policy,
                         responsesRequired := if policy == Fastest then 1 else HonestMajoritySize(nodeCount),
                         retryTimer := if policy == Fastest then info.retryTimer else RetryTimerFor(policy, now))
    {
      r := info.(policy := policy);
      if policy != Fastest {
        r := r.(responsesRequired := HonestMajoritySize(nodeCount));
        var timer := Timer(0, []);
        timer := ExpiresAt(timer, now + REQUEST_RETRY_TIME);
        timer := AsyncWait(timer);
        r := r.(retryTimer := Some(timer));
      } else {
        r := r.(responsesRequired := 1);
      }
    }

    method SendMessageToSwarm(r: Request, now: nat)
      requires Valid()
      modifies this
      ensures Valid() && State() == SendMessage(old(State()), r, now)
    {
      var nonce := nextNonce;
      nextNonce := nextNonce + 1;
      var env := EnvelopeFor(r, nonce);
      var info := MsgInfo(r.swarm, env, r.policy, 0, None, 0, map[]);
      info := SetupClientTimeout(info, r.timeoutSeconds, now);
      info := SetupRequestPolicy(info, r.policy, |r.members|, now);
      assert forall v :: Supporters(info.responses, v) == {};
      messages := messages[nonce := info];
      issued := issued + [Issue(r, env, now)];
      sends := sends + [Sent(nonce, r.swarm, env, r.policy, now)];
    }

    method HandleRequestTimeout(ec: TimerResult, nonce: Nonce, now: nat)
      requires Valid()
      requires ec == Elapsed && nonce in messages ==> messages[nonce].retryTimer.Some?
      modifies this
      ensures Valid() && State() == if ec == Elapsed then Retry(old(State()), nonce, now) else old(State())
    {
      if ec == Aborted {
        return;
      }
      if ec == TimerError {
        return;
      }
      if nonce !in messages {
        return;
      }
      var info := messages[nonce];
      var timer := ExpiresAt(info.retryTimer.value, now + BROADCAST_RETRY_TIME);
      timer := AsyncWait(timer);
      messages := messages[nonce := info.(retryTimer := Some(timer))];
      sends := sends + [Sent(nonce, info.swarm, info.request, Broadcast, now)];
    }

    method HandleSwarmResponse(env: ResponseEnvelope) returns (close: bool)
      requires Valid()
      modifies this
      ensures Valid() && State() == Receive(old(State()), env)
      ensures close <==> env.body.None?
    {
      if env.body.None? {
        return true;
      }
      var response := env.body.value;
      var nonce := response.nonce;
      if nonce !in messages {
        return false;
      }
      if response.kind != QuickRead && !env.signed {
        return false;
      }
      NewestClassDecides(messages[nonce], env.sender, response);
      OneAnswerSuffices(messages[nonce]);
      messages := messages[nonce := Record(messages[nonce], env.sender, response)];
      var qualified := QualifyResponse(messages[nonce], env.sender);
      if qualified {
        calls := calls + [Call(nonce, FromSwarm(messages[nonce].responses[env.sender]))];
        messages := messages - {nonce};
        assert messages == old(messages) - {nonce};
      }
      return false;
    }

    /** Whether the connection closes; a duplicate error for a request without a retry timer is not survived. */
    method HandleSwarmError(err: Option<SwarmError>) returns (close: Result<bool, Crash>)
      requires Valid()
      modifies this
      ensures HasTimerIfDuplicate(old(State()), err) ==>
                && Valid() && State() == SwarmFailure(old(State()), err)
                && close == Success(err.None? || err.value.nonce == 0)
      ensures !HasTimerIfDuplicate(old(State()), err) ==> close == Failure(NullTimer) && State() == old(State())
    {
      if err.None? || err.value.nonce == 0 {
        return Success(true);
      }
      var nonce := err.value.nonce;
      if nonce !in messages {
        return Success(false);
      }
      if err.value.message == TIMESTAMP_ERROR_MSG {
        assert TIMESTAMP_ERROR_MSG[0] != DUPLICATE_ERROR_MSG[0];
        messages := messages - {nonce};
        dropped := dropped + {nonce};
      } else if err.value.message == TOO_LARGE_ERROR_MSG {
        assert TOO_LARGE_ERROR_MSG[0] != DUPLICATE_ERROR_MSG[0];
        messages := messages - {nonce};
        dropped := dropped + {nonce};
      } else if err.value.message == TOO_BUSY_ERROR_MSG {
        assert TOO_BUSY_ERROR_MSG[0] != DUPLICATE_ERROR_MSG[0];
      } else if err.value.message == DUPLICATE_ERROR_MSG {
        var info := messages[nonce];
        if info.retryTimer.None? {
          return Failure(NullTimer);
        }
        messages := messages[nonce := info.(retryTimer := Some(Cancel(info.retryTimer.value)))];
      }
      return Success(false);
    }

    method HandleClientTimeout(failed: bool, nonce: Nonce)
      requires Valid()
      modifies this
      ensures Valid() && State() == if failed then old(State()) else ClientTimeout(old(State()), nonce)
    {
      if !failed {
        if nonce in messages {
          calls := calls + [Call(nonce, FromClient(REQUEST_TIMEOUT_MSG))];
          messages := messages - {nonce};
        }
      }
    }
  }

  /** Counts the stored answers that match the newest one. */
  method QualifyResponse(info: MsgInfo, sender: Uuid) returns (qualified: bool)
    requires sender in info.responses && info.responsesRequired >= 1
    requires info.responsesRequired == 1 ==> |info.responses| == 1
    ensures qualified <==> Qualifies(info, sender)
  {
    ghost var all := Supporters(info.responses, info.responses[sender]);
    SubsetSize(all, info.responses.Keys);
    assert sender in all;
    var numResponses := |info.responses|;
    if numResponses < info.responsesRequired {
      return false;
    }
    if info.responsesRequired == 1 {
      assert numResponses == 1;
      return true;
    }
    var matches := 0;
    var rest := info.responses.Keys;
    while rest != {}
      invariant rest <= info.responses.Keys
      invariant matches == |all - rest| < info.responsesRequired
      decreases rest
    {
      var x :| x in rest;
      ghost var before := all - rest;
      rest := rest - {x};
      if ResponsesAreEqual(info.responses[x], info.responses[sender]) {
        assert all - rest == before + {x};
        SubsetSize(all - rest, all);
        matches := matches + 1;
        if matches >= info.responsesRequired {
          return true;
        }
      } else {
        assert all - rest == before;
      }
    }
    assert all - rest == all;
    return false;
  }
}

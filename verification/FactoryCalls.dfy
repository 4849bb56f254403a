/** One `has_db` or `create_db` call on the swarm factory, from its fan-out to its last callback, for a
    fixed list of registered swarms. */
module FactoryCalls {
  import opened KeyOrder
  import opened Wrappers

  const MAX_RETRY := 5

  type SwarmId = string

  datatype DbError =
    | DbSuccess | Uninitialized | ConnectionError | DatabaseError | TimeoutError | AlreadyExists | NoSpace | NoDatabase

  /** What the caller's callback is given. */
  datatype Reply = Reply(err: DbError, swarm: Option<SwarmId>)

  /** A call: whether it is to create, which swarms have yet to say whether they have the database, the
      shared counter, the swarm index of an outstanding create request, and the callback's calls so far. */
  datatype Call = Call(
    uuid: Uuid, creating: bool, waiting: set<SwarmId>, count: nat, attempt: Option<nat>, replies: seq<Reply>)

  function FirstRetry(swarmCount: nat): nat
    requires swarmCount >= 1
  {
    if MAX_RETRY < swarmCount - 1 then MAX_RETRY else swarmCount - 1
  }

  /** `do_create_db`: pick a swarm and ask it, unless it has no id. */
  function DoCreateDb(call: Call, retry: nat, ids: seq<SwarmId>): Call
    requires retry < |ids|
  {
    if ids[retry] == "" then call.(attempt := None, replies := call.replies + [Reply(NoSpace, None)])
    else call.(attempt := Some(retry))
  }

  /** What the answer of a lookup means to the caller: `create_db` goes on when there is no swarm. */
  function Deliver(call: Call, reply: Reply, ids: seq<SwarmId>): Call
    requires reply.swarm.None? ==> ids != []
  {
    if !call.creating then call.(replies := call.replies + [reply])
    else if reply.swarm.Some? then call.(replies := call.replies + [Reply(AlreadyExists, None)])
    else DoCreateDb(call, FirstRetry(|ids|), ids)
  }

  function Missed(uuid: Uuid, creating: bool, ids: seq<SwarmId>): Call {
    Call(uuid, creating, SetOf(ids), |ids|, None, [])
  }

  function Found(uuid: Uuid, creating: bool, id: SwarmId): Call {
    Deliver(Call(uuid, creating, {}, 0, None, []), Reply(DbSuccess, Some(id)), [])
  }

  datatype CallEvent =
    | HasAnswer(id: SwarmId, err: DbError)     // a swarm says whether it has the database
    | CreateAnswer(err: DbError)               // the swarm asked last says whether it created it

  predicate Possible(call: Call, e: CallEvent, ids: seq<SwarmId>) {
    match e
    case HasAnswer(id, _) => id in call.waiting && call.count > 0 && ids != []
    case CreateAnswer(_) => call.attempt.Some? && call.attempt.value < |ids|
  }

  function OnAnswer(call: Call, e: CallEvent, ids: seq<SwarmId>): Call
    requires Possible(call, e, ids)
  {
    match e
    case HasAnswer(id, err) =>
      var counted := call.(count := call.count - 1, waiting := call.waiting - {id});
      if err == DbSuccess then Deliver(counted, Reply(DbSuccess, Some(id)), ids)
      else if counted.count == 0 then Deliver(counted, Reply(NoDatabase, None), ids)
      else counted
    case CreateAnswer(err) =>
      var retry := call.attempt.value;
      if err == DbSuccess then
        call.(attempt := None, replies := call.replies + [Reply(DbSuccess, Some(ids[retry]))])
      else if retry > 0 then DoCreateDb(call, retry - 1, ids)
      else call.(attempt := None, replies := call.replies + [Reply(err, None)])
  }

  /** A call after a series of answers, if each could come when it did. */
  function After(call: Call, es: seq<CallEvent>, ids: seq<SwarmId>): Option<Call> {
    if es == [] then Some(call)
    else
      var before := After(call, es[..|es| - 1], ids);
      if before.Some? && Possible(before.value, es[|es| - 1], ids) then Some(OnAnswer(before.value, es[|es| - 1], ids)) else None
  }

  lemma AfterTwo(call: Call, first: CallEvent, second: CallEvent, ids: seq<SwarmId>)
    requires Possible(call, first, ids) && Possible(OnAnswer(call, first, ids), second, ids)
    ensures After(call, [first, second], ids) == Some(OnAnswer(OnAnswer(call, first, ids), second, ids))
  {
    assert [first, second][..1] == [first] && [first][..0] == [];
    assert After(call, [first], ids) == Some(OnAnswer(call, first, ids));
  }

  // The fan-out

  /** The replies of a lookup that missed, read off the answers: each success as it comes, and
      `no_database` at the end when the last answer is a failure. */
  function Successes(es: seq<CallEvent>): seq<Reply> {
    if es == [] then []
    else
      var last := es[|es| - 1];
      Successes(es[..|es| - 1]) + if last.HasAnswer? && last.err == DbSuccess then [Reply(DbSuccess, Some(last.id))] else []
  }

  function LookupReplies(es: seq<CallEvent>, swarmCount: nat): seq<Reply> {
    Successes(es) + if |es| == swarmCount > 0 && es[|es| - 1].err != DbSuccess then [Reply(NoDatabase, None)] else []
  }

  function Answered(es: seq<CallEvent>): set<SwarmId> {
    set e | e in es && e.HasAnswer? :: e.id
  }

  lemma {:induction false} SuccessesAreAnswers(es: seq<CallEvent>)
    ensures |Successes(es)| <= |es|
    ensures forall r <- Successes(es) :: r.err == DbSuccess && r.swarm.Some? && HasAnswer(r.swarm.value, DbSuccess) in es
    ensures Successes(es) == [] <==> forall e <- es :: e.HasAnswer? ==> e.err != DbSuccess
  {
    if es != [] {
      var last := |es| - 1;
      SuccessesAreAnswers(es[..last]);
      assert es == es[..last] + [es[last]];
    }
  }

  /** During the fan-out the counter is the number of swarms yet to answer, so it never underflows, and the
      callback's calls are the successes in arrival order, then `no_database` if the last answer failed. */
  lemma {:induction false} FanOut(uuid: Uuid, ids: seq<SwarmId>, es: seq<CallEvent>, call: Call)
    requires IsListing(ids) && After(Missed(uuid, false, ids), es, ids) == Some(call)
    ensures call.count == |call.waiting| == |ids| - |es|
    ensures call.uuid == uuid && !call.creating && call.attempt.None?
    ensures forall e <- es :: e.HasAnswer?
    ensures call.replies == LookupReplies(es, |ids|)
  {
    ListingSize(ids);
    if es != [] {
      var last := |es| - 1;
      var before := After(Missed(uuid, false, ids), es[..last], ids).value;
      FanOut(uuid, ids, es[..last], before);
      assert es == es[..last] + [es[last]];
    }
  }

  /** When every swarm has answered: the caller hears `no_database` and nothing else exactly when no swarm
      has the database; and the callback is called exactly once exactly when that is so or when the only
      success came last. With one swarm it always is. */
  lemma LookupCalledOnceIff(uuid: Uuid, ids: seq<SwarmId>, es: seq<CallEvent>, call: Call)
    requires IsListing(ids) && ids != [] && |es| == |ids|
    requires After(Missed(uuid, false, ids), es, ids) == Some(call)
    ensures call.replies == [Reply(NoDatabase, None)] <==> forall e <- es :: e.HasAnswer? ==> e.err != DbSuccess
    ensures |call.replies| == 1 <==>
            (forall e <- es[..|es| - 1] :: e.HasAnswer? ==> e.err != DbSuccess)
    ensures |ids| == 1 ==> |call.replies| == 1
  {
    var last := |es| - 1;
    FanOut(uuid, ids, es, call);
    SuccessesAreAnswers(es);
    SuccessesAreAnswers(es[..last]);
    assert es[last] in es;
  }

  function Reported(n: nat): seq<Reply> {
    seq(n, _ => Reply(AlreadyExists, None))
  }

  /** In `create_db` each swarm that has the database is reported as such, and creation starts exactly when
      all swarms have answered and the last answer was a failure, whatever was reported before. */
  lemma {:induction false} CreateFanOut(uuid: Uuid, ids: seq<SwarmId>, es: seq<CallEvent>, call: Call)
    requires IsListing(ids) && ids != [] && |es| <= |ids|
    requires After(Missed(uuid, true, ids), es, ids) == Some(call)
    ensures call.count == |call.waiting| == |ids| - |es|
    ensures forall e <- es :: e.HasAnswer?
    ensures var base := Call(uuid, true, call.waiting, call.count, None, Reported(|Successes(es)|));
            call == if |es| == |ids| && es[|es| - 1].err != DbSuccess then DoCreateDb(base, FirstRetry(|ids|), ids) else base
  {
    ListingSize(ids);
    if es != [] {
      var last := |es| - 1;
      var before := After(Missed(uuid, true, ids), es[..last], ids).value;
      CreateFanOut(uuid, ids, es[..last], before);
      assert es == es[..last] + [es[last]];
      hide After, DoCreateDb, FirstRetry, SetOf, IsListing;
      CreateFanOutStep(before, es[last], ids, |Successes(es[..last])|);
    }
  }

  lemma CreateFanOutStep(before: Call, e: CallEvent, ids: seq<SwarmId>, n: nat)
    requires before.creating && before.attempt.None? && before.replies == Reported(n) && before.count == |before.waiting|
    requires ids != [] && Possible(before, e, ids)
    ensures var after := OnAnswer(before, e, ids);
            && e.HasAnswer? && after.waiting == before.waiting - {e.id} && after.count == |after.waiting| == before.count - 1
            && var base := before.(waiting := after.waiting, count := after.count,
                                   replies := Reported(if e.err == DbSuccess then n + 1 else n));
               after == if e.err != DbSuccess && after.count == 0 then DoCreateDb(base, FirstRetry(|ids|), ids) else base
  {
    assert Reported(n) + [Reply(AlreadyExists, None)] == Reported(n + 1);
  }

  /** The promise of one callback is false with two swarms: one that has the database, then one that does
      not, make it two. The same answers make `create_db` report the database and then try to create it. */
  lemma TwoCallbacks(uuid: Uuid, a: SwarmId, b: SwarmId)
    requires a != b && b != ""
    ensures var es := [HasAnswer(a, DbSuccess), HasAnswer(b, DatabaseError)];
            var found, made := After(Missed(uuid, false, [a, b]), es, [a, b]), After(Missed(uuid, true, [a, b]), es, [a, b]);
            && found.Some? && found.value.replies == [Reply(DbSuccess, Some(a)), Reply(NoDatabase, None)]
            && made.Some? && made.value.replies == [Reply(AlreadyExists, None)] && made.value.attempt == Some(1)
  {
    var ids, first, second := [a, b], HasAnswer(a, DbSuccess), HasAnswer(b, DatabaseError);
    assert SetOf(ids) == {a, b};
    AfterTwo(Missed(uuid, false, ids), first, second, ids);
    AfterTwo(Missed(uuid, true, ids), first, second, ids);
  }

  // Creation

  /** The position of the last swarm without an id among the first `r + 1`, or -1. */
  function LastNameless(ids: seq<SwarmId>, r: int): (e: int)
    requires -1 <= r < |ids|
    ensures -1 <= e <= r
    ensures e >= 0 ==> ids[e] == ""
    ensures forall i | e < i <= r :: ids[i] != ""
  {
    if r < 0 || ids[r] == "" then r else LastNameless(ids, r - 1)
  }

  /** The most create requests a creation starting at this index can make. */
  function AttemptLimit(ids: seq<SwarmId>, r: nat): (limit: nat)
    requires r < |ids|
    ensures limit <= r + 1
  {
    r - LastNameless(ids, r)
  }

  function Errors(es: seq<CallEvent>): seq<DbError> {
    seq(|es|, i requires 0 <= i < |es| => es[i].err)
  }

  /** What the caller of a creation has been told after these answers. */
  function CreationReplies(ids: seq<SwarmId>, r: nat, errors: seq<DbError>): seq<Reply>
    requires r < |ids| && |errors| <= AttemptLimit(ids, r)
  {
    var k := |errors|;
    if k > 0 && errors[k - 1] == DbSuccess then [Reply(DbSuccess, Some(ids[r - (k - 1)]))]
    else if k < AttemptLimit(ids, r) then []
    else if LastNameless(ids, r) >= 0 then [Reply(NoSpace, None)]
    else [Reply(errors[k - 1], None)]
  }

  /** Creation from index `r`: the k-th request goes to the swarm at index `r - k`, the requests stop at the
      first success or when the list is used up, and the caller is told exactly then, once: the swarm that
      succeeded, or else an error. */
  lemma {:induction false} Creation(start: Call, r: nat, ids: seq<SwarmId>, es: seq<CallEvent>, call: Call)
    requires r < |ids| && start.attempt.None? && start.waiting == {}
    requires After(DoCreateDb(start, r, ids), es, ids) == Some(call)
    ensures |es| <= AttemptLimit(ids, r)
    ensures forall i | 0 <= i < |es| - 1 :: es[i].err != DbSuccess
    ensures call.replies == start.replies + CreationReplies(ids, r, Errors(es))
    ensures call.attempt == if CreationReplies(ids, r, Errors(es)) == [] then Some(r - |es|) else None
    ensures call.waiting == {}
  {
    if es == [] {
      assert Errors(es) == [];
    } else {
      var last := |es| - 1;
      var before := After(DoCreateDb(start, r, ids), es[..last], ids).value;
      Creation(start, r, ids, es[..last], before);
      assert Errors(es) == Errors(es[..last]) + [es[last].err];
      hide After, Errors, DoCreateDb, OnAnswer, Possible;
      assert before.replies == start.replies;
      CreationStep(start, r, ids, Errors(es[..last]), before, es[last]);
    }
  }

  lemma CreationStep(start: Call, r: nat, ids: seq<SwarmId>, errors: seq<DbError>, before: Call, e: CallEvent)
    requires r < |ids| && |errors| < AttemptLimit(ids, r) && start.attempt.None?
    requires CreationReplies(ids, r, errors) == [] && before.replies == start.replies
    requires before.attempt == Some(r - |errors|) && before.waiting == {} && Possible(before, e, ids)
    ensures errors != [] ==> errors[|errors| - 1] != DbSuccess
    ensures var call, told := OnAnswer(before, e, ids), CreationReplies(ids, r, errors + [e.err]);
            && call.replies == start.replies + told
            && call.attempt == (if told == [] then Some(r - |errors| - 1) else None)
            && call.waiting == {}
  {
  }

  /** Creation as `create_db` starts it, when every swarm has an id and every request is answered: at most
      six requests, one callback, and that is a success exactly when some request succeeded. */
  lemma {:induction false} CreationCompletes(start: Call, ids: seq<SwarmId>, es: seq<CallEvent>, call: Call)
    requires ids != [] && "" !in ids && start.attempt.None? && start.waiting == {}
    requires After(DoCreateDb(start, FirstRetry(|ids|), ids), es, ids) == Some(call) && call.attempt.None?
    ensures 1 <= |es| <= 6 && |es| <= |ids|
    ensures FirstRetry(|ids|) == if |ids| <= 6 then |ids| - 1 else 5
    ensures |call.replies| == |start.replies| + 1
    ensures var reply := call.replies[|start.replies|];
            (reply.err == DbSuccess && reply.swarm == Some(ids[FirstRetry(|ids|) + 1 - |es|])) <==> exists e <- es :: e.err == DbSuccess
    ensures call.replies[|start.replies|].err == DbSuccess <==> call.replies[|start.replies|].swarm.Some?
  {
    var r := FirstRetry(|ids|);
    Creation(start, r, ids, es, call);
    assert LastNameless(ids, r) == -1;
    if e :| e in es && e.err == DbSuccess {
      var i :| 0 <= i < |es| && es[i] == e;
      assert i == |es| - 1;
    }
  }

  // The whole of `create_db`

  lemma {:induction false} NothingToAnswer(call: Call, es: seq<CallEvent>, ids: seq<SwarmId>)
    requires call.waiting == {} && call.attempt.None? && After(call, es, ids).Some?
    ensures es == []
  {
    if es != [] {
      NothingToAnswer(call, es[..|es| - 1], ids);
    }
  }

  lemma {:induction false} AfterSplit(start: Call, es: seq<CallEvent>, n: nat, ids: seq<SwarmId>)
    requires n <= |es| && After(start, es, ids).Some?
    ensures After(start, es[..n], ids).Some?
    ensures After(start, es, ids) == After(After(start, es[..n], ids).value, es[n..], ids)
  {
    if n == |es| {
      assert es[..n] == es && es[n..] == [];
    } else {
      var last := |es| - 1;
      AfterSplit(start, es[..last], n, ids);
      assert es[..last][..n] == es[..n] && es[..last][n..] == es[n..][..last - n];
      hide OnAnswer, Possible;
    }
  }

  /** A `create_db` that missed the cache, from its first lookup answer to its last create answer. */
  lemma CreateCall(uuid: Uuid, ids: seq<SwarmId>, es: seq<CallEvent>, call: Call)
    requires IsListing(ids) && ids != [] && After(Missed(uuid, true, ids), es, ids) == Some(call)
    ensures var n := |ids|;
            if |es| < n || es[n - 1].err == DbSuccess then |es| <= n && call.replies == Reported(|Successes(es)|)
            else && |es| - n <= AttemptLimit(ids, FirstRetry(n))
                 && call.replies == Reported(|Successes(es[..n])|) + CreationReplies(ids, FirstRetry(n), Errors(es[n..]))
  {
    var n := |ids|;
    if |es| < n {
      CreateFanOut(uuid, ids, es, call);
    } else {
      AfterSplit(Missed(uuid, true, ids), es, n, ids);
      var asked := After(Missed(uuid, true, ids), es[..n], ids).value;
      CreateFanOut(uuid, ids, es[..n], asked);
      hide After, CreationReplies, AttemptLimit;
      if es[n - 1].err == DbSuccess {
        NothingToAnswer(asked, es[n..], ids);
        assert es[..n] == es;
      } else {
        var base := Call(uuid, true, {}, 0, None, Reported(|Successes(es[..n])|));
        assert asked.waiting == {};
        Creation(base, FirstRetry(n), ids, es[n..], call);
      }
    }
  }
}

/** What holds of the swarm factory over every run after one initialisation. */
module FactoryTheorems {
  import opened Wrappers
  import opened FactoryCalls
  import opened KeyOrder
  import opened FactoryModel

  /** The factory as initialised from a list of swarms, with the listing of its registry in key order. */
  function Initial(list: SwarmList, ids: seq<SwarmId>): Factory {
    Factory(RegistryOf(list), ids, map[], map[], 0, [])
  }

  predicate ListsRegistry(ids: seq<SwarmId>, list: SwarmList) {
    IsListing(ids) && SetOf(ids) == RegistryOf(list).Keys
  }

  lemma InitialOk(list: SwarmList, ids: seq<SwarmId>)
    requires ListsRegistry(ids, list)
    ensures Inv(Initial(list, ids))
  {
    var reg := RegistryOf(list);
    forall id <- reg ensures reg[id].nodes != map[] && reg[id].swarm.None? {
      RegistryHoldsList(list, id);
      var nodes := NodesListed(list, id);
      assert FirstEndpoint(nodes, nodes[0].0).Some?;
    }
  }

  /** The state after a run, if every event in it was possible when it came. */
  function Run(list: SwarmList, ids: seq<SwarmId>, events: seq<Event>): (r: Option<Factory>)
    requires ListsRegistry(ids, list)
    ensures r.Some? ==> Inv(r.value)
  {
    if events == [] then
      InitialOk(list, ids);
      Some(Initial(list, ids))
    else
      var last := |events| - 1;
      var before := Run(list, ids, events[..last]);
      if before.Some? && Enabled(before.value, events[last]) then Some(Step(before.value, events[last])) else None
  }

  ghost predicate Reaches(list: SwarmList, ids: seq<SwarmId>, events: seq<Event>, f: Factory) {
    ListsRegistry(ids, list) && Run(list, ids, events) == Some(f)
  }

  // What a run's events say by themselves

  /** The database each call is about. */
  function Lookups(events: seq<Event>): seq<Uuid> {
    if events == [] then []
    else
      var last := |events| - 1;
      Lookups(events[..last]) + if events[last].Lookup? then [events[last].uuid] else []
  }

  /** The answers a call got. */
  function AnswersTo(events: seq<Event>, c: nat): seq<CallEvent> {
    if events == [] then []
    else
      var last := |events| - 1;
      var e := events[last];
      AnswersTo(events[..last], c) + if (e.Has? || e.Created?) && e.call == c then [AnswerOf(e)] else []
  }

  /** The swarm that last said it has, or has created, this database. */
  function LatestPositive(events: seq<Event>, u: Uuid): Option<SwarmId> {
    if events == [] then None
    else
      var last := |events| - 1;
      var e, asked := events[last], Lookups(events[..last]);
      if (e.Has? || e.Created?) && e.err == DbSuccess && e.call < |asked| && asked[e.call] == u then Some(e.id)
      else LatestPositive(events[..last], u)
  }

  /** What one event does to the calls, the cache, and what never changes. */
  lemma StepEffects(f: Factory, e: Event)
    requires Inv(f) && Enabled(f, e)
    ensures var g := Step(f, e);
            && g.ids == f.ids && g.registry.Keys == f.registry.Keys
            && (forall id <- f.registry :: g.registry[id].nodes == f.registry[id].nodes)
            && (e.Lookup? ==>
                  && g.swarmDbs == f.swarmDbs
                  && g.calls == f.calls + [if e.uuid in f.swarmDbs then Found(e.uuid, e.creating, f.swarmDbs[e.uuid])
                                           else Missed(e.uuid, e.creating, f.ids)])
            && (e.Release? ==> g.swarmDbs == f.swarmDbs && g.calls == f.calls)
            && (e.Has? || e.Created? ==>
                  && e.call < |f.calls| && Possible(f.calls[e.call], AnswerOf(e), f.ids)
                  && g.calls == f.calls[e.call := OnAnswer(f.calls[e.call], AnswerOf(e), f.ids)]
                  && g.swarmDbs == if e.err == DbSuccess then f.swarmDbs[f.calls[e.call].uuid := e.id] else f.swarmDbs)
  {
    if e.Lookup? {
      if e.uuid in f.swarmDbs {
        CreatesOne(f, f.swarmDbs[e.uuid]);
      } else {
        assert forall id <- f.ids :: id in SetOf(f.ids);
        CreatesAll(f, f.ids);
      }
    } else if !e.Release? {
      EnabledIsPossible(f, e);
      AnswerEffects(f, e);
    }
  }

  lemma LiveEffects(f: Factory, call: Call)
    requires call.attempt.Some? ==> call.attempt.value < |f.ids| && f.ids[call.attempt.value] in f.registry
    ensures var g := LiveForAttempt(f, call);
            && g.ids == f.ids && g.registry.Keys == f.registry.Keys && g.swarmDbs == f.swarmDbs && g.calls == f.calls
            && forall id <- f.registry :: g.registry[id].nodes == f.registry[id].nodes
  {
  }

  lemma AnswerEffects(f: Factory, e: Event)
    requires Inv(f) && Enabled(f, e) && (e.Has? || e.Created?)
    requires e.call < |f.calls| && Possible(f.calls[e.call], AnswerOf(e), f.ids)
    ensures var g := Answer(f, e.call, AnswerOf(e), e.id);
            && g.ids == f.ids && g.registry.Keys == f.registry.Keys
            && (forall id <- f.registry :: g.registry[id].nodes == f.registry[id].nodes)
            && g.calls == f.calls[e.call := OnAnswer(f.calls[e.call], AnswerOf(e), f.ids)]
            && g.swarmDbs == if e.err == DbSuccess then f.swarmDbs[f.calls[e.call].uuid := e.id] else f.swarmDbs
  {
    hide OnAnswer, ObjectsOk, HasLive, LiveForAttempt, Enabled, CallOk, CacheOk;
    assert AnswerOf(e).err == e.err;
    var cached := if e.err == DbSuccess then f.(swarmDbs := f.swarmDbs[f.calls[e.call].uuid := e.id]) else f;
    var call := OnAnswer(f.calls[e.call], AnswerOf(e), f.ids);
    if call.attempt.Some? && call.attempt.value < |f.ids| {
      assert f.ids[call.attempt.value] in SetOf(f.ids);
      LiveEffects(cached, call);
    }
  }

  lemma SameUuid(call: Call, e: CallEvent, ids: seq<SwarmId>)
    requires Possible(call, e, ids)
    ensures OnAnswer(call, e, ids).uuid == call.uuid && OnAnswer(call, e, ids).creating == call.creating
  {
  }

  /** The last event of a run was possible, and led to where the run ends. */
  lemma LastEvent(list: SwarmList, ids: seq<SwarmId>, events: seq<Event>, f: Factory) returns (before: Factory)
    requires events != [] && Reaches(list, ids, events, f)
    ensures Reaches(list, ids, events[..|events| - 1], before) && Inv(before)
    ensures Enabled(before, events[|events| - 1]) && f == Step(before, events[|events| - 1])
  {
    before := Run(list, ids, events[..|events| - 1]).value;
  }

  lemma NoCallsYet(list: SwarmList, ids: seq<SwarmId>, events: seq<Event>, f: Factory)
    requires Reaches(list, ids, events, f) && f.calls != []
    ensures events != []
  {
  }

  predicate Answers(e: Event, c: nat) {
    (e.Has? || e.Created?) && e.call == c
  }

  /** One event's part in a call: an answer to it, its start, or none. */
  lemma CallStep(f: Factory, e: Event, c: nat)
    requires Inv(f) && Enabled(f, e) && c < |Step(f, e).calls|
    ensures var g := Step(f, e);
            if c < |f.calls| then
              && g.calls[c].uuid == f.calls[c].uuid && g.calls[c].creating == f.calls[c].creating
              && (Answers(e, c) ==> Possible(f.calls[c], AnswerOf(e), f.ids) && g.calls[c] == OnAnswer(f.calls[c], AnswerOf(e), f.ids))
              && (!Answers(e, c) ==> g.calls[c] == f.calls[c])
            else e.Lookup? && c == |f.calls| && |g.calls| == c + 1 && g.calls[c].uuid == e.uuid && g.calls[c].creating == e.creating
  {
    StepEffects(f, e);
    hide Step, Enabled, Inv;
    if Answers(e, c) && c < |f.calls| {
      SameUuid(f.calls[c], AnswerOf(e), f.ids);
    }
    hide OnAnswer, Possible;
  }

  lemma {:induction false} CallsMatchLookups(list: SwarmList, ids: seq<SwarmId>, events: seq<Event>, f: Factory)
    requires Reaches(list, ids, events, f)
    ensures f.ids == ids && |f.calls| == |Lookups(events)|
    ensures forall c | 0 <= c < |f.calls| :: f.calls[c].uuid == Lookups(events)[c]
  {
    if events != [] {
      var last := |events| - 1;
      var before := Run(list, ids, events[..last]).value;
      CallsMatchLookups(list, ids, events[..last], before);
      StepEffects(before, events[last]);
      var e := events[last];
      if e.Has? || e.Created? {
        SameUuid(before.calls[e.call], AnswerOf(e), ids);
      }
      hide Step, Enabled, Run, Inv, OnAnswer;
    }
  }

  /** Only a positive answer changes what the cache holds for a database. */
  lemma CacheStep(f: Factory, e: Event, u: Uuid)
    requires Inv(f) && Enabled(f, e)
    ensures var g, news := Step(f, e), (e.Has? || e.Created?) && e.err == DbSuccess;
            && (news ==> e.call < |f.calls|)
            && (news && f.calls[e.call].uuid == u ==> u in g.swarmDbs && g.swarmDbs[u] == e.id)
            && (!(news && f.calls[e.call].uuid == u) ==>
                  (u in g.swarmDbs <==> u in f.swarmDbs) && (u in f.swarmDbs ==> g.swarmDbs[u] == f.swarmDbs[u]))
  {
    StepEffects(f, e);
    hide Step, Enabled, Inv, OnAnswer, Possible;
  }

  lemma LatestStep(events: seq<Event>, u: Uuid)
    requires events != []
    ensures var last := |events| - 1;
            var e, asked := events[last], Lookups(events[..last]);
            LatestPositive(events, u) ==
            if (e.Has? || e.Created?) && e.err == DbSuccess && e.call < |asked| && asked[e.call] == u then Some(e.id)
            else LatestPositive(events[..last], u)
  {
  }

  /** The cache holds, for each database, the swarm that last gave a positive answer for it, and nothing
      else; every swarm it names is registered. */
  lemma {:induction false} CacheIsLatestAnswer(list: SwarmList, ids: seq<SwarmId>, events: seq<Event>, f: Factory, u: Uuid)
    requires Reaches(list, ids, events, f)
    ensures LatestPositive(events, u) == if u in f.swarmDbs then Some(f.swarmDbs[u]) else None
    ensures LatestPositive(events, u).Some? ==> LatestPositive(events, u).value in RegistryOf(list)
  {
    RegistryIsFixed(list, ids, events, f, "");
    if events != [] {
      var last := |events| - 1;
      var before := Run(list, ids, events[..last]).value;
      CacheIsLatestAnswer(list, ids, events[..last], before, u);
      CallsMatchLookups(list, ids, events[..last], before);
      CacheStep(before, events[last], u);
      LatestStep(events, u);
      assert CacheOk(f);
      hide *;
    }
  }

  /** Registered swarms and their nodes stay those of the list, each with at least one node; and two live
      swarm objects never have the same id. */
  lemma {:induction false} RegistryIsFixed(list: SwarmList, ids: seq<SwarmId>, events: seq<Event>, f: Factory, id: SwarmId)
    requires Reaches(list, ids, events, f)
    ensures f.registry.Keys == RegistryOf(list).Keys
    ensures id in f.registry <==> NodesListed(list, id) != []
    ensures id in f.registry ==> f.registry[id].nodes != map[]
    ensures id in f.registry ==>
              forall n :: FirstEndpoint(NodesListed(list, id), n)
                       == if n in f.registry[id].nodes then Some(f.registry[id].nodes[n]) else None
    ensures forall r, r' | r in f.alive && r' in f.alive && r != r' :: f.alive[r] != f.alive[r']
  {
    RegistryHoldsList(list, id);
    if events != [] {
      var last := |events| - 1;
      var before := Run(list, ids, events[..last]).value;
      RegistryIsFixed(list, ids, events[..last], before, id);
      StepEffects(before, events[last]);
      assert ObjectsOk(f) && RegistryOk(f);
      hide Step, Enabled, Run, OnAnswer;
    }
  }

  lemma AnswersStep(events: seq<Event>, c: nat)
    requires events != []
    ensures var e, earlier := events[|events| - 1], AnswersTo(events[..|events| - 1], c);
            AnswersTo(events, c) == if Answers(e, c) then earlier + [AnswerOf(e)] else earlier
  {
  }

  lemma AfterStep(start: Call, es: seq<CallEvent>, e: CallEvent, ids: seq<SwarmId>, call: Call)
    requires After(start, es, ids) == Some(call) && Possible(call, e, ids)
    ensures After(start, es + [e], ids) == Some(OnAnswer(call, e, ids))
  {
    assert (es + [e])[..|es|] == es;
  }

  /** The k-th event is the lookup that made the c-th call. */
  predicate IsLookupOf(events: seq<Event>, k: nat, c: nat) {
    k < |events| && events[k].Lookup? && |Lookups(events[..k])| == c
  }

  /** How a call starts, by the events before its lookup: the swarm that last gave a positive answer for the
      database is reported at once, and when there is none every swarm is asked. */
  function StartAt(events: seq<Event>, k: nat, ids: seq<SwarmId>): Call
    requires k < |events| && events[k].Lookup?
  {
    match LatestPositive(events[..k], events[k].uuid)
    case Some(id) => Found(events[k].uuid, events[k].creating, id)
    case None => Missed(events[k].uuid, events[k].creating, ids)
  }

  lemma StartOfLast(list: SwarmList, ids: seq<SwarmId>, events: seq<Event>, f: Factory)
    requires Reaches(list, ids, events, f) && events != [] && events[|events| - 1].Lookup?
    ensures var k := |events| - 1;
            f.calls != [] && IsLookupOf(events, k, |f.calls| - 1) && f.calls[|f.calls| - 1] == StartAt(events, k, ids)
  {
    var last := |events| - 1;
    var before := Run(list, ids, events[..last]).value;
    CallsMatchLookups(list, ids, events[..last], before);
    CacheIsLatestAnswer(list, ids, events[..last], before, events[last].uuid);
    StepEffects(before, events[last]);
    hide Step, Enabled, Run, Inv, Found, Missed, LatestPositive, Lookups;
  }

  /** Each call goes its own way: its state is what its own answers make of how it started. */
  lemma {:induction false} CallsRunAlone(list: SwarmList, ids: seq<SwarmId>, events: seq<Event>, f: Factory, c: nat)
    returns (k: nat)
    requires Reaches(list, ids, events, f) && c < |f.calls|
    ensures IsLookupOf(events, k, c)
    ensures events[k].uuid == f.calls[c].uuid && events[k].creating == f.calls[c].creating
    ensures After(StartAt(events, k, ids), AnswersTo(events, c), ids) == Some(f.calls[c])
  {
    NoCallsYet(list, ids, events, f);
    var last := |events| - 1;
    var e := events[last];
    assert Answers(e, c) ==> e.Has? || e.Created?;
    hide *;
    var before := LastEvent(list, ids, events, f);
    CallsMatchLookups(list, ids, events[..last], before);
    CallStep(before, e, c);
    AnswersStep(events, c);
    if c < |before.calls| {
      k := CallsRunAlone(list, ids, events[..last], before, c);
      PrefixStart(events, k, c, ids);
      if Answers(e, c) {
        AfterStep(StartAt(events, k, ids), AnswersTo(events[..last], c), AnswerOf(e), ids, before.calls[c]);
      }
    } else {
      k := last;
      StartOfLast(list, ids, events, f);
      NoAnswersYet(list, ids, events[..last], before, c);
      AfterNothing(f.calls[c], ids);
    }
  }

  lemma AfterNothing(start: Call, ids: seq<SwarmId>)
    ensures After(start, [], ids) == Some(start)
  {
  }

  lemma PrefixStart(events: seq<Event>, k: nat, c: nat, ids: seq<SwarmId>)
    requires events != [] && IsLookupOf(events[..|events| - 1], k, c)
    ensures IsLookupOf(events, k, c) && events[k] == events[..|events| - 1][k]
    ensures StartAt(events, k, ids) == StartAt(events[..|events| - 1], k, ids)
  {
    assert events[..|events| - 1][..k] == events[..k];
  }

  lemma {:induction false} NoAnswersYet(list: SwarmList, ids: seq<SwarmId>, events: seq<Event>, f: Factory, c: nat)
    requires Reaches(list, ids, events, f) && c >= |f.calls|
    ensures AnswersTo(events, c) == []
  {
    if events != [] {
      var last := |events| - 1;
      var before := Run(list, ids, events[..last]).value;
      StepEffects(before, events[last]);
      NoAnswersYet(list, ids, events[..last], before, c);
    }
  }

  /** Over every run, what a lookup has told its caller: the swarm that last gave a positive answer for the
      database before the lookup came; or, if there was none, each success as it arrived and then, if the last
      swarm's answer is a failure, that there is no database. */
  lemma LookupsReport(list: SwarmList, ids: seq<SwarmId>, events: seq<Event>, f: Factory, c: nat) returns (k: nat)
    requires Reaches(list, ids, events, f) && c < |f.calls| && !f.calls[c].creating
    ensures IsLookupOf(events, k, c) && events[k].uuid == f.calls[c].uuid
    ensures f.calls[c].replies ==
            match LatestPositive(events[..k], events[k].uuid)
            case Some(id) => [Reply(DbSuccess, Some(id))]
            case None => LookupReplies(AnswersTo(events, c), |ids|)
  {
    k := CallsRunAlone(list, ids, events, f, c);
    var es := AnswersTo(events, c);
    match LatestPositive(events[..k], events[k].uuid)
    case None =>
      FanOut(f.calls[c].uuid, ids, es, f.calls[c]);
    case Some(id) =>
      NothingToAnswer(StartAt(events, k, ids), es, ids);
  }

  /** Over every run, what a `create_db` has told its caller: that the database exists, if some swarm was
      known to have it; or else it first reports each swarm that has the database; if the last swarm to answer
      the lookup has it the call ends there, and otherwise it goes on to ask swarms, from index `FirstRetry`
      down, and reports what came of that. */
  lemma CreationsReport(list: SwarmList, ids: seq<SwarmId>, events: seq<Event>, f: Factory, c: nat) returns (k: nat)
    requires Reaches(list, ids, events, f) && c < |f.calls| && f.calls[c].creating
    ensures IsLookupOf(events, k, c) && events[k].uuid == f.calls[c].uuid
    ensures var es, n, replies := AnswersTo(events, c), |ids|, f.calls[c].replies;
            if LatestPositive(events[..k], events[k].uuid).Some? then es == [] && replies == [Reply(AlreadyExists, None)]
            else if n == 0 || |es| < n || es[n - 1].err == DbSuccess then |es| <= n && replies == Reported(|Successes(es)|)
            else
              && |es| - n <= AttemptLimit(ids, FirstRetry(n))
              && replies == Reported(|Successes(es[..n])|) + CreationReplies(ids, FirstRetry(n), Errors(es[n..]))
  {
    k := CallsRunAlone(list, ids, events, f, c);
    var es := AnswersTo(events, c);
    match LatestPositive(events[..k], events[k].uuid)
    case None =>
      if ids == [] {
        NothingToAnswer(StartAt(events, k, ids), es, ids);
      } else {
        CreateCall(f.calls[c].uuid, ids, es, f.calls[c]);
      }
    case Some(id) =>
      NothingToAnswer(StartAt(events, k, ids), es, ids);
  }
}

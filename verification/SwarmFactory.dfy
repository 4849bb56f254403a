/** Classes `swarm_factory` and `swarm_registry`: their methods and completion handlers update the registry
    and the cache in place, and each takes exactly the transition `FactoryModel` defines for it. */
module SwarmFactory {
  import opened Wrappers
  import opened KeyOrder
  import FC = FactoryCalls
  import opened FactoryCalls
  import FM = FactoryModel
  import opened FactoryModel
  import opened FactoryTheorems

  class SwarmRegistry {
    var swarms: Registry

    constructor ()
      ensures swarms == map[]
    {
      swarms := map[];
    }

    method AddNode(id: SwarmId, node: NodeId, endpoint: Endpoint)
      modifies this
      ensures swarms == FM.AddNode(old(swarms), id, node, endpoint)
    {
      var info := if id in swarms then swarms[id] else SwarmInfo(map[], None);
      if node !in info.nodes {
        info := info.(nodes := info.nodes[node := endpoint]);
      }
      swarms := swarms[id := info];
    }

    method GetSwarms() returns (res: seq<SwarmId>)
      ensures InOrder(res) && SetOf(res) == swarms.Keys
    {
      res := KeysInOrder(swarms.Keys);
    }

    /** The nodes of a swarm in key order; none for a swarm that is not registered. */
    method GetNodes(id: SwarmId) returns (res: seq<(NodeId, Endpoint)>)
      ensures id !in swarms ==> res == []
      ensures id in swarms ==>
                && (forall i | 0 <= i < |res| :: res[i].0 in swarms[id].nodes && res[i].1 == swarms[id].nodes[res[i].0])
                && InOrder(Names(res)) && SetOf(Names(res)) == swarms[id].nodes.Keys
    {
      res := [];
      if id in swarms {
        var nodes := swarms[id].nodes;
        var names := KeysInOrder(nodes.Keys);
        for i := 0 to |names|
          invariant |res| == i && forall j | 0 <= j < i :: res[j] == (names[j], nodes[names[j]])
        {
          assert names[i] in SetOf(names);
          res := res + [(names[i], nodes[names[i]])];
        }
        assert Names(res) == names;
      }
    }

    method GetSwarm(id: SwarmId) returns (sw: Option<SwarmRef>)
      ensures sw == if id in swarms then swarms[id].swarm else None
    {
      sw := if id in swarms then swarms[id].swarm else None;
    }

    method SetSwarm(id: SwarmId, sw: SwarmRef)
      requires id in swarms
      modifies this
      ensures swarms == old(swarms)[id := old(swarms)[id].(swarm := Some(sw))]
    {
      swarms := swarms[id := swarms[id].(swarm := Some(sw))];
    }
  }

  function Names(nodes: seq<(NodeId, Endpoint)>): seq<NodeId> {
    seq(|nodes|, i requires 0 <= i < |nodes| => nodes[i].0)
  }

  // What a rebuilt registry takes over from the one before it

  function Carried(before: Registry, alive: map<SwarmRef, SwarmId>, id: SwarmId): Option<SwarmRef> {
    if id in before && before[id].swarm.Some? && before[id].swarm.value in alive then before[id].swarm else None
  }

  /** The registry of a list, with the live swarm objects the earlier registry knows. */
  function Rebuilt(before: Registry, alive: map<SwarmRef, SwarmId>, reg: Registry): Registry {
    map id | id in reg :: SwarmInfo(reg[id].nodes, Carried(before, alive, id))
  }

  /** A call whose state became `call`, with an object for the swarm it is about to ask. */
  ghost function Told(f: Factory, c: nat, call: Call): Factory
    requires c < |f.calls| && RegistryOk(f)
  {
    var live := if call.attempt.Some? && call.attempt.value < |f.ids| then
                  assert f.ids[call.attempt.value] in SetOf(f.ids);
                  LiveForAttempt(f, call)
                else f;
    live.(calls := f.calls[c := call])
  }

  class SwarmFactory {
    var initialized: bool
    var swarmDbs: map<Uuid, SwarmId>
    var swarmReg: SwarmRegistry

    // the swarm objects that exist, and what the pending callbacks captured, with what their callers were told
    var alive: map<SwarmRef, SwarmId>
    var nextRef: SwarmRef
    var calls: seq<Call>

    ghost var ids: seq<SwarmId>

    ghost function State(): Factory
      reads this, swarmReg
    {
      Factory(swarmReg.swarms, ids, swarmDbs, alive, nextRef, calls)
    }

    ghost predicate Valid()
      reads this, swarmReg
    {
      initialized && Inv(State()) && InOrder(ids)
    }

    constructor ()
      ensures !initialized && swarmDbs == map[] && alive == map[] && nextRef == 0 && calls == []
      ensures fresh(swarmReg) && swarmReg.swarms == map[]
    {
      initialized, swarmDbs, alive, nextRef, calls, ids := false, map[], map[], 0, [], [];
      swarmReg := new SwarmRegistry();
    }

    /** With the swarms the ESR lists; with no ESR address or no URL it is not asked. */
    method Initialize(esrAddress: string, esrUrl: string, list: SwarmList)
      requires !initialized && swarmDbs == map[] && alive == map[] && nextRef == 0 && calls == []
      modifies this
      ensures Valid() && fresh(swarmReg)
      ensures State() == Initial(if esrAddress != "" && esrUrl != "" then list else [], ids)
    {
      swarmReg := new SwarmRegistry();
      UpdateSwarmRegistry(esrAddress, esrUrl, list);
      initialized := true;
      ids := swarmReg.GetSwarms();
      OrderIsListing(ids);
      ghost var listed := if esrAddress != "" && esrUrl != "" then list else [];
      NothingToCarry(RegistryOf(list), list);
      InitialOk(listed, ids);
    }

    method UpdateSwarmRegistry(esrAddress: string, esrUrl: string, list: SwarmList)
      modifies this
      ensures unchanged(`initialized, `swarmDbs, `alive, `nextRef, `calls, `ids)
      ensures esrAddress != "" && esrUrl != "" ==>
                && fresh(swarmReg) && swarmReg.swarms == Rebuilt(old(swarmReg.swarms), alive, RegistryOf(list))
                && swarmReg.swarms.Keys == RegistryOf(list).Keys
                && (forall id <- swarmReg.swarms :: swarmReg.swarms[id].nodes == RegistryOf(list)[id].nodes)
                && (forall id <- swarmReg.swarms, r: SwarmRef :: swarmReg.swarms[id].swarm == Some(r) <==>
                      id in old(swarmReg.swarms) && old(swarmReg.swarms)[id].swarm == Some(r) && r in alive)
      ensures esrAddress == "" || esrUrl == "" ==> swarmReg == old(swarmReg) && swarmReg.swarms == old(swarmReg.swarms)
    {
      if esrAddress != "" && esrUrl != "" {
        var reg := new SwarmRegistry();
        ghost var before := swarmReg.swarms;
        for s := 0 to |list|
          invariant fresh(reg) && swarmReg == old(swarmReg) && swarmReg.swarms == before
          invariant unchanged(this)
          invariant reg.swarms == Rebuilt(before, alive, RegistryOf(list[..s]))
        {
          var (id, nodes) := list[s];
          ghost var listed := RegistryOf(list[..s]);
          for n := 0 to |nodes|
            invariant fresh(reg) && swarmReg == old(swarmReg) && swarmReg.swarms == before
            invariant unchanged(this)
            invariant reg.swarms == Rebuilt(before, alive, AddNodes(listed, id, nodes[..n]))
          {
            reg.AddNode(id, nodes[n].0, nodes[n].1);
            var sw := swarmReg.GetSwarm(id);
            if sw.Some? && sw.value in alive {
              reg.SetSwarm(id, sw.value);
            }
            assert nodes[..n + 1][..n] == nodes[..n];
            CarriesOneMore(before, alive, AddNodes(listed, id, nodes[..n]), id, nodes[n].0, nodes[n].1);
          }
          assert nodes[..|nodes|] == nodes;
          assert list[..s + 1][..s] == list[..s];
        }
        assert list[..|list|] == list;
        swarmReg := reg;
      }
    }

    /** With one swarm and its nodes. */
    method InitializeDefault(defaultSwarm: SwarmId, nodes: seq<(NodeId, Endpoint)>)
      requires !initialized && swarmDbs == map[] && alive == map[] && nextRef == 0 && calls == []
      modifies this
      ensures Valid() && fresh(swarmReg) && State() == Initial([(defaultSwarm, nodes)], ids)
    {
      var reg := new SwarmRegistry();
      for n := 0 to |nodes|
        invariant fresh(reg) && unchanged(this) && reg.swarms == AddNodes(map[], defaultSwarm, nodes[..n])
      {
        reg.AddNode(defaultSwarm, nodes[n].0, nodes[n].1);
        assert nodes[..n + 1][..n] == nodes[..n];
      }
      assert nodes[..|nodes|] == nodes;
      swarmReg := reg;
      initialized := true;
      ids := swarmReg.GetSwarms();
      OrderIsListing(ids);
      OnlyList(defaultSwarm, nodes);
      InitialOk([(defaultSwarm, nodes)], ids);
    }

    method GetOrCreateSwarm(id: SwarmId) returns (sw: SwarmRef)
      requires RegistryOk(State()) && ObjectsOk(State()) && id in swarmReg.swarms
      modifies this`alive, this`nextRef, swarmReg
      ensures State() == FM.GetOrCreateSwarm(old(State()), id)
      ensures RegistryOk(State()) && ObjectsOk(State())
      ensures id in swarmReg.swarms && swarmReg.swarms[id].swarm == Some(sw) && HasLive(State(), id)
    {
      CreatesOne(State(), id);
      assert swarmReg.swarms[id].nodes != map[];
      hide RegistryOk, ObjectsOk, Extends;
      var known := swarmReg.GetSwarm(id);
      if known.None? || known.value !in alive {
        var nodes := swarmReg.GetNodes(id);
        assert nodes != [] by {
          assert SetOf(Names(nodes)) != {};
        }
        sw := nextRef;
        alive, nextRef := alive[sw := id], nextRef + 1;
        swarmReg.SetSwarm(id, sw);
      } else {
        sw := known.value;
      }
    }

    /** The callback is the caller's, or the one `CreateDb` passes. */
    method HasDb(uuid: Uuid, creating: bool)
      requires Valid()
      modifies this, swarmReg
      ensures Valid() && swarmReg == old(swarmReg) && State() == Step(old(State()), Lookup(uuid, creating))
    {
      assert initialized;
      ghost var before := State();
      StartKeeps(before, uuid, creating);
      assert Step(before, Lookup(uuid, creating)) == StartCall(before, uuid, creating);
      hide Step, RegistryOk, ObjectsOk, CallOk, HasLive, Missed, Found, InOrder, GetOrCreateAll;
      if uuid in swarmDbs {
        var sw := GetOrCreateSwarm(swarmDbs[uuid]);
        calls := calls + [Found(uuid, creating, swarmDbs[uuid])];
      } else {
        var call := AskAll(uuid, creating);
        calls := calls + [call];
      }
      assert State() == StartCall(before, uuid, creating);
    }

    /** The fan-out of `HasDb`: every swarm, in key order, is asked through its object. */
    method AskAll(uuid: Uuid, creating: bool) returns (call: Call)
      requires RegistryOk(State()) && ObjectsOk(State()) && InOrder(ids)
      modifies this`alive, this`nextRef, swarmReg
      ensures forall id <- ids :: id in old(swarmReg.swarms)
      ensures State() == GetOrCreateAll(old(State()), ids)
      ensures call == Missed(uuid, creating, ids)
    {
      assert forall id <- ids :: id in SetOf(ids);
      var swarms := swarmReg.GetSwarms();
      OneOrder(swarms, ids);
      var asked := AskEach(swarms);
      call := Call(uuid, creating, asked, |swarms|, None, []);
    }

    method AskEach(swarms: seq<SwarmId>) returns (asked: set<SwarmId>)
      requires RegistryOk(State()) && ObjectsOk(State()) && forall id <- swarms :: id in swarmReg.swarms
      modifies this`alive, this`nextRef, swarmReg
      ensures State() == GetOrCreateAll(old(State()), swarms)
      ensures asked == SetOf(swarms)
    {
      ghost var before := State();
      AllSoFar(before, swarms);
      asked := {};
      for i := 0 to |swarms|
        invariant State() == GetOrCreateAll(before, swarms[..i])
        invariant RegistryOk(State()) && ObjectsOk(State())
        invariant asked == SetOf(swarms[..i])
      {
        SetGrows(swarms, i);
        AllGrows(before, swarms, i);
        hide *;
        var sw := GetOrCreateSwarm(swarms[i]);
        asked := asked + {swarms[i]};
      }
      assert swarms[..|swarms|] == swarms;
    }

    method CreateDb(uuid: Uuid)
      requires Valid()
      modifies this, swarmReg
      ensures Valid() && swarmReg == old(swarmReg) && State() == Step(old(State()), Lookup(uuid, true))
    {
      assert initialized;
      HasDb(uuid, true);
    }

    /** The completion of `has_uuid` for one swarm. */
    method OnHasAnswer(c: nat, id: SwarmId, err: DbError)
      requires Valid() && Enabled(State(), Has(c, id, err))
      modifies this, swarmReg
      ensures Valid() && swarmReg == old(swarmReg) && State() == Step(old(State()), Has(c, id, err))
    {
      ghost var after := Step(State(), Has(c, id, err));
      HasAnswerTold(State(), c, id, err);
      assert RegistryOk(State()) && ObjectsOk(State());
      hide Step, Told, Deliver, Inv, RegistryOk, ObjectsOk, Enabled, InOrder;
      calls := calls[c := Counted(calls[c], id)];
      if err == DbSuccess {
        swarmDbs := swarmDbs[calls[c].uuid := id];
        Callback(c, Reply(DbSuccess, Some(id)));
      } else {
        if calls[c].count == 0 {
          Callback(c, Reply(NoDatabase, None));
        }
      }
      assert State() == after;
    }

    /** The callback of a lookup: the caller's own, or `create_db`'s. */
    method Callback(c: nat, reply: Reply)
      requires RegistryOk(State()) && ObjectsOk(State()) && InOrder(ids)
      requires c < |calls| && calls[c].attempt.None? && (reply.swarm.None? ==> ids != [])
      modifies this`alive, this`nextRef, this`calls, swarmReg
      ensures State() == Told(old(State()), c, Deliver(old(calls[c]), reply, ids))
    {
      if !calls[c].creating {
        calls := calls[c := calls[c].(replies := calls[c].replies + [reply])];
      } else if reply.swarm.Some? {
        calls := calls[c := calls[c].(replies := calls[c].replies + [Reply(AlreadyExists, None)])];
      } else {
        var swarms := swarmReg.GetSwarms();
        OneOrder(swarms, ids);
        DoCreateDb(c, FirstRetry(|swarms|));
      }
    }

    method DoCreateDb(c: nat, retry: nat)
      requires RegistryOk(State()) && ObjectsOk(State()) && InOrder(ids)
      requires c < |calls| && retry < |ids|
      modifies this`alive, this`nextRef, this`calls, swarmReg
      ensures State() == Told(old(State()), c, FC.DoCreateDb(old(calls[c]), retry, ids))
    {
      var id := SelectSwarmForSize(retry);
      if id == "" {
        calls := calls[c := calls[c].(attempt := None, replies := calls[c].replies + [Reply(NoSpace, None)])];
        return;
      }
      assert id in SetOf(ids);
      var sw := GetOrCreateSwarm(id);
      calls := calls[c := calls[c].(attempt := Some(retry))];
    }

    method SelectSwarmForSize(hint: nat) returns (id: SwarmId)
      requires RegistryOk(State()) && InOrder(ids) && hint < |ids|
      ensures id == ids[hint]
    {
      var swarms := swarmReg.GetSwarms();
      OneOrder(swarms, ids);
      assert hint < |swarms|;
      id := swarms[hint];
    }

    /** The completion of `create_uuid`. */
    method OnCreateAnswer(c: nat, id: SwarmId, err: DbError)
      requires Valid() && Enabled(State(), Created(c, id, err))
      modifies this, swarmReg
      ensures Valid() && swarmReg == old(swarmReg) && State() == Step(old(State()), Created(c, id, err))
    {
      ghost var after := Step(State(), Created(c, id, err));
      CreateAnswerTold(State(), c, id, err);
      assert RegistryOk(State()) && ObjectsOk(State());
      hide Step, Told, FC.DoCreateDb, Inv, RegistryOk, ObjectsOk, Enabled, InOrder;
      var retry := calls[c].attempt.value;
      if err == DbSuccess {
        swarmDbs := swarmDbs[calls[c].uuid := id];
        calls := calls[c := calls[c].(attempt := None, replies := calls[c].replies + [Reply(DbSuccess, Some(id))])];
      } else {
        if retry > 0 {
          DoCreateDb(c, retry - 1);
        } else {
          calls := calls[c := calls[c].(attempt := None, replies := calls[c].replies + [Reply(err, None)])];
        }
      }
      assert State() == after;
    }
  }

  /** A call with one swarm's answer counted off. */
  function Counted(call: Call, id: SwarmId): Call
    requires call.count > 0
  {
    call.(count := call.count - 1, waiting := call.waiting - {id})
  }

  lemma HasAnswerTold(f: Factory, c: nat, id: SwarmId, err: DbError)
    requires Inv(f) && Enabled(f, Has(c, id, err))
    ensures c < |f.calls| && f.calls[c].count > 0 && f.ids != []
    ensures var counted := Counted(f.calls[c], id);
            var cached := if err == DbSuccess then f.(swarmDbs := f.swarmDbs[counted.uuid := id]) else f;
            var g := cached.(calls := f.calls[c := counted]);
            && RegistryOk(g) && ObjectsOk(g) && counted.attempt.None?
            && Step(f, Has(c, id, err)) ==
               if err == DbSuccess then Told(g, c, Deliver(counted, Reply(DbSuccess, Some(id)), f.ids))
               else if counted.count == 0 then Told(g, c, Deliver(counted, Reply(NoDatabase, None), f.ids))
               else g
  {
    var e := Has(c, id, err);
    assert CallOk(f, f.calls[c]);
    EnabledIsPossible(f, e);
    var counted, call := Counted(f.calls[c], id), OnAnswer(f.calls[c], AnswerOf(e), f.ids);
    assert call == if err == DbSuccess then Deliver(counted, Reply(DbSuccess, Some(id)), f.ids)
                   else if counted.count == 0 then Deliver(counted, Reply(NoDatabase, None), f.ids)
                   else counted;
    var cached := if err == DbSuccess then f.(swarmDbs := f.swarmDbs[counted.uuid := id]) else f;
    assert Step(f, e) == Told(cached, c, call);
    hide Step, Answer, OnAnswer, Deliver, Enabled, Possible, CallOk, CacheOk;
    ToldForgets(cached, c, counted, call);
  }

  lemma ToldForgets(f: Factory, c: nat, mid: Call, call: Call)
    requires c < |f.calls| && RegistryOk(f) && ObjectsOk(f)
    ensures var g := f.(calls := f.calls[c := mid]);
            RegistryOk(g) && ObjectsOk(g) && Told(g, c, call) == Told(f, c, call)
  {
    assert f.calls[c := mid][c := call] == f.calls[c := call];
  }

  lemma CreateAnswerTold(f: Factory, c: nat, id: SwarmId, err: DbError)
    requires Inv(f) && Enabled(f, Created(c, id, err))
    ensures c < |f.calls| && f.calls[c].attempt.Some? && f.calls[c].attempt.value < |f.ids|
    ensures var call := f.calls[c];
            Step(f, Created(c, id, err)) ==
            if err == DbSuccess then
              f.(swarmDbs := f.swarmDbs[call.uuid := id],
                 calls := f.calls[c := call.(attempt := None, replies := call.replies + [Reply(DbSuccess, Some(id))])])
            else if call.attempt.value > 0 then Told(f, c, FC.DoCreateDb(call, call.attempt.value - 1, f.ids))
            else f.(calls := f.calls[c := call.(attempt := None, replies := call.replies + [Reply(err, None)])])
  {
    EnabledIsPossible(f, Created(c, id, err));
    hide FC.DoCreateDb, FM.GetOrCreateSwarm, HasLive, IsAsked;
  }

  lemma SetGrows(ids: seq<SwarmId>, i: nat)
    requires i < |ids|
    ensures ids[i] in SetOf(ids)
    ensures SetOf(ids[..i + 1]) == SetOf(ids[..i]) + {ids[i]}
  {
    assert ids[..i + 1] == ids[..i] + [ids[i]];
  }

  lemma AllSoFar(f: Factory, ids: seq<SwarmId>)
    requires forall id <- ids :: id in f.registry
    ensures GetOrCreateAll(f, ids[..0]) == f && SetOf(ids[..0]) == {}
  {
  }

  lemma AllGrows(f: Factory, ids: seq<SwarmId>, i: nat)
    requires i < |ids| && forall id <- ids :: id in f.registry
    ensures GetOrCreateAll(f, ids[..i + 1]) == FM.GetOrCreateSwarm(GetOrCreateAll(f, ids[..i]), ids[i])
  {
    assert ids[..i + 1][..i] == ids[..i];
  }

  lemma CarriesOneMore(before: Registry, alive: map<SwarmRef, SwarmId>, reg: Registry,
                       id: SwarmId, node: NodeId, endpoint: Endpoint)
    ensures var added := FM.AddNode(Rebuilt(before, alive, reg), id, node, endpoint);
            && id in added
            && Rebuilt(before, alive, FM.AddNode(reg, id, node, endpoint)) ==
               if Carried(before, alive, id).Some? then added[id := added[id].(swarm := Carried(before, alive, id))] else added
  {
    var added := FM.AddNode(Rebuilt(before, alive, reg), id, node, endpoint);
    assert id !in reg ==> Carried(before, alive, id).Some? || added[id].swarm.None?;
  }

  lemma NothingToCarry(reg: Registry, list: SwarmList)
    requires reg == RegistryOf(list)
    ensures Rebuilt(map[], map[], reg) == reg
  {
    forall id <- reg ensures reg[id].swarm.None? {
      RegistryHoldsList(list, id);
    }
  }

  lemma OnlyList(id: SwarmId, nodes: seq<(NodeId, Endpoint)>)
    ensures RegistryOf([(id, nodes)]) == AddNodes(map[], id, nodes)
  {
    assert [(id, nodes)][..0] == [];
    assert RegistryOf([]) == map[];
  }
}

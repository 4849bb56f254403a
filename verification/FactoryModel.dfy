/** The values and transitions of `swarm/swarm_factory`: the registry of swarms, the cache of databases,
    the swarm objects that exist, and the calls in progress. Class `SwarmFactory.SwarmFactory` is proved to
    take exactly these transitions. */
module FactoryModel {
  import opened Wrappers
  import opened FactoryCalls
  import opened KeyOrder

  type NodeId = string

  datatype Endpoint = Endpoint(host: string, port: nat)

  /** Identity of a swarm object. */
  type SwarmRef = nat

  /** A registered swarm: its nodes, and the weak pointer to its object. */
  datatype SwarmInfo = SwarmInfo(nodes: map<NodeId, Endpoint>, swarm: Option<SwarmRef>)

  type Registry = map<SwarmId, SwarmInfo>

  /** The swarms and their nodes as the ESR lists them. */
  type SwarmList = seq<(SwarmId, seq<(NodeId, Endpoint)>)>

  // The registry

  /** `add_node`: a node already there keeps its endpoint. */
  function AddNode(reg: Registry, id: SwarmId, node: NodeId, endpoint: Endpoint): Registry {
    var info := if id in reg then reg[id] else SwarmInfo(map[], None);
    reg[id := if node in info.nodes then info else info.(nodes := info.nodes[node := endpoint])]
  }

  function AddNodes(reg: Registry, id: SwarmId, nodes: seq<(NodeId, Endpoint)>): Registry {
    if nodes == [] then reg
    else
      var last := nodes[|nodes| - 1];
      AddNode(AddNodes(reg, id, nodes[..|nodes| - 1]), id, last.0, last.1)
  }

  function RegistryOf(list: SwarmList): Registry {
    if list == [] then map[]
    else AddNodes(RegistryOf(list[..|list| - 1]), list[|list| - 1].0, list[|list| - 1].1)
  }

  /** The endpoint a list gives a node first. */
  function FirstEndpoint(nodes: seq<(NodeId, Endpoint)>, node: NodeId): Option<Endpoint> {
    if nodes == [] then None else if nodes[0].0 == node then Some(nodes[0].1) else FirstEndpoint(nodes[1..], node)
  }

  /** All that the list says of one swarm, in order. */
  function NodesListed(list: SwarmList, id: SwarmId): seq<(NodeId, Endpoint)> {
    if list == [] then []
    else NodesListed(list[..|list| - 1], id) + if list[|list| - 1].0 == id then list[|list| - 1].1 else []
  }

  ghost predicate HoldsNodes(reg: Registry, id: SwarmId, nodes: seq<(NodeId, Endpoint)>) {
    && (id in reg <==> nodes != [])
    && (id in reg ==>
          && reg[id].swarm.None?
          && forall n :: FirstEndpoint(nodes, n) == if n in reg[id].nodes then Some(reg[id].nodes[n]) else None)
  }

  lemma {:induction false} FirstEndpointAppend(a: seq<(NodeId, Endpoint)>, last: (NodeId, Endpoint), n: NodeId)
    ensures FirstEndpoint(a + [last], n) ==
            if FirstEndpoint(a, n).Some? then FirstEndpoint(a, n) else if last.0 == n then Some(last.1) else None
  {
    if a == [] {
      assert [last][1..] == [];
    } else {
      assert (a + [last])[1..] == a[1..] + [last];
      FirstEndpointAppend(a[1..], last, n);
    }
  }

  lemma {:induction false} AddNodesHolds(reg: Registry, swarm: SwarmId, nodes: seq<(NodeId, Endpoint)>,
                                         id: SwarmId, before: seq<(NodeId, Endpoint)>)
    requires HoldsNodes(reg, id, before)
    ensures HoldsNodes(AddNodes(reg, swarm, nodes), id, if id == swarm then before + nodes else before)
  {
    if nodes == [] {
      assert before + [] == before;
    } else {
      var front, last := nodes[..|nodes| - 1], nodes[|nodes| - 1];
      AddNodesHolds(reg, swarm, front, id, before);
      if id == swarm {
        assert before + nodes == (before + front) + [last];
        forall n {
          FirstEndpointAppend(before + front, last, n);
        }
      }
    }
  }

  /** The registry holds exactly the swarms listed with a node, each with exactly the nodes listed for it, at
      the endpoint listed first. */
  lemma {:induction false} RegistryHoldsList(list: SwarmList, id: SwarmId)
    ensures HoldsNodes(RegistryOf(list), id, NodesListed(list, id))
  {
    if list != [] {
      var front, last := list[..|list| - 1], list[|list| - 1];
      RegistryHoldsList(front, id);
      AddNodesHolds(RegistryOf(front), last.0, last.1, id, NodesListed(front, id));
      assert NodesListed(front, id) + [] == NodesListed(front, id);
    }
  }

  // The factory

  /** Registry and its listing in key order, cache, live swarm objects with the id of each, and calls. */
  datatype Factory = Factory(
    registry: Registry, ids: seq<SwarmId>, swarmDbs: map<Uuid, SwarmId>,
    alive: map<SwarmRef, SwarmId>, nextRef: SwarmRef, calls: seq<Call>)

  predicate HasLive(f: Factory, id: SwarmId) {
    id in f.registry && f.registry[id].swarm.Some? && f.registry[id].swarm.value in f.alive
  }

  function GetOrCreateSwarm(f: Factory, id: SwarmId): Factory
    requires id in f.registry
  {
    if HasLive(f, id) then f
    else f.(registry := f.registry[id := f.registry[id].(swarm := Some(f.nextRef))],
            alive := f.alive[f.nextRef := id], nextRef := f.nextRef + 1)
  }

  function GetOrCreateAll(f: Factory, ids: seq<SwarmId>): (r: Factory)
    requires forall id <- ids :: id in f.registry
    ensures r.registry.Keys == f.registry.Keys
  {
    if ids == [] then f else GetOrCreateSwarm(GetOrCreateAll(f, ids[..|ids| - 1]), ids[|ids| - 1])
  }

  /** Swarms with a request of this call outstanding, whose objects the request keeps alive. */
  function Asked(call: Call, ids: seq<SwarmId>): set<SwarmId> {
    call.waiting + if call.attempt.Some? && call.attempt.value < |ids| then {ids[call.attempt.value]} else {}
  }

  predicate IsAsked(f: Factory, id: SwarmId) {
    exists c | 0 <= c < |f.calls| :: id in Asked(f.calls[c], f.ids)
  }

  // What holds of the factory at all times

  predicate RegistryOk(f: Factory) {
    && IsListing(f.ids) && SetOf(f.ids) == f.registry.Keys
    && forall id <- f.registry :: f.registry[id].nodes != map[]
  }

  /** Every live object is the one its id's weak pointer leads to, so there is at most one for each id. */
  predicate ObjectsOk(f: Factory) {
    && (forall r <- f.alive :: r < f.nextRef && f.alive[r] in f.registry && f.registry[f.alive[r]].swarm == Some(r))
    && (forall id <- f.registry :: f.registry[id].swarm.Some? ==>
          f.registry[id].swarm.value < f.nextRef
          && (f.registry[id].swarm.value in f.alive ==> f.alive[f.registry[id].swarm.value] == id))
  }

  predicate CacheOk(f: Factory) {
    forall u <- f.swarmDbs :: f.swarmDbs[u] in f.registry
  }

  /** A call's counter counts the answers it waits for, which are those of live registered swarms. */
  predicate CallOk(f: Factory, call: Call) {
    && call.count == |call.waiting|
    && (call.attempt.Some? ==> call.attempt.value < |f.ids| && call.waiting == {})
    && forall id <- Asked(call, f.ids) :: HasLive(f, id)
  }

  predicate Inv(f: Factory) {
    RegistryOk(f) && ObjectsOk(f) && CacheOk(f) && forall c | 0 <= c < |f.calls| :: CallOk(f, f.calls[c])
  }

  // Transitions

  /** A new object is made where a creation is about to ask. */
  function LiveForAttempt(f: Factory, call: Call): (r: Factory)
    requires call.attempt.Some? ==> call.attempt.value < |f.ids| && f.ids[call.attempt.value] in f.registry
  {
    if call.attempt.Some? then GetOrCreateSwarm(f, f.ids[call.attempt.value]) else f
  }

  function StartCall(f: Factory, uuid: Uuid, creating: bool): Factory
    requires RegistryOk(f) && CacheOk(f)
  {
    if uuid in f.swarmDbs then
      var g := GetOrCreateSwarm(f, f.swarmDbs[uuid]);
      g.(calls := g.calls + [Found(uuid, creating, f.swarmDbs[uuid])])
    else
      var g := GetOrCreateAll(f, f.ids);
      g.(calls := g.calls + [Missed(uuid, creating, f.ids)])
  }

  datatype Event =
    | Lookup(uuid: Uuid, creating: bool)                       // `has_db` or `create_db`
    | Has(call: nat, id: SwarmId, err: DbError)                // an answer to `has_uuid`
    | Created(call: nat, id: SwarmId, err: DbError)            // an answer to `create_uuid`
    | Release(ref: SwarmRef)                                   // the last owner of a swarm object lets go

  function AnswerOf(e: Event): CallEvent
    requires e.Has? || e.Created?
  {
    if e.Has? then HasAnswer(e.id, e.err) else CreateAnswer(e.err)
  }

  predicate Enabled(f: Factory, e: Event) {
    match e
    case Lookup(_, _) => true
    case Has(c, id, _) => c < |f.calls| && id in f.calls[c].waiting
    case Created(c, id, _) =>
      c < |f.calls| && f.calls[c].attempt.Some? && f.calls[c].attempt.value < |f.ids| && id == f.ids[f.calls[c].attempt.value]
    case Release(r) => r in f.alive && !IsAsked(f, f.alive[r])
  }

  /** A positive answer is remembered; the call goes on; the swarm it asks next has an object. */
  function Answer(f: Factory, c: nat, e: CallEvent, id: SwarmId): Factory
    requires c < |f.calls| && Possible(f.calls[c], e, f.ids) && RegistryOk(f)
  {
    var cached := if e.err == DbSuccess then f.(swarmDbs := f.swarmDbs[f.calls[c].uuid := id]) else f;
    var call := OnAnswer(f.calls[c], e, f.ids);
    var live := if call.attempt.Some? && call.attempt.value < |f.ids| then LiveForAttempt(cached, call) else cached;
    live.(calls := f.calls[c := call])
  }

  lemma EnabledIsPossible(f: Factory, e: Event)
    requires Inv(f) && Enabled(f, e) && (e.Has? || e.Created?)
    ensures e.call < |f.calls| && Possible(f.calls[e.call], AnswerOf(e), f.ids)
    ensures f.ids != [] && e.id in f.registry
  {
    var call := f.calls[e.call];
    assert CallOk(f, call);
    assert e.id in Asked(call, f.ids);
    assert HasLive(f, e.id) && e.id in SetOf(f.ids);
  }

  // The invariant is kept

  /** The parts of the factory a new swarm object leaves alone, and the live objects it keeps. */
  ghost predicate Extends(f: Factory, g: Factory) {
    && RegistryOk(g) && ObjectsOk(g)
    && g.ids == f.ids && g.swarmDbs == f.swarmDbs && g.calls == f.calls && g.registry.Keys == f.registry.Keys
    && (forall id <- f.registry :: g.registry[id].nodes == f.registry[id].nodes)
    && (forall r <- f.alive :: r in g.alive && g.alive[r] == f.alive[r])
    && forall id <- f.registry :: HasLive(f, id) ==> HasLive(g, id)
  }

  lemma NewObject(f: Factory, id: SwarmId)
    requires RegistryOk(f) && ObjectsOk(f) && id in f.registry && !HasLive(f, id)
    ensures var g := GetOrCreateSwarm(f, id);
            RegistryOk(g) && ObjectsOk(g) && HasLive(g, id) && g.registry.Keys == f.registry.Keys
  {
    var g := GetOrCreateSwarm(f, id);
    assert g.registry.Keys == f.registry.Keys;
    forall r <- g.alive
      ensures r < g.nextRef && g.alive[r] in g.registry && g.registry[g.alive[r]].swarm == Some(r)
    {
      if r != f.nextRef {
        assert f.alive[r] != id;
      }
    }
  }

  lemma CreatesOne(f: Factory, id: SwarmId)
    requires RegistryOk(f) && ObjectsOk(f) && id in f.registry
    ensures Extends(f, GetOrCreateSwarm(f, id)) && HasLive(GetOrCreateSwarm(f, id), id)
  {
    if !HasLive(f, id) {
      NewObject(f, id);
      assert f.nextRef !in f.alive;
      hide RegistryOk, ObjectsOk;
      var g := GetOrCreateSwarm(f, id);
      forall i <- f.registry ensures g.registry[i].nodes == f.registry[i].nodes && (HasLive(f, i) ==> HasLive(g, i)) {
        if i != id {
          assert g.registry[i] == f.registry[i];
        }
      }
    }
  }

  lemma ExtendsTransitive(f: Factory, g: Factory, h: Factory)
    requires Extends(f, g) && Extends(g, h)
    ensures Extends(f, h)
  {
    hide RegistryOk, ObjectsOk, HasLive;
  }

  lemma {:induction false} CreatesAll(f: Factory, ids: seq<SwarmId>)
    requires RegistryOk(f) && ObjectsOk(f) && forall id <- ids :: id in f.registry
    ensures Extends(f, GetOrCreateAll(f, ids))
    ensures forall id <- ids :: HasLive(GetOrCreateAll(f, ids), id)
  {
    if ids != [] {
      var last := |ids| - 1;
      CreatesAll(f, ids[..last]);
      var g := GetOrCreateAll(f, ids[..last]);
      CreatesOne(g, ids[last]);
      ExtendsTransitive(f, g, GetOrCreateAll(f, ids));
      assert forall id <- ids :: id in ids[..last] || id == ids[last];
      hide RegistryOk, ObjectsOk, HasLive;
    }
  }

  lemma CallsStayOk(f: Factory, g: Factory)
    requires Inv(f) && Extends(f, g)
    ensures Inv(g)
  {
    forall c | 0 <= c < |g.calls| ensures CallOk(g, g.calls[c]) {
      assert CallOk(f, f.calls[c]);
    }
  }

  lemma FoundKeeps(f: Factory, uuid: Uuid, creating: bool)
    requires Inv(f) && uuid in f.swarmDbs
    ensures Inv(StartCall(f, uuid, creating))
  {
    var id := f.swarmDbs[uuid];
    var g := GetOrCreateSwarm(f, id);
    CreatesOne(f, id);
    CallsStayOk(f, g);
    assert CallOk(g, Found(uuid, creating, id));
    hide GetOrCreateSwarm, HasLive, ObjectsOk;
    CallAppended(g, Found(uuid, creating, id));
  }

  lemma MissedCallOk(g: Factory, uuid: Uuid, creating: bool)
    requires IsListing(g.ids) && forall id <- g.ids :: HasLive(g, id)
    ensures CallOk(g, Missed(uuid, creating, g.ids))
  {
    ListingSize(g.ids);
    hide HasLive;
    forall id <- Asked(Missed(uuid, creating, g.ids), g.ids) ensures HasLive(g, id) {
      assert id in g.ids;
    }
  }

  lemma MissedKeeps(f: Factory, uuid: Uuid, creating: bool)
    requires Inv(f) && uuid !in f.swarmDbs
    ensures Inv(StartCall(f, uuid, creating))
  {
    assert forall id <- f.ids :: id in SetOf(f.ids);
    var g := GetOrCreateAll(f, f.ids);
    CreatesAll(f, f.ids);
    assert StartCall(f, uuid, creating) == g.(calls := g.calls + [Missed(uuid, creating, g.ids)]);
    hide GetOrCreateAll, HasLive, ObjectsOk, RegistryOk, CacheOk, CallOk, Missed, StartCall;
    CallsStayOk(f, g);
    MissedCallOk(g, uuid, creating);
    CallAppended(g, Missed(uuid, creating, g.ids));
  }

  lemma StartKeeps(f: Factory, uuid: Uuid, creating: bool)
    requires Inv(f)
    ensures Inv(StartCall(f, uuid, creating))
  {
    if uuid in f.swarmDbs {
      FoundKeeps(f, uuid, creating);
    } else {
      MissedKeeps(f, uuid, creating);
    }
  }

  lemma CallAppended(f: Factory, call: Call)
    requires Inv(f) && CallOk(f, call)
    ensures Inv(f.(calls := f.calls + [call]))
  {
    var g := f.(calls := f.calls + [call]);
    forall c | 0 <= c < |g.calls| ensures CallOk(g, g.calls[c]) {
      assert CallOk(f, g.calls[c]);
    }
  }

  lemma CallReplaced(f: Factory, c: nat, call: Call)
    requires Inv(f) && c < |f.calls| && CallOk(f, call)
    ensures Inv(f.(calls := f.calls[c := call]))
  {
    var g := f.(calls := f.calls[c := call]);
    forall i | 0 <= i < |g.calls| ensures CallOk(g, g.calls[i]) {
      assert CallOk(f, g.calls[i]);
    }
  }

  /** An answer leaves a call waiting for less, or about to ask a swarm in the list. */
  lemma AnswerNarrows(call: Call, e: CallEvent, ids: seq<SwarmId>)
    requires Possible(call, e, ids) && call.count == |call.waiting| && (call.attempt.Some? ==> call.waiting == {})
    ensures var after := OnAnswer(call, e, ids);
            && after.uuid == call.uuid && after.creating == call.creating
            && after.count == |after.waiting| && after.waiting <= call.waiting
            && (after.attempt.Some? ==> after.attempt.value < |ids| && after.waiting == {})
  {
  }

  lemma AnswerKeeps(f: Factory, c: nat, e: CallEvent, id: SwarmId)
    requires Inv(f) && c < |f.calls| && Possible(f.calls[c], e, f.ids) && id in f.registry
    ensures Inv(Answer(f, c, e, id))
  {
    assert CallOk(f, f.calls[c]);
    var cached := if e.err == DbSuccess then f.(swarmDbs := f.swarmDbs[f.calls[c].uuid := id]) else f;
    assert Inv(cached) by {
      forall i | 0 <= i < |f.calls| ensures CallOk(cached, f.calls[i]) {
        assert CallOk(f, f.calls[i]);
      }
    }
    var call := OnAnswer(f.calls[c], e, f.ids);
    AnswerNarrows(f.calls[c], e, f.ids);
    assert call.attempt.Some? ==> f.ids[call.attempt.value] in SetOf(f.ids);
    var live := LiveForAttempt(cached, call);
    if call.attempt.Some? {
      CreatesOne(cached, f.ids[call.attempt.value]);
      CallsStayOk(cached, live);
    }
    assert CallOk(live, f.calls[c]);
    assert CallOk(live, call) by {
      forall i <- Asked(call, f.ids) ensures HasLive(live, i) {
        assert i in Asked(f.calls[c], f.ids) || i == f.ids[call.attempt.value];
      }
    }
    CallReplaced(live, c, call);
  }

  lemma ReleaseKeeps(f: Factory, r: SwarmRef)
    requires Inv(f) && Enabled(f, Release(r))
    ensures Inv(f.(alive := f.alive - {r}))
  {
    var g := f.(alive := f.alive - {r});
    forall c | 0 <= c < |g.calls| ensures CallOk(g, g.calls[c]) {
      assert CallOk(f, f.calls[c]);
      forall id <- Asked(f.calls[c], f.ids) ensures HasLive(g, id) {
        assert HasLive(f, id);
        assert f.registry[id].swarm.value != r;
      }
    }
  }

  function Step(f: Factory, e: Event): (g: Factory)
    requires Inv(f) && Enabled(f, e)
    ensures Inv(g)
  {
    match e
    case Lookup(uuid, creating) =>
      StartKeeps(f, uuid, creating);
      StartCall(f, uuid, creating)
    case Release(r) =>
      ReleaseKeeps(f, r);
      f.(alive := f.alive - {r})
    case _ =>
      EnabledIsPossible(f, e);
      AnswerKeeps(f, e.call, AnswerOf(e), e.id);
      Answer(f, e.call, AnswerOf(e), e.id)
  }
}

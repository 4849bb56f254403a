/** Class `swarm`: its methods and message handlers update the node map and the node objects in place, and
    each takes exactly the transition `SwarmModel` defines for it. */
module Swarm {
  import opened Wrappers
  import opened Backoff
  import opened Quorum
  import D = DispatchModel
  import F = FactoryModel
  import SM = SwarmModel
  import opened SwarmModel
  import opened SwarmTheorems

  class Swarm {
    var initialNodes: seq<(Uuid, F.Endpoint)>
    var nodes: NodeMap
    var primaryNode: Uuid
    var fastestNode: Uuid
    var initCalled: bool
    var initHandler: bool          // whether a handler is set

    // the node objects
    var nextRef: NodeRef
    var pauses: map<NodeRef, nat>

    // history
    ghost var madeAt: map<NodeRef, nat>
    ghost var requests: multiset<Uuid>
    ghost var rounds: seq<bool>
    ghost var answered: nat
    ghost var handlerCalls: nat
    ghost var refused: nat

    ghost function State(): SwarmState
      reads this
    {
      SwarmState(initialNodes, nodes, primaryNode, fastestNode, initCalled, initHandler, NodePool(),
                 requests, rounds, answered, handlerCalls, refused)
    }

    ghost function NodePool(): Pool
      reads this
    {
      Pool(nextRef, pauses, madeAt)
    }

    ghost predicate Valid()
      reads this
    {
      Ok(State())
    }

    constructor (nodeList: seq<(Uuid, F.Endpoint)>)
      requires nodeList != []
      ensures Valid() && State() == InitialSwarm(nodeList)
    {
      initialNodes, nodes, primaryNode, fastestNode := nodeList, map[], "", "";
      initCalled, initHandler, nextRef, pauses, madeAt := false, false, 0, map[], map[];
      requests, rounds, answered, handlerCalls, refused := multiset{}, [], 0, 0, 0;
    }

    method AddNode(host: string, port: nat) returns (info: NodeInfo)
      modifies `nextRef, `pauses, `madeAt
      ensures info == FreshInfo(old(nextRef), host, port)
      ensures NodePool() == CreateNode(old(NodePool()), |rounds|)
    {
      info := FreshInfo(nextRef, host, port);
      nextRef, pauses, madeAt := nextRef + 1, pauses[nextRef := 0], madeAt[nextRef := |rounds|];
    }

    method AddNodes(list: seq<(Uuid, F.Endpoint)>)
      requires list != []
      modifies this
      ensures var m := SM.AddNodes(list, old(State().pool), |rounds|);
              State() == old(State()).(nodes := m.nodes, pool := m.pool, primary := list[0].0, fastest := list[0].0)
    {
      AddEach(list);
      primaryNode := list[0].0;
      fastestNode := primaryNode;
    }

    /** The loop of `AddNodes`. */
    method AddEach(list: seq<(Uuid, F.Endpoint)>)
      modifies `nodes, `nextRef, `pauses, `madeAt
      ensures Members(nodes, NodePool()) == SM.AddNodes(list, old(NodePool()), |rounds|)
    {
      ghost var pool := NodePool();
      nodes := map[];
      for i := 0 to |list|
        invariant Members(nodes, NodePool()) == SM.AddNodes(list[..i], pool, |rounds|)
      {
        hide SM.AddNodes;
        AddsOneMore(list, pool, |rounds|, i);
        var (uuid, endpoint) := list[i];
        var info := AddNode(endpoint.host, endpoint.port);
        nodes := nodes[uuid := info];
      }
      assert list[..|list|] == list;
    }

    method InitNodes()
      requires Valid()
      modifies this
      ensures Valid() && State() == SM.InitNodes(old(State()))
    {
      InitNodesKeeps(State());
      if initialNodes != [] {
        AddNodes(initialNodes);
        initialNodes := [];
      }
    }

    /** An attempt to initialise again is refused. A swarm always has members here, so nothing is thrown. */
    method Initialize(now: int)
      requires Valid()
      modifies this
      ensures Valid() && State() == SM.Initialize(old(State()), now)
    {
      ghost var before := State();
      InitNodes();
      InitializeFrom(before, State(), now);
      hide Ok, SM.InitNodes, SM.Initialize, SendAll;
      if initCalled {
        refused := refused + 1;
        return;
      }
      assert nodes != map[];
      initCalled, initHandler := true, true;
      SendStatusRequests(now);
    }

    /** One to every member. */
    method SendStatusRequests(now: int)
      modifies `nodes, `requests
      ensures State() == SendAll(old(State()), now)
    {
      ghost var before := State();
      ghost var keys := nodes.Keys;
      SendsNone(before, now);
      var rest := nodes.Keys;
      while rest != {}
        invariant rest <= keys && State() == SendSome(before, keys - rest, now)
        decreases rest
      {
        hide *;
        var uuid :| uuid in rest;
        ghost var sent := keys - rest;
        rest := rest - {uuid};
        SendStatusRequest(uuid, now);
        assert keys - rest == sent + {uuid};
        SendsOneMore(before, sent, uuid, now);
      }
      assert keys - rest == keys;
      SendsEvery(before, now);
    }

    method SendStatusRequest(uuid: Uuid, now: int)
      modifies `nodes, `requests
      ensures State() == SM.SendStatusRequest(old(State()), uuid, now)
    {
      if uuid !in nodes {
        return;
      }
      nodes := nodes[uuid := nodes[uuid].(requestSent := now)];
      requests := requests + multiset{uuid};
    }

    /** The nodes a request goes to: all for a broadcast, and otherwise the preferred one, or any one when
        that is not a member. */
    method SendRequest(policy: D.SendPolicy) returns (targets: set<NodeRef>)
      requires Valid() && (policy != D.Broadcast ==> SM.InitNodes(State()).nodes != map[])
      modifies this
      ensures Valid() && State() == SM.InitNodes(old(State()))
      ensures policy == D.Broadcast ==> targets == Refs(nodes)
      ensures policy != D.Broadcast ==>
                var preferred := if policy == D.Fastest then fastestNode else primaryNode;
                exists u <- nodes :: targets == {nodes[u].node.value} && (preferred in nodes ==> u == preferred)
    {
      InitNodes();
      assert MembersOk(nodes, State().pool, rounds);
      hide SM.InitNodes, Ok, Paced;
      if policy == D.Broadcast {
        targets := {};
        var rest := nodes.Keys;
        while rest != {}
          invariant rest <= nodes.Keys && targets == RefsOf(nodes, nodes.Keys - rest)
          decreases rest
        {
          var uuid :| uuid in rest;
          rest := rest - {uuid};
          targets := targets + {nodes[uuid].node.value};
        }
        assert RefsOf(nodes, nodes.Keys) == Refs(nodes);
      } else {
        var preferred := if policy == D.Fastest then fastestNode else primaryNode;
        if preferred !in nodes {
          assert nodes.Keys != {};
          preferred :| preferred in nodes;
        }
        targets := {nodes[preferred].node.value};
      }
    }

    method HonestMajority() returns (size: nat)
      requires Valid()
      modifies this
      ensures Valid() && State() == SM.InitNodes(old(State())) && size == HonestMajoritySize(|nodes|)
    {
      InitNodes();
      size := HonestMajoritySize(|nodes|);
    }

    method HandleStatusResponse(uuid: Uuid, status: Option<Status>, now: int) returns (close: bool)
      requires uuid in nodes
      modifies this
      ensures State() == SM.HandleStatusResponse(old(State()), uuid, status, now)
      ensures close <==> status.None?
    {
      close := status.None?;
      if status.Some? {
        ApplyStatus(uuid, status.value, now);
      }
      hide MergeStatus;
      answered := answered + 1;
      if initHandler {
        handlerCalls := handlerCalls + 1;
        initHandler := false;
      }
    }

    method ApplyStatus(uuid: Uuid, status: Status, now: int)
      requires uuid in nodes
      modifies this
      ensures State() == MergeStatus(old(State()), uuid, status, now)
    {
      hide MergePeers, SendEach;
      ghost var before := State();
      var newNodes, newUuids, fastest, _ := MergePeerIndex(uuid, now - nodes[uuid].requestSent, status.peers);
      nodes := newNodes;
      primaryNode := status.primary;
      fastestNode := fastest;
      assert State() == before.(nodes := nodes, pool := State().pool, primary := primaryNode, fastest := fastestNode);
      RequestStatusOf(newUuids, now);
    }

    /** The loop over the peer index of a status response. */
    method MergePeerIndex(uuid: Uuid, duration: int, peers: seq<Peer>)
      returns (newNodes: NodeMap, newUuids: seq<Uuid>, fastestSoFar: Uuid, fastestTime: int)
      modifies `nextRef, `pauses, `madeAt
      ensures Merge(newNodes, NodePool(), newUuids, fastestSoFar, fastestTime)
           == MergePeers(nodes, uuid, duration, peers, old(NodePool()), |rounds|)
    {
      ghost var pool := NodePool();
      var currentNodes := nodes;
      fastestTime, fastestSoFar := duration, uuid;
      newNodes, newUuids := map[], [];
      for i := 0 to |peers|
        invariant Agrees(currentNodes, nodes)
        invariant Merge(newNodes, NodePool(), newUuids, fastestSoFar, fastestTime)
               == MergePeers(nodes, uuid, duration, peers[..i], pool, |rounds|)
      {
        hide MergePeers, Agrees;
        var peer := peers[i];
        MergeGrows(nodes, uuid, duration, peers, pool, |rounds|, i);
        StillAgrees(currentNodes, nodes, peer.uuid);
        if peer.uuid !in currentNodes {
          currentNodes := currentNodes[peer.uuid := NO_INFO];
        }
        var info := currentNodes[peer.uuid];
        if info.node.None? {
          info := AddNode(peer.host, peer.port % UINT16_RANGE);
          newUuids := newUuids + [peer.uuid];
        }
        if peer.uuid == uuid {
          info := info.(duration := duration);
        }
        if info.duration > 0 && info.duration < fastestTime {
          fastestTime := info.duration;
          fastestSoFar := peer.uuid;
        }
        newNodes := newNodes[peer.uuid := info];
      }
      assert peers[..|peers|] == peers;
    }

    method RequestStatusOf(uuids: seq<Uuid>, now: int)
      modifies `nodes, `requests
      ensures State() == SendEach(old(State()), uuids, now)
    {
      ghost var before := State();
      for i := 0 to |uuids|
        invariant State() == SendEach(before, uuids[..i], now)
      {
        SendStatusRequest(uuids[i], now);
        assert uuids[..i + 1][..i] == uuids[..i];
      }
      assert uuids[..|uuids|] == uuids;
    }

    method HandleNodeMessage(uuid: Uuid, env: Option<Envelope>, now: int) returns (close: bool)
      requires Valid()
      modifies this
      ensures Valid() && State() == SM.HandleNodeMessage(old(State()), uuid, env, now)
      ensures uuid !in old(nodes) || env.None? ==> close
      ensures uuid in old(nodes) && env.Some? ==>
                if env.value.sender != "" && env.value.sender !in old(nodes) then !close
                else if env.value.badSignature then close
                else if env.value.payload.StatusPayload? then close <==> old(initCalled) && env.value.payload.status.None?
                else close <==> env.value.payload.handled == Some(true)
    {
      ghost var before := State();
      MessageKeeps(before, uuid, env, now);
      if uuid !in nodes {
        return true;
      }
      if env.None? {
        return true;
      }
      if env.value.sender != "" && env.value.sender !in nodes {
        return false;
      }
      if env.value.badSignature {
        return true;
      }
      var value := false;
      if env.value.payload.ErrorPayload? {
        value := env.value.payload.message == Some(D.TOO_BUSY_ERROR_MSG);
      }
      BackOffNodes(value);
      match env.value.payload
      case StatusPayload(status) =>
        if !initCalled {
          return false;
        }
        close := HandleStatusResponse(uuid, status, now);
      case ErrorPayload(_, handled) =>
        close := handled == Some(true);
      case OtherPayload(handled) =>
        close := handled == Some(true);
    }

    /** The loop over the members that adjusts the speed of each. */
    method BackOffNodes(value: bool)
      requires MembersOk(nodes, NodePool(), rounds)
      modifies `pauses, `rounds
      ensures State() == BackOffAll(old(State()), value)
    {
      PausesEvery(State(), value);
      hide MembersOk, BackOffAll, PausesAfter;
      TellNodes(value);
      rounds := rounds + [value];
    }

    method TellNodes(value: bool)
      requires NodesApart(nodes, pauses)
      modifies `pauses
      ensures pauses == PausesAfter(nodes, old(pauses), nodes.Keys, value)
    {
      ghost var before := pauses;
      PausesNone(nodes, before, value);
      var rest := nodes.Keys;
      while rest != {}
        invariant rest <= nodes.Keys
        invariant pauses == PausesAfter(nodes, before, nodes.Keys - rest, value)
        decreases rest
      {
        var uuid :| uuid in rest;
        PausesOneMore(nodes, before, nodes.Keys - rest, value, uuid);
        hide *;
        assert nodes.Keys - (rest - {uuid}) == nodes.Keys - rest + {uuid};
        rest := rest - {uuid};
        var r := nodes[uuid].node.value;
        pauses := pauses[r := BackOff(pauses[r], value)];
      }
      assert nodes.Keys - rest == nodes.Keys;
    }
  }

  function RefsOf(nodes: NodeMap, uuids: set<Uuid>): set<NodeRef> {
    set u | u in uuids && u in nodes && nodes[u].node.Some? :: nodes[u].node.value
  }

  /** The pauses when some of the members have been told. */
  ghost function PausesAfter(nodes: NodeMap, before: map<NodeRef, nat>, told: set<Uuid>, value: bool): map<NodeRef, nat> {
    map r | r in before :: if r in RefsOf(nodes, told) then BackOff(before[r], value) else before[r]
  }

  ghost predicate NodesApart(nodes: NodeMap, before: map<NodeRef, nat>) {
    && (forall u <- nodes :: nodes[u].node.Some? && nodes[u].node.value in before)
    && (forall u, v | u in nodes && v in nodes && u != v :: nodes[u].node != nodes[v].node)
  }

  lemma PausesNone(nodes: NodeMap, before: map<NodeRef, nat>, value: bool)
    ensures PausesAfter(nodes, before, {}, value) == before
  {
  }

  lemma PausesEvery(s: SwarmState, value: bool)
    requires MembersOk(s.nodes, s.pool, s.rounds)
    ensures NodesApart(s.nodes, s.pool.pauses)
    ensures BackOffAll(s, value) ==
            s.(pool := s.pool.(pauses := PausesAfter(s.nodes, s.pool.pauses, s.nodes.Keys, value)), rounds := s.rounds + [value])
  {
    assert RefsOf(s.nodes, s.nodes.Keys) == Refs(s.nodes);
  }

  /** No two members share a node object, so each is told once. */
  lemma PausesOneMore(nodes: NodeMap, before: map<NodeRef, nat>, told: set<Uuid>, value: bool, u: Uuid)
    requires NodesApart(nodes, before) && told <= nodes.Keys && u in nodes && u !in told
    ensures nodes[u].node.Some? && nodes[u].node.value in before
    ensures nodes[u].node.value in PausesAfter(nodes, before, told, value)
    ensures var r, now := nodes[u].node.value, PausesAfter(nodes, before, told, value);
            PausesAfter(nodes, before, told + {u}, value) == now[r := BackOff(now[r], value)]
  {
    var r := nodes[u].node.value;
    assert r !in RefsOf(nodes, told);
    assert RefsOf(nodes, told + {u}) == RefsOf(nodes, told) + {r};
    hide BackOff;
  }

  lemma AddsOneMore(list: seq<(Uuid, F.Endpoint)>, pool: Pool, rounds: nat, i: nat)
    requires i < |list|
    ensures var m := SM.AddNodes(list[..i], pool, rounds);
            SM.AddNodes(list[..i + 1], pool, rounds) ==
            Members(m.nodes[list[i].0 := FreshInfo(m.pool.next, list[i].1.host, list[i].1.port)], CreateNode(m.pool, rounds))
  {
    assert list[..i + 1][..i] == list[..i];
  }

  lemma MergeGrows(known: NodeMap, uuid: Uuid, duration: int, peers: seq<Peer>, pool: Pool, rounds: nat, i: nat)
    requires i < |peers|
    ensures MergePeers(known, uuid, duration, peers[..i + 1], pool, rounds) ==
            MergePeer(known, uuid, duration, MergePeers(known, uuid, duration, peers[..i], pool, rounds), peers[i], rounds)
  {
    assert peers[..i + 1][..i] == peers[..i];
  }

  /** What `operator[]` finds: a null node where there is no entry. */
  function Entry(nodes: NodeMap, u: Uuid): NodeInfo {
    if u in nodes then nodes[u] else NO_INFO
  }

  ghost predicate Agrees(current: NodeMap, nodes: NodeMap) {
    forall u :: Entry(current, u) == Entry(nodes, u)
  }

  lemma StillAgrees(current: NodeMap, nodes: NodeMap, u: Uuid)
    requires Agrees(current, nodes)
    ensures Entry(current, u) == Entry(nodes, u)
    ensures Agrees(if u in current then current else current[u := NO_INFO], nodes)
  {
  }

  /** The swarm with status requests sent to some of its members. */
  ghost function SendSome(s: SwarmState, sent: set<Uuid>, now: int): SwarmState {
    s.(nodes := map u | u in s.nodes :: if u in sent then s.nodes[u].(requestSent := now) else s.nodes[u],
       requests := s.requests + multiset(sent))
  }

  lemma InitializeFrom(s: SwarmState, ready: SwarmState, now: int)
    requires Ok(s) && ready == SM.InitNodes(s)
    ensures Ok(SM.Initialize(s, now))
    ensures ready.initCalled ==> SM.Initialize(s, now) == ready.(refused := ready.refused + 1)
    ensures !ready.initCalled ==>
              ready.nodes != map[] && SM.Initialize(s, now) == SendAll(ready.(initCalled := true, handlerSet := true), now)
  {
    InitializeKeeps(s, now);
    InitNodesKeeps(s);
    hide MembersOk, Grows, SM.InitNodes, SendAll;
  }

  lemma SendsNone(s: SwarmState, now: int)
    ensures SendSome(s, {}, now) == s
  {
    assert SendSome(s, {}, now).nodes == s.nodes;
  }

  lemma SendsEvery(s: SwarmState, now: int)
    ensures SendSome(s, s.nodes.Keys, now) == SendAll(s, now)
  {
  }

  lemma SendsOneMore(s: SwarmState, sent: set<Uuid>, uuid: Uuid, now: int)
    requires uuid in s.nodes && uuid !in sent
    ensures SM.SendStatusRequest(SendSome(s, sent, now), uuid, now) == SendSome(s, sent + {uuid}, now)
  {
    assert multiset(sent + {uuid}) == multiset(sent) + multiset{uuid};
  }
}

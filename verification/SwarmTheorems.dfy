/** What a status response does to a swarm, and what holds of a swarm over every run. */
module SwarmTheorems {
  import opened Wrappers
  import opened Backoff
  import opened Quorum
  import F = FactoryModel
  import opened SwarmModel

  // Sending status requests

  /** Requests went to these members, and nothing else changed. */
  ghost predicate IsRequested(s: SwarmState, uuids: seq<Uuid>, now: int, t: SwarmState) {
    && t.nodes.Keys == s.nodes.Keys
    && (forall u <- s.nodes :: t.nodes[u] == if u in uuids then s.nodes[u].(requestSent := now) else s.nodes[u])
    && t == s.(nodes := t.nodes, requests := s.requests + multiset(uuids))
  }

  lemma OneMoreRequest(s: SwarmState, uuids: seq<Uuid>, now: int, t: SwarmState, u: Uuid)
    requires IsRequested(s, uuids, now, t) && u in s.nodes
    ensures IsRequested(s, uuids + [u], now, SendStatusRequest(t, u, now))
  {
    var t' := SendStatusRequest(t, u, now);
    assert t'.nodes.Keys == s.nodes.Keys;
    assert multiset(uuids + [u]) == multiset(uuids) + multiset{u};
  }

  lemma {:induction false} SendEachEffects(s: SwarmState, uuids: seq<Uuid>, now: int)
    requires forall u <- uuids :: u in s.nodes
    ensures IsRequested(s, uuids, now, SendEach(s, uuids, now))
  {
    if uuids != [] {
      var last := |uuids| - 1;
      SendEachEffects(s, uuids[..last], now);
      OneMoreRequest(s, uuids[..last], now, SendEach(s, uuids[..last], now), uuids[last]);
      assert uuids == uuids[..last] + [uuids[last]];
      hide IsRequested, SendStatusRequest;
    }
  }

  /** Whether the members of `s` are members of `t` with the node objects they have in `s`, and no others. */
  ghost predicate SameNodes(s: NodeMap, t: NodeMap) {
    s.Keys == t.Keys && forall u <- s :: t[u].node == s[u].node
  }

  lemma SameNodesOk(s: NodeMap, t: NodeMap, pool: Pool, rounds: seq<bool>)
    requires MembersOk(s, pool, rounds) && SameNodes(s, t)
    ensures MembersOk(t, pool, rounds)
  {
    hide Paced;
  }

  // The invariant is kept

  lemma OneMoreMember(nodes: NodeMap, pool: Pool, rounds: seq<bool>, uuid: Uuid, host: string, port: nat)
    requires MembersOk(nodes, pool, rounds)
    ensures MembersOk(nodes[uuid := FreshInfo(pool.next, host, port)], CreateNode(pool, |rounds|), rounds)
  {
    var after := CreateNode(pool, |rounds|);
    assert Grows(pool, after, |rounds|);
    forall r | r == pool.next || Paced(pool, r, rounds) ensures Paced(after, r, rounds) {
      StaysPaced(pool, after, r, rounds);
    }
    hide Grows;
  }

  lemma {:induction false} FirstMembers(list: seq<(Uuid, F.Endpoint)>, pool: Pool, rounds: seq<bool>)
    requires forall r <- pool.pauses :: r < pool.next
    ensures var m := AddNodes(list, pool, |rounds|);
            && MembersOk(m.nodes, m.pool, rounds) && Grows(pool, m.pool, |rounds|)
            && m.pool.next == pool.next + |list|
            && (list != [] ==> m.nodes != map[])
  {
    if list != [] {
      var last := |list| - 1;
      var m := AddNodes(list[..last], pool, |rounds|);
      FirstMembers(list[..last], pool, rounds);
      OneMore(pool, m.pool, |rounds|);
      OneMoreMember(m.nodes, m.pool, rounds, list[last].0, list[last].1.host, list[last].1.port);
      hide MembersOk, Grows;
      assert list[last].0 in AddNodes(list, pool, |rounds|).nodes;
    }
  }

  lemma InitNodesKeeps(s: SwarmState)
    requires Ok(s)
    ensures Ok(InitNodes(s)) && Grows(s.pool, InitNodes(s).pool, |s.rounds|)
  {
    if s.initialNodes != [] {
      FirstMembers(s.initialNodes, s.pool, s.rounds);
    }
  }

  lemma BackOffKeeps(s: SwarmState, value: bool)
    requires MembersOk(s.nodes, s.pool, s.rounds)
    ensures var t := BackOffAll(s, value); MembersOk(t.nodes, t.pool, t.rounds)
  {
    var t := BackOffAll(s, value);
    forall u <- t.nodes ensures Paced(t.pool, t.nodes[u].node.value, t.rounds) {
      var r := s.nodes[u].node.value;
      assert Paced(s.pool, r, s.rounds);
      assert r in Refs(s.nodes);
      var k := s.pool.madeAt[r];
      assert t.rounds[k..] == s.rounds[k..] + [value];
      BackoffAppend(s.rounds[k..], value);
    }
  }

  /** What sending the requests leaves of a merge. */
  ghost predicate IsSent(s: SwarmState, m: Merge, t: SwarmState, primary: Uuid, now: int) {
    && t.nodes.Keys == m.nodes.Keys
    && (forall u <- m.nodes :: t.nodes[u] == if u in m.added then m.nodes[u].(requestSent := now) else m.nodes[u])
    && t == s.(nodes := t.nodes, pool := m.pool, primary := primary, fastest := m.fastest,
               requests := s.requests + multiset(m.added))
  }

  lemma AfterMerge(s: SwarmState, responder: Uuid, status: Status, now: int)
    requires responder in s.nodes
    ensures var m := MergePeers(s.nodes, responder, now - s.nodes[responder].requestSent, status.peers, s.pool, |s.rounds|);
            IsSent(s, m, MergeStatus(s, responder, status, now), status.primary, now)
  {
    var duration := now - s.nodes[responder].requestSent;
    var m := MergePeers(s.nodes, responder, duration, status.peers, s.pool, |s.rounds|);
    AddedAreMembers(s.nodes, responder, duration, status.peers, s.pool, |s.rounds|);
    var merged := s.(nodes := m.nodes, pool := m.pool, primary := status.primary, fastest := m.fastest);
    assert forall u <- m.added :: u in merged.nodes;
    SendEachEffects(merged, m.added, now);
  }

  lemma MergeStatusKeeps(s: SwarmState, responder: Uuid, status: Status, now: int)
    requires MembersOk(s.nodes, s.pool, s.rounds) && responder in s.nodes
    ensures var t := MergeStatus(s, responder, status, now);
            && MembersOk(t.nodes, t.pool, t.rounds) && Grows(s.pool, t.pool, |s.rounds|)
            && t == s.(nodes := t.nodes, pool := t.pool, primary := t.primary, fastest := t.fastest, requests := t.requests)
  {
    var duration := now - s.nodes[responder].requestSent;
    MergedKeys(s.nodes, responder, duration, status.peers, s.pool, |s.rounds|);
    MergeKeepsMembers(s.nodes, responder, duration, status.peers, s.pool, s.rounds);
    AfterMerge(s, responder, status, now);
    hide MergePeers, MergeStatus, MembersOk, Uuids, Grows;
    var m, t := MergePeers(s.nodes, responder, duration, status.peers, s.pool, |s.rounds|), MergeStatus(s, responder, status, now);
    SameNodesOk(m.nodes, t.nodes, m.pool, s.rounds);
  }

  lemma AddedAreMembers(known: NodeMap, responder: Uuid, duration: int, peers: seq<Peer>, pool: Pool, rounds: nat)
    ensures forall u <- MergePeers(known, responder, duration, peers, pool, rounds).added ::
              u in MergePeers(known, responder, duration, peers, pool, rounds).nodes
  {
    if peers != [] {
      AddedAreMembers(known, responder, duration, peers[..|peers| - 1], pool, rounds);
    }
  }

  lemma InitializeKeeps(s: SwarmState, now: int)
    requires Ok(s)
    ensures Ok(Initialize(s, now)) && Grows(s.pool, Initialize(s, now).pool, |s.rounds|)
  {
    InitNodesKeeps(s);
    var ready := InitNodes(s);
    if !ready.initCalled {
      var t := SendAll(ready.(initCalled := true, handlerSet := true), now);
      hide InitNodes, Grows;
      assert t.nodes.Keys == ready.nodes.Keys;
      SameNodesOk(ready.nodes, t.nodes, ready.pool, ready.rounds);
    }
  }

  lemma MessageKeeps(s: SwarmState, uuid: Uuid, env: Option<Envelope>, now: int)
    requires Ok(s)
    ensures Ok(HandleNodeMessage(s, uuid, env, now))
  {
    if IsAccepted(s, uuid, env) {
      var paced := BackOffAll(s, TooBusy(env.value.payload));
      BackOffKeeps(s, TooBusy(env.value.payload));
      if env.value.payload.StatusPayload? && s.initCalled && env.value.payload.status.Some? {
        hide MembersOk, MergeStatus, BackOffAll;
        assert paced == s.(pool := paced.pool, rounds := paced.rounds) by {
          PacedOnly(s, TooBusy(env.value.payload));
        }
        MergeStatusKeeps(paced, uuid, env.value.payload.status.value, now);
      }
    }
  }

  lemma PacedOnly(s: SwarmState, value: bool)
    ensures var t := BackOffAll(s, value);
            && t == s.(pool := t.pool, rounds := s.rounds + [value])
            && t.pool == s.pool.(pauses := t.pool.pauses) && t.pool.pauses.Keys == s.pool.pauses.Keys
  {
  }

  lemma StepKeeps(s: SwarmState, e: Event)
    requires Ok(s)
    ensures Ok(Step(s, e))
  {
    match e
    case Use =>
      InitNodesKeeps(s);
    case Init(now) =>
      InitializeKeeps(s, now);
    case FromNode(uuid, env, now) =>
      MessageKeeps(s, uuid, env, now);
    case StatusTimer(uuid, now) =>
      if uuid in s.nodes {
        SameNodesOk(s.nodes, Step(s, e).nodes, s.pool, s.rounds);
      }
  }

  lemma {:induction false} RunKeeps(s: SwarmState, events: seq<Event>)
    requires Ok(s)
    ensures Ok(Run(s, events))
  {
    if events != [] {
      RunKeeps(s, events[..|events| - 1]);
      StepKeeps(Run(s, events[..|events| - 1]), events[|events| - 1]);
    }
  }

  /** At every moment every member has a node object, no two share one, and none pauses for longer than the
      rounds it took part in make it, nor ever longer than 1024 ms; the initialisation handler has been called
      at most once. */
  lemma MembersHaveOwnNodes(list: seq<(Uuid, F.Endpoint)>, events: seq<Event>)
    requires list != []
    ensures var s := Run(InitialSwarm(list), events);
            && (forall u <- s.nodes :: s.nodes[u].node.Some? && Paced(s.pool, s.nodes[u].node.value, s.rounds)
                                       && s.pool.pauses[s.nodes[u].node.value] <= 1024)
            && (forall u, v | u in s.nodes && v in s.nodes && u != v :: s.nodes[u].node != s.nodes[v].node)
            && s.handlerCalls <= 1
  {
    RunKeeps(InitialSwarm(list), events);
    var s := Run(InitialSwarm(list), events);
    hide Run;
    forall u <- s.nodes ensures s.pool.pauses[s.nodes[u].node.value] <= 1024 {
      BackoffIsSaturatingCounter(s.rounds[s.pool.madeAt[s.nodes[u].node.value]..]);
    }
  }

  // One status response

  /** The time the chosen node is chosen for. */
  function ChosenTime(s: SwarmState, responder: Uuid, duration: int): int {
    if s.fastest != responder && s.fastest in s.nodes then s.nodes[s.fastest].duration else duration
  }

  /** A parsed status response: the members become exactly the listed uuids. Known ones keep node object,
      endpoint and time of the last request; each unknown one gets a new node object at the endpoint listed
      last and is sent one request for each time it is listed. The responder's time is noted. */
  lemma StatusMerge(s: SwarmState, responder: Uuid, status: Status, now: int, t: SwarmState)
    requires Ok(s) && responder in s.nodes && t == MergeStatus(s, responder, status, now)
    ensures t.nodes.Keys == Uuids(status.peers) && t.primary == status.primary
    ensures forall u <- t.nodes :: u in s.nodes ==>
              t.nodes[u] == if u == responder then s.nodes[u].(duration := now - s.nodes[u].requestSent) else s.nodes[u]
    ensures forall u <- t.nodes :: u !in s.nodes ==>
              && t.nodes[u].node.Some? && s.pool.next <= t.nodes[u].node.value < t.pool.next
              && t.nodes[u].host == LastEntry(status.peers, u).host
              && t.nodes[u].port == LastEntry(status.peers, u).port % 0x1_0000
              && t.nodes[u].requestSent == now && t.nodes[u].duration == 0
    ensures forall u :: t.requests[u] == s.requests[u] + if u in s.nodes then 0 else Times(status.peers, u)
    ensures t.pool.next - s.pool.next == |t.requests| - |s.requests|
  {
    var duration := now - s.nodes[responder].requestSent;
    var m := MergePeers(s.nodes, responder, duration, status.peers, s.pool, |s.rounds|);
    hide *;
    PoolBounded(s);
    MergedKeys(s.nodes, responder, duration, status.peers, s.pool, |s.rounds|);
    AfterMerge(s, responder, status, now);
    AllEntries(s, responder, duration, status.peers, m);
    SentEntries(s, responder, duration, status, m, t, now);
    AllRequests(s, responder, duration, status, m, t, now);
  }

  lemma AllEntries(s: SwarmState, responder: Uuid, duration: int, peers: seq<Peer>, m: Merge)
    requires MembersOk(s.nodes, s.pool, s.rounds) && responder in s.nodes && m.nodes.Keys == Uuids(peers)
    requires m == MergePeers(s.nodes, responder, duration, peers, s.pool, |s.rounds|)
    ensures forall u <- m.nodes :: EntryOf(s, responder, duration, peers, m, u)
  {
    hide *;
    forall u <- m.nodes ensures EntryOf(s, responder, duration, peers, m, u) {
      AddedIffUnknown(s, responder, duration, peers, m, u);
    }
  }

  lemma AllRequests(s: SwarmState, responder: Uuid, duration: int, status: Status, m: Merge, t: SwarmState, now: int)
    requires MembersOk(s.nodes, s.pool, s.rounds) && IsSent(s, m, t, status.primary, now)
    requires m == MergePeers(s.nodes, responder, duration, status.peers, s.pool, |s.rounds|)
    ensures forall u :: t.requests[u] == s.requests[u] + if u in s.nodes then 0 else Times(status.peers, u)
  {
    hide *;
    forall u ensures t.requests[u] == s.requests[u] + if u in s.nodes then 0 else Times(status.peers, u) {
      SentRequests(s, responder, duration, status, m, t, now, u);
    }
  }

  lemma PoolBounded(s: SwarmState)
    requires Ok(s)
    ensures MembersOk(s.nodes, s.pool, s.rounds) && forall r <- s.pool.pauses :: r < s.pool.next
  {
  }

  lemma SentRequests(s: SwarmState, responder: Uuid, duration: int, status: Status, m: Merge, t: SwarmState, now: int, u: Uuid)
    requires MembersOk(s.nodes, s.pool, s.rounds) && IsSent(s, m, t, status.primary, now)
    requires m == MergePeers(s.nodes, responder, duration, status.peers, s.pool, |s.rounds|)
    ensures t.requests[u] == s.requests[u] + if u in s.nodes then 0 else Times(status.peers, u)
  {
    MergedAdded(s.nodes, responder, duration, status.peers, s.pool, |s.rounds|, u);
    hide MergePeers, Times;
  }

  lemma SentEntries(s: SwarmState, responder: Uuid, duration: int, status: Status, m: Merge, t: SwarmState, now: int)
    requires IsSent(s, m, t, status.primary, now) && m.nodes.Keys == Uuids(status.peers)
    requires m.pool.next == s.pool.next + |m.added|
    requires forall u <- m.nodes :: EntryOf(s, responder, duration, status.peers, m, u)
    ensures t.nodes.Keys == Uuids(status.peers) && t.primary == status.primary
    ensures forall u <- t.nodes :: u in s.nodes ==>
              t.nodes[u] == if u == responder then s.nodes[u].(duration := duration) else s.nodes[u]
    ensures forall u <- t.nodes :: u !in s.nodes ==>
              && t.nodes[u].node.Some? && s.pool.next <= t.nodes[u].node.value < t.pool.next
              && t.nodes[u].host == LastEntry(status.peers, u).host
              && t.nodes[u].port == LastEntry(status.peers, u).port % 0x1_0000
              && t.nodes[u].requestSent == now && t.nodes[u].duration == 0
    ensures t.pool.next - s.pool.next == |t.requests| - |s.requests|
  {
    hide Uuids, LastEntry;
  }

  /** A merged entry before requests are sent. */
  ghost predicate EntryOf(s: SwarmState, responder: Uuid, duration: int, peers: seq<Peer>, m: Merge, u: Uuid) {
    && u in m.nodes && u in Uuids(peers)
    && (u in m.added <==> u !in s.nodes)
    && if u in s.nodes then m.nodes[u] == if u == responder then s.nodes[u].(duration := duration) else s.nodes[u]
       else
         && m.nodes[u].node.Some? && s.pool.next <= m.nodes[u].node.value < m.pool.next
         && m.nodes[u].host == LastEntry(peers, u).host && m.nodes[u].port == LastEntry(peers, u).port % UINT16_RANGE
         && m.nodes[u].duration == 0
  }

  lemma AddedIffUnknown(s: SwarmState, responder: Uuid, duration: int, peers: seq<Peer>, m: Merge, u: Uuid)
    requires MembersOk(s.nodes, s.pool, s.rounds) && responder in s.nodes && u in Uuids(peers)
    requires m == MergePeers(s.nodes, responder, duration, peers, s.pool, |s.rounds|)
    ensures EntryOf(s, responder, duration, peers, m, u)
  {
    MergedEntry(s.nodes, responder, duration, peers, s.pool, |s.rounds|, u);
    MergedAdded(s.nodes, responder, duration, peers, s.pool, |s.rounds|, u);
    ListedSometimes(peers, u);
    hide MergePeers, Times, Uuids, LastEntry;
    assert u in m.added <==> multiset(m.added)[u] > 0;
  }

  lemma {:induction false} ListedSometimes(peers: seq<Peer>, u: Uuid)
    ensures u in Uuids(peers) <==> Times(peers, u) > 0
  {
    if peers != [] {
      LastPeer(peers);
      ListedSometimes(peers[..|peers| - 1], u);
    }
  }

  predicate NoRepeats(peers: seq<Peer>) {
    forall i, j | 0 <= i < j < |peers| :: peers[i].uuid != peers[j].uuid
  }

  /** Every listed uuid is listed once exactly when the list has no repeats: only then does each unknown peer
      get one node object and one request. */
  lemma {:induction false} OnceEachIffNoRepeats(peers: seq<Peer>)
    ensures NoRepeats(peers) <==> forall u <- Uuids(peers) :: Times(peers, u) == 1
  {
    if peers != [] {
      var front, peer := peers[..|peers| - 1], peers[|peers| - 1];
      OnceEachIffNoRepeats(front);
      LastPeer(peers);
      ListedSometimes(front, peer.uuid);
      forall u ensures u in Uuids(front) <==> Times(front, u) > 0 {
        ListedSometimes(front, u);
      }
      if peer.uuid in Uuids(front) {
        var p :| p in front && p.uuid == peer.uuid;
        var i :| 0 <= i < |front| && front[i] == p;
        assert peers[i].uuid == peers[|peers| - 1].uuid;
        assert peer.uuid in Uuids(peers) && Times(peers, peer.uuid) > 1;
      } else {
        assert NoRepeats(peers) <==> NoRepeats(front) by {
          assert forall i | 0 <= i < |front| :: front[i] in front && front[i].uuid in Uuids(front);
        }
      }
    }
  }

  /** The node chosen as fastest is no slower than the responder, nor than any member with a recorded time. */
  lemma FastestChoice(s: SwarmState, responder: Uuid, status: Status, now: int, t: SwarmState)
    requires Ok(s) && responder in s.nodes && t == MergeStatus(s, responder, status, now)
    ensures var time := ChosenTime(t, responder, now - s.nodes[responder].requestSent);
            && time <= now - s.nodes[responder].requestSent
            && forall u <- t.nodes :: t.nodes[u].duration > 0 ==> time <= t.nodes[u].duration
    ensures t.fastest != responder ==>
              && t.fastest in t.nodes && t.fastest in s.nodes
              && 0 < s.nodes[t.fastest].duration < now - s.nodes[responder].requestSent
  {
    var peers, duration := status.peers, now - s.nodes[responder].requestSent;
    var m := MergePeers(s.nodes, responder, duration, peers, s.pool, |s.rounds|);
    hide *;
    MergedFastest(s.nodes, responder, duration, peers, s.pool, |s.rounds|);
    RecordedTime(s.nodes, responder, duration, peers, s.pool, |s.rounds|);
    AfterMerge(s, responder, status, now);
    SentBest(s, responder, duration, status, m, t, now);
  }

  lemma SentBest(s: SwarmState, responder: Uuid, duration: int, status: Status, m: Merge, t: SwarmState, now: int)
    requires IsSent(s, m, t, status.primary, now) && IsBest(m, responder, duration)
    requires HasTimes(m, s.nodes, responder, duration)
    ensures ChosenTime(t, responder, duration) <= duration
    ensures forall u <- t.nodes :: t.nodes[u].duration > 0 ==> ChosenTime(t, responder, duration) <= t.nodes[u].duration
    ensures t.fastest != responder ==>
              t.fastest in t.nodes && t.fastest in s.nodes && 0 < s.nodes[t.fastest].duration < duration
  {
  }

  /** The chosen node is a member exactly when the response lists its own sender, or a known node with a
      recorded time less than the sender's. Otherwise requests go to the first node in the map. */
  lemma FastestIsMemberIff(s: SwarmState, responder: Uuid, status: Status, now: int, t: SwarmState)
    requires Ok(s) && responder in s.nodes && t == MergeStatus(s, responder, status, now)
    ensures t.fastest in t.nodes <==>
              || responder in Uuids(status.peers)
              || exists u <- Uuids(status.peers) :: u in s.nodes && 0 < s.nodes[u].duration < now - s.nodes[responder].requestSent
  {
    hide MergeStatus, Uuids, Ok, Times, LastEntry;
    FastestChoice(s, responder, status, now, t);
    StatusMerge(s, responder, status, now, t);
    assert t.fastest in t.nodes && t.fastest != responder ==> t.fastest in Uuids(status.peers);
  }

  /** After a status response the nodes that are not faulty can make up a quorum exactly when the response
      lists a node; an empty list makes the quorum size wrap around. */
  lemma QuorumAfterMergeIff(s: SwarmState, responder: Uuid, status: Status, now: int, t: SwarmState)
    requires Ok(s) && responder in s.nodes && t == MergeStatus(s, responder, status, now)
    requires |t.nodes| < SIZE_T_RANGE
    ensures t.nodes == map[] <==> status.peers == []
    ensures HonestMajoritySize(|t.nodes|) <= |t.nodes| - FaultBound(|t.nodes|) <==> status.peers != []
  {
    hide MergeStatus, Ok, HonestMajoritySize, FaultBound;
    StatusMerge(s, responder, status, now, t);
    AttainableIffNonEmpty(|t.nodes|);
    assert |t.nodes| == |t.nodes.Keys|;
    if status.peers != [] {
      assert status.peers[0].uuid in Uuids(status.peers);
    }
  }

  // Runs

  /** A status response that reaches the swarm once it is initialised. */
  predicate Completes(s: SwarmState, e: Event) {
    Passes(s, e) && e.env.value.payload.StatusPayload? && s.initCalled
  }

  /** Every status response that reaches the swarm in these events, and parses, lists this node. */
  ghost predicate AlwaysListed(s: SwarmState, events: seq<Event>, u: Uuid) {
    forall i | 0 <= i < |events| :: ListedIn(Run(s, events[..i]), events[i], u)
  }

  predicate ListedIn(s: SwarmState, e: Event, u: Uuid) {
    Completes(s, e) && e.env.value.payload.status.Some? ==> u in Uuids(e.env.value.payload.status.value.peers)
  }

  /** Both maps lead this uuid to one node object, at one endpoint. */
  predicate SameEntry(s: NodeMap, t: NodeMap, u: Uuid) {
    u in s && u in t && t[u].node == s[u].node && t[u].host == s[u].host && t[u].port == s[u].port
  }

  /** A member listed in every status response that reaches the swarm keeps its node object, and with it its
      connection and queue, and its endpoint. */
  lemma {:induction false} ListedMembersStay(s: SwarmState, events: seq<Event>, u: Uuid)
    requires Ok(s) && s.initialNodes == [] && u in s.nodes && AlwaysListed(s, events, u)
    ensures Run(s, events).initialNodes == [] && SameEntry(s.nodes, Run(s, events).nodes, u)
  {
    if events != [] {
      var front, e := events[..|events| - 1], events[|events| - 1];
      assert AlwaysListed(s, front, u) by {
        assert forall i | 0 <= i < |front| :: front[..i] == events[..i] && front[i] == events[i];
      }
      assert ListedIn(Run(s, front), e, u);
      ListedMembersStay(s, front, u);
      RunKeeps(s, front);
      StaysOneStep(Run(s, front), e, u);
      hide Step, Ok, ListedIn;
    }
  }

  lemma ListedMemberStays(s: SwarmState, responder: Uuid, status: Status, now: int, u: Uuid)
    requires Ok(s) && responder in s.nodes && u in s.nodes && u in Uuids(status.peers)
    ensures var t := MergeStatus(s, responder, status, now);
            t.initialNodes == s.initialNodes && SameEntry(s.nodes, t.nodes, u)
  {
    AfterMerge(s, responder, status, now);
    var duration := now - s.nodes[responder].requestSent;
    AddedIffUnknown(s, responder, duration, status.peers, MergePeers(s.nodes, responder, duration, status.peers, s.pool, |s.rounds|), u);
    hide MergeStatus, MergePeers, Ok, Uuids, LastEntry;
  }

  lemma StaysOneStep(s: SwarmState, e: Event, u: Uuid)
    requires Ok(s) && s.initialNodes == [] && u in s.nodes && ListedIn(s, e, u)
    ensures Step(s, e).initialNodes == [] && SameEntry(s.nodes, Step(s, e).nodes, u)
  {
    if e.FromNode? {
      hide Ok;
      MessageStays(s, e, u);
    } else {
      hide HandleNodeMessage, Ok;
    }
  }

  lemma MessageStays(s: SwarmState, e: Event, u: Uuid)
    requires Ok(s) && u in s.nodes && e.FromNode? && ListedIn(s, e, u)
    ensures var t := HandleNodeMessage(s, e.uuid, e.env, e.now);
            t.initialNodes == s.initialNodes && SameEntry(s.nodes, t.nodes, u)
  {
    if IsAccepted(s, e.uuid, e.env) {
      var payload := e.env.value.payload;
      PacedOnly(s, TooBusy(payload));
      hide HandleStatusResponse, Ok, BackOffAll, Uuids;
      if payload.StatusPayload? && s.initCalled {
        if payload.status.Some? {
          ListedStays(s, e.uuid, payload.status.value, e.now, u, TooBusy(payload));
        } else {
          UnparsedStays(BackOffAll(s, TooBusy(payload)), e.uuid, e.now);
        }
      }
    }
  }

  lemma UnparsedStays(s: SwarmState, uuid: Uuid, now: int)
    requires uuid in s.nodes
    ensures var t := HandleStatusResponse(s, uuid, None, now);
            t.initialNodes == s.initialNodes && t.nodes == s.nodes && t.primary == s.primary && t.fastest == s.fastest
  {
  }

  lemma ListedStays(s: SwarmState, responder: Uuid, status: Status, now: int, u: Uuid, value: bool)
    requires Ok(s) && responder in s.nodes && u in s.nodes && u in Uuids(status.peers)
    ensures var t := HandleStatusResponse(BackOffAll(s, value), responder, Some(status), now);
            t.initialNodes == s.initialNodes && SameEntry(s.nodes, t.nodes, u)
  {
    var paced := BackOffAll(s, value);
    BackOffKeeps(s, value);
    PacedOnly(s, value);
    assert Ok(paced);
    StatusStep(paced, responder, status, now);
    hide *;
    ListedMemberStays(paced, responder, status, now, u);
  }

  lemma StatusStep(paced: SwarmState, responder: Uuid, status: Status, now: int)
    requires responder in paced.nodes
    ensures var t := HandleStatusResponse(paced, responder, Some(status), now);
            && t.nodes == MergeStatus(paced, responder, status, now).nodes
            && t.initialNodes == MergeStatus(paced, responder, status, now).initialNodes
  {
  }

  /** The number of rounds behind a node object made in this step. */
  function RoundsAt(s: SwarmState, e: Event): nat {
    if e.FromNode? then |s.rounds| + 1 else |s.rounds|
  }

  /** Node objects are numbered in the order they are made, and what is noted of one stays. */
  lemma StepMakes(s: SwarmState, e: Event)
    requires Ok(s)
    ensures var t := Step(s, e);
            && s.pool.next <= t.pool.next
            && (forall r <- s.pool.madeAt :: r < s.pool.next ==> r in t.pool.madeAt && t.pool.madeAt[r] == s.pool.madeAt[r])
            && (forall r | s.pool.next <= r < t.pool.next :: r in t.pool.madeAt && t.pool.madeAt[r] == RoundsAt(s, e))
  {
    match e
    case Use =>
      InitNodesKeeps(s);
    case Init(now) =>
      InitializeKeeps(s, now);
    case FromNode(uuid, env, now) =>
      if IsAccepted(s, uuid, env) && env.value.payload.StatusPayload? && s.initCalled && env.value.payload.status.Some? {
        var paced := BackOffAll(s, TooBusy(env.value.payload));
        BackOffKeeps(s, TooBusy(env.value.payload));
        PacedOnly(s, TooBusy(env.value.payload));
        hide BackOffAll, MembersOk;
        MergeStatusKeeps(paced, uuid, env.value.payload.status.value, now);
        hide MergeStatus;
      }
    case StatusTimer(uuid, now) =>
  }

  lemma {:induction false} MadeAtStays(s: SwarmState, events: seq<Event>, r: NodeRef)
    requires Ok(s) && r in s.pool.madeAt && r < s.pool.next
    ensures var t := Run(s, events); r < t.pool.next && r in t.pool.madeAt && t.pool.madeAt[r] == s.pool.madeAt[r]
  {
    if events != [] {
      var last := |events| - 1;
      MadeAtStays(s, events[..last], r);
      RunKeeps(s, events[..last]);
      StepMakes(Run(s, events[..last]), events[last]);
      hide Step, Ok;
    }
  }

  /** Two node objects made in one step always pause for the same time while both belong to members. */
  lemma MadeTogetherPauseAlike(list: seq<(Uuid, F.Endpoint)>, events: seq<Event>, e: Event, more: seq<Event>, u: Uuid, v: Uuid)
    requires list != []
    requires var made, now := Run(InitialSwarm(list), events), Run(Step(Run(InitialSwarm(list), events), e), more);
             && u in now.nodes && v in now.nodes && now.nodes[u].node.Some? && now.nodes[v].node.Some?
             && made.pool.next <= now.nodes[u].node.value < Step(made, e).pool.next
             && made.pool.next <= now.nodes[v].node.value < Step(made, e).pool.next
    ensures var now := Run(Step(Run(InitialSwarm(list), events), e), more);
            && now.nodes[u].node.value in now.pool.pauses && now.nodes[v].node.value in now.pool.pauses
            && now.pool.pauses[now.nodes[u].node.value] == now.pool.pauses[now.nodes[v].node.value]
  {
    var made := Run(InitialSwarm(list), events);
    RunKeeps(InitialSwarm(list), events);
    StepMakes(made, e);
    StepKeeps(made, e);
    RunKeeps(Step(made, e), more);
    var now := Run(Step(made, e), more);
    MadeAtStays(Step(made, e), more, now.nodes[u].node.value);
    MadeAtStays(Step(made, e), more, now.nodes[v].node.value);
    hide Step, Run;
  }

  // Rounds and messages

  /** A message that parses, relayed by a member, with no sender or a member as its sender, and no signature or
      a good one. */
  predicate Passes(s: SwarmState, e: Event) {
    e.FromNode? && e.uuid in s.nodes && e.env.Some? &&
    (e.env.value.sender == "" || e.env.value.sender in s.nodes) && !e.env.value.badSignature
  }

  predicate IsBusyError(e: Event) {
    e.FromNode? && e.env.Some? && e.env.value.payload.ErrorPayload? && e.env.value.payload.message == Some("SERVER TOO BUSY")
  }

  /** For each message that passed, in order, whether it was a swarm error that says the server is too busy. */
  function BusyMessages(list: seq<(Uuid, F.Endpoint)>, events: seq<Event>): seq<bool> {
    if events == [] then []
    else
      var last := |events| - 1;
      BusyMessages(list, events[..last])
      + if Passes(Run(InitialSwarm(list), events[..last]), events[last]) then [IsBusyError(events[last])] else []
  }

  lemma InitRounds(s: SwarmState, now: int)
    ensures InitNodes(s).rounds == s.rounds && Initialize(s, now).rounds == s.rounds
  {
  }

  /** Every message that passes is a round, and a busy one exactly when it is a busy error; one that does not
      pass changes nothing. */
  lemma RoundStep(s: SwarmState, e: Event)
    requires Ok(s)
    ensures Step(s, e).rounds == s.rounds + if Passes(s, e) then [IsBusyError(e)] else []
    ensures e.FromNode? && !Passes(s, e) ==> Step(s, e) == s
  {
    match e
    case Use =>
      InitRounds(s, 0);
    case Init(now) =>
      InitRounds(s, now);
    case StatusTimer(uuid, now) =>
    case FromNode(uuid, env, now) =>
      if Passes(s, e) {
        var payload := env.value.payload;
        var paced := BackOffAll(s, TooBusy(payload));
        PacedOnly(s, TooBusy(payload));
        BackOffKeeps(s, TooBusy(payload));
        hide BackOffAll, MembersOk;
        if payload.StatusPayload? && s.initCalled && payload.status.Some? {
          MergeStatusKeeps(paced, uuid, payload.status.value, now);
          hide MergeStatus;
        }
      }
  }

  /** Over every run the rounds are the messages that passed: nothing else slows the nodes down or speeds
      them up. */
  lemma {:induction false} RoundsAreMessages(list: seq<(Uuid, F.Endpoint)>, events: seq<Event>)
    requires list != []
    ensures Run(InitialSwarm(list), events).rounds == BusyMessages(list, events)
  {
    if events != [] {
      var last := |events| - 1;
      RoundsAreMessages(list, events[..last]);
      RunKeeps(InitialSwarm(list), events[..last]);
      RoundStep(Run(InitialSwarm(list), events[..last]), events[last]);
      hide Step, Passes, IsBusyError, Ok;
    }
  }

  /** What one message does to the pause of a member: a busy error doubles it, from 1 to at most 1024 ms;
      any other message that passes halves it. */
  lemma MessagePaces(s: SwarmState, e: Event, u: Uuid)
    requires Ok(s) && Passes(s, e) && u in s.nodes
    ensures s.nodes[u].node.Some? && s.nodes[u].node.value in s.pool.pauses
    ensures var r := s.nodes[u].node.value;
            var pause := s.pool.pauses[r];
            && r in Step(s, e).pool.pauses
            && Step(s, e).pool.pauses[r] ==
               if IsBusyError(e) then (if pause == 0 then 1 else if pause < 512 then 2 * pause else 1024) else pause / 2
  {
    var payload, r := e.env.value.payload, s.nodes[u].node.value;
    assert Paced(s.pool, r, s.rounds) && r in Refs(s.nodes);
    var paced := BackOffAll(s, TooBusy(payload));
    PacedOnly(s, TooBusy(payload));
    BackOffKeeps(s, TooBusy(payload));
    assert paced.pool.pauses[r] == BackOff(s.pool.pauses[r], IsBusyError(e));
    hide BackOffAll, MembersOk;
    if payload.StatusPayload? && s.initCalled && payload.status.Some? {
      MergeStatusKeeps(paced, e.uuid, payload.status.value, e.now);
      hide MergeStatus;
    }
  }

  /** A member does not pause once eleven messages in a row have passed, none of them a busy error, since it
      was a member with this node object. */
  lemma QuietMembersDoNotPause(list: seq<(Uuid, F.Endpoint)>, events: seq<Event>, k: nat, u: Uuid)
    requires list != [] && k <= |events|
    requires SameEntry(Run(InitialSwarm(list), events[..k]).nodes, Run(InitialSwarm(list), events).nodes, u)
    requires |BusyMessages(list, events)| >= |BusyMessages(list, events[..k])| + 11
    requires forall i | |BusyMessages(list, events)| - 11 <= i < |BusyMessages(list, events)| :: !BusyMessages(list, events)[i]
    ensures var s := Run(InitialSwarm(list), events);
            s.nodes[u].node.Some? && s.nodes[u].node.value in s.pool.pauses && s.pool.pauses[s.nodes[u].node.value] == 0
  {
    var init := InitialSwarm(list);
    var before, s := Run(init, events[..k]), Run(init, events);
    assert Ok(init) && SameEntry(before.nodes, s.nodes, u);
    hide Run, BusyMessages, Ok;
    RunSplit(init, events, k);
    RunKeeps(init, events[..k]);
    RunKeeps(init, events);
    RoundsAreMessages(list, events[..k]);
    RoundsAreMessages(list, events);
    PacedMember(before, u);
    PacedMember(s, u);
    MadeAtStays(before, events[k..], before.nodes[u].node.value);
    QuietPause(s.rounds, s.pool.madeAt[s.nodes[u].node.value]);
  }

  lemma PacedMember(s: SwarmState, u: Uuid)
    requires Ok(s) && u in s.nodes
    ensures s.nodes[u].node.Some?
    ensures var r := s.nodes[u].node.value;
            && r in s.pool.pauses && r in s.pool.madeAt && r < s.pool.next && s.pool.madeAt[r] <= |s.rounds|
            && s.pool.pauses[r] == BackoffAfter(s.rounds[s.pool.madeAt[r]..])
  {
    assert Paced(s.pool, s.nodes[u].node.value, s.rounds);
  }

  lemma QuietPause(rounds: seq<bool>, made: nat)
    requires made + 11 <= |rounds| && forall i | |rounds| - 11 <= i < |rounds| :: !rounds[i]
    ensures BackoffAfter(rounds[made..]) == 0
  {
    var n := |rounds| - 11;
    assert rounds[n..] == Repeat(false, 11);
    assert rounds[made..] == rounds[made..n] + rounds[n..];
    ElevenCallsClear(rounds[made..n]);
  }

  lemma RunStep(s: SwarmState, events: seq<Event>)
    requires events != []
    ensures Run(s, events) == Step(Run(s, events[..|events| - 1]), events[|events| - 1])
  {
  }

  lemma {:induction false} RunSplit(s: SwarmState, events: seq<Event>, k: nat)
    requires k <= |events|
    ensures Run(s, events) == Run(Run(s, events[..k]), events[k..])
  {
    if k == |events| {
      assert events[..k] == events && events[k..] == [];
    } else {
      var last := |events| - 1;
      hide Step, Run;
      RunSplit(s, events[..last], k);
      RunStep(s, events);
      RunStep(Run(s, events[..k]), events[k..]);
      assert events[..last][..k] == events[..k] && events[..last][k..] == events[k..][..last - k];
    }
  }

  // Members and requests before the first status response

  /** The endpoint a list gives a node last. */
  function LastListed(list: seq<(Uuid, F.Endpoint)>, u: Uuid): Option<F.Endpoint> {
    if list == [] then None
    else if list[|list| - 1].0 == u then Some(list[|list| - 1].1)
    else LastListed(list[..|list| - 1], u)
  }

  lemma {:induction false} ListedMembers(list: seq<(Uuid, F.Endpoint)>, pool: Pool, rounds: nat, u: Uuid)
    ensures var nodes := AddNodes(list, pool, rounds).nodes;
            && (u in nodes <==> LastListed(list, u).Some?)
            && (u in nodes ==> && nodes[u].host == LastListed(list, u).value.host && nodes[u].port == LastListed(list, u).value.port
                               && nodes[u].requestSent == 0 && nodes[u].duration == 0)
  {
    if list != [] {
      ListedMembers(list[..|list| - 1], pool, rounds, u);
    }
  }

  /** The first members are the nodes listed, at the endpoint listed last; the first of the list is primary and
      fastest; none has been asked for its status. */
  lemma InitialMembers(list: seq<(Uuid, F.Endpoint)>, u: Uuid)
    requires list != []
    ensures var s := InitNodes(InitialSwarm(list));
            && s.initialNodes == [] && s.primary == s.fastest == list[0].0 && s.requests == multiset{}
            && (u in s.nodes <==> LastListed(list, u).Some?)
            && (u in s.nodes ==> s.nodes[u].host == LastListed(list, u).value.host
                                 && s.nodes[u].port == LastListed(list, u).value.port && s.nodes[u].duration == 0)
  {
    ListedMembers(list, InitialSwarm(list).pool, 0, u);
  }

  /** The first `initialize` asks every member for its status once and notes the time; another is refused and
      asks nobody. */
  lemma InitializeAsksAll(s: SwarmState, now: int)
    requires Ok(s)
    ensures var t := Initialize(s, now);
            if s.initCalled then t.refused == s.refused + 1 && t.requests == s.requests && t.nodes == s.nodes
            else
              && t.initCalled && t.handlerSet && t.refused == s.refused
              && t.nodes.Keys == InitNodes(s).nodes.Keys && t.nodes.Keys != {}
              && (forall u <- t.nodes :: t.nodes[u] == InitNodes(s).nodes[u].(requestSent := now))
              && t.requests == s.requests + multiset(t.nodes.Keys)
  {
    InitNodesKeeps(s);
    var ready := InitNodes(s);
    assert !s.initCalled ==> ready.nodes != map[];
    hide InitNodes, Ok;
    assert SendAll(ready, now).nodes.Keys == ready.nodes.Keys;
    assert ready.nodes != map[] ==> ready.nodes.Keys != {};
  }

  /** A status request of a member notes the time, and changes nothing else. */
  lemma StatusRequestIsTimed(s: SwarmState, u: Uuid, now: int)
    ensures var t := Step(s, StatusTimer(u, now));
            if u !in s.nodes then t == s
            else
              && t.nodes.Keys == s.nodes.Keys && t.requests == s.requests + multiset{u}
              && t.nodes[u] == s.nodes[u].(requestSent := now)
              && (forall v <- s.nodes :: v != u ==> t.nodes[v] == s.nodes[v])
              && t == s.(nodes := t.nodes, requests := t.requests)
  {
    assert u in s.nodes ==> Step(s, StatusTimer(u, now)).nodes.Keys == s.nodes.Keys;
  }

  /** Some event of a run was such a response when it came. */
  ghost predicate HasCompleted(list: seq<(Uuid, F.Endpoint)>, events: seq<Event>) {
    exists i | 0 <= i < |events| :: Completes(Run(InitialSwarm(list), events[..i]), events[i])
  }

  lemma HasCompletedStep(list: seq<(Uuid, F.Endpoint)>, events: seq<Event>)
    requires events != []
    ensures var last := |events| - 1;
            HasCompleted(list, events) <==> HasCompleted(list, events[..last]) || Completes(Run(InitialSwarm(list), events[..last]), events[last])
  {
    var front := events[..|events| - 1];
    hide Run, Completes;
    assert forall i | 0 <= i < |front| :: front[..i] == events[..i] && front[i] == events[i];
    if HasCompleted(list, front) {
      var i :| 0 <= i < |front| && Completes(Run(InitialSwarm(list), front[..i]), front[i]);
      assert Completes(Run(InitialSwarm(list), events[..i]), events[i]);
    }
  }

  /** The initialisation handler is called once, by the first status response after `initialize`, whether or
      not that parses; and it is waiting exactly when none has come. */
  lemma HandlerCalledOnceIff(list: seq<(Uuid, F.Endpoint)>, events: seq<Event>)
    requires list != []
    ensures var s := Run(InitialSwarm(list), events);
            && s.handlerCalls == (if HasCompleted(list, events) then 1 else 0)
            && (s.handlerSet <==> s.initCalled && !HasCompleted(list, events))
  {
    RunKeeps(InitialSwarm(list), events);
    AnsweredIff(list, events);
  }

  lemma {:induction false} AnsweredIff(list: seq<(Uuid, F.Endpoint)>, events: seq<Event>)
    requires list != []
    ensures Run(InitialSwarm(list), events).answered > 0 <==> HasCompleted(list, events)
  {
    if events != [] {
      var last := |events| - 1;
      AnsweredIff(list, events[..last]);
      RunKeeps(InitialSwarm(list), events[..last]);
      AnsweredStep(Run(InitialSwarm(list), events[..last]), events[last]);
      HasCompletedStep(list, events);
      hide Step, Completes, Ok, HasCompleted;
    }
  }

  lemma AnsweredStep(s: SwarmState, e: Event)
    requires Ok(s)
    ensures Step(s, e).answered == s.answered + if Completes(s, e) then 1 else 0
  {
    if Completes(s, e) && e.env.value.payload.status.Some? {
      var paced := BackOffAll(s, TooBusy(e.env.value.payload));
      BackOffKeeps(s, TooBusy(e.env.value.payload));
      PacedOnly(s, TooBusy(e.env.value.payload));
      hide BackOffAll, MembersOk;
      MergeStatusKeeps(paced, e.uuid, e.env.value.payload.status.value, e.now);
    }
  }
}

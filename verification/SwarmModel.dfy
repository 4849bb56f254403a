/** The values and transitions of `swarm/swarm`: its node map, the choice of the fastest node, the one
    call of the initialisation handler, and the pause each node object keeps between writes. Class
    `Swarm.Swarm` is proved to take exactly these transitions. */
module SwarmModel {
  import opened Wrappers
  import opened Backoff
  import D = DispatchModel
  import F = FactoryModel

  const UINT16_RANGE := 0x1_0000

  /** Identity of a node object. */
  type NodeRef = nat

  datatype NodeInfo = NodeInfo(node: Option<NodeRef>, host: string, port: nat, requestSent: int, duration: int)

  const NO_INFO := NodeInfo(None, "", 0, 0, 0)

  type NodeMap = map<Uuid, NodeInfo>

  /** The node objects made so far: the pause of each, and how many `back_off` rounds came before it. */
  datatype Pool = Pool(next: NodeRef, pauses: map<NodeRef, nat>, madeAt: map<NodeRef, nat>)

  datatype Peer = Peer(uuid: Uuid, host: string, port: nat)

  /** The parts of a parsed status response that the swarm uses. */
  datatype Status = Status(peers: seq<Peer>, primary: Uuid)

  function CreateNode(pool: Pool, rounds: nat): Pool {
    Pool(pool.next + 1, pool.pauses[pool.next := 0], pool.madeAt[pool.next := rounds])
  }

  function FreshInfo(ref: NodeRef, host: string, port: nat): NodeInfo {
    NodeInfo(Some(ref), host, port, 0, 0)
  }

  // The first members

  datatype Members = Members(nodes: NodeMap, pool: Pool)

  function AddNodes(list: seq<(Uuid, F.Endpoint)>, pool: Pool, rounds: nat): Members {
    if list == [] then Members(map[], pool)
    else
      var m := AddNodes(list[..|list| - 1], pool, rounds);
      var (uuid, endpoint) := list[|list| - 1];
      Members(m.nodes[uuid := FreshInfo(m.pool.next, endpoint.host, endpoint.port)], CreateNode(m.pool, rounds))
  }

  // The merge of a status response

  datatype Merge = Merge(nodes: NodeMap, pool: Pool, added: seq<Uuid>, fastest: Uuid, fastestTime: int)

  predicate IsKnown(known: NodeMap, uuid: Uuid) {
    uuid in known && known[uuid].node.Some?
  }

  function MergePeer(known: NodeMap, responder: Uuid, duration: int, m: Merge, peer: Peer, rounds: nat): Merge {
    var isKnown := IsKnown(known, peer.uuid);
    var info := if isKnown then known[peer.uuid] else FreshInfo(m.pool.next, peer.host, peer.port % UINT16_RANGE);
    var timed := if peer.uuid == responder then info.(duration := duration) else info;
    var faster := 0 < timed.duration < m.fastestTime;
    Merge(m.nodes[peer.uuid := timed],
          if isKnown then m.pool else CreateNode(m.pool, rounds),
          if isKnown then m.added else m.added + [peer.uuid],
          if faster then peer.uuid else m.fastest,
          if faster then timed.duration else m.fastestTime)
  }

  function MergePeers(known: NodeMap, responder: Uuid, duration: int, peers: seq<Peer>, pool: Pool, rounds: nat): Merge {
    if peers == [] then Merge(map[], pool, [], responder, duration)
    else
      var m := MergePeers(known, responder, duration, peers[..|peers| - 1], pool, rounds);
      MergePeer(known, responder, duration, m, peers[|peers| - 1], rounds)
  }

  // The swarm

  /** The fields of the swarm with its node objects, followed by its history: status requests sent to each
      uuid, `back_off` rounds, status responses handled, and calls and refusals of initialisation handlers. */
  datatype SwarmState = SwarmState(
    initialNodes: seq<(Uuid, F.Endpoint)>, nodes: NodeMap, primary: Uuid, fastest: Uuid,
    initCalled: bool, handlerSet: bool, pool: Pool,
    requests: multiset<Uuid>, rounds: seq<bool>, answered: nat, handlerCalls: nat, refused: nat)

  function InitialSwarm(list: seq<(Uuid, F.Endpoint)>): SwarmState {
    SwarmState(list, map[], "", "", false, false, Pool(0, map[], map[]), multiset{}, [], 0, 0, 0)
  }

  function InitNodes(s: SwarmState): SwarmState {
    if s.initialNodes == [] then s
    else
      var m, first := AddNodes(s.initialNodes, s.pool, |s.rounds|), s.initialNodes[0].0;
      s.(initialNodes := [], nodes := m.nodes, pool := m.pool, primary := first, fastest := first)
  }

  function SendStatusRequest(s: SwarmState, uuid: Uuid, now: int): SwarmState {
    if uuid !in s.nodes then s
    else s.(nodes := s.nodes[uuid := s.nodes[uuid].(requestSent := now)], requests := s.requests + multiset{uuid})
  }

  function SendEach(s: SwarmState, uuids: seq<Uuid>, now: int): SwarmState {
    if uuids == [] then s
    else SendStatusRequest(SendEach(s, uuids[..|uuids| - 1], now), uuids[|uuids| - 1], now)
  }

  function SendAll(s: SwarmState, now: int): SwarmState {
    s.(nodes := map u | u in s.nodes :: s.nodes[u].(requestSent := now), requests := s.requests + multiset(s.nodes.Keys))
  }

  function Initialize(s: SwarmState, now: int): SwarmState {
    var ready := InitNodes(s);
    if ready.initCalled then ready.(refused := ready.refused + 1)
    else SendAll(ready.(initCalled := true, handlerSet := true), now)
  }

  function MergeStatus(s: SwarmState, responder: Uuid, status: Status, now: int): SwarmState
    requires responder in s.nodes
  {
    var m := MergePeers(s.nodes, responder, now - s.nodes[responder].requestSent, status.peers, s.pool, |s.rounds|);
    SendEach(s.(nodes := m.nodes, pool := m.pool, primary := status.primary, fastest := m.fastest), m.added, now)
  }

  /** Any status response completes the initialisation, even one that does not parse. */
  function HandleStatusResponse(s: SwarmState, responder: Uuid, status: Option<Status>, now: int): SwarmState
    requires responder in s.nodes
  {
    Answered(if status.Some? then MergeStatus(s, responder, status.value, now) else s)
  }

  function Answered(s: SwarmState): SwarmState {
    s.(answered := s.answered + 1, handlerSet := false, handlerCalls := if s.handlerSet then s.handlerCalls + 1 else s.handlerCalls)
  }

  // Messages from nodes

  datatype Payload =
    | ErrorPayload(message: Option<string>, handled: Option<bool>)   // a swarm error; its message if it parses
    | StatusPayload(status: Option<Status>)                          // a status response, if it parses
    | OtherPayload(handled: Option<bool>)                            // with what a registered handler returns, if there is one

  datatype Envelope = Envelope(sender: Uuid, badSignature: bool, payload: Payload)

  predicate TooBusy(payload: Payload) {
    payload.ErrorPayload? && payload.message == Some(D.TOO_BUSY_ERROR_MSG)
  }

  function Refs(nodes: NodeMap): set<NodeRef> {
    set u | u in nodes && nodes[u].node.Some? :: nodes[u].node.value
  }

  function BackOffAll(s: SwarmState, value: bool): SwarmState {
    var pauses := map r | r in s.pool.pauses :: if r in Refs(s.nodes) then BackOff(s.pool.pauses[r], value) else s.pool.pauses[r];
    s.(pool := s.pool.(pauses := pauses), rounds := s.rounds + [value])
  }

  /** Whether a message from this node gets as far as the `back_off` round. */
  predicate IsAccepted(s: SwarmState, uuid: Uuid, env: Option<Envelope>) {
    uuid in s.nodes && env.Some? && (env.value.sender == "" || env.value.sender in s.nodes) && !env.value.badSignature
  }

  function HandleNodeMessage(s: SwarmState, uuid: Uuid, env: Option<Envelope>, now: int): SwarmState {
    if !IsAccepted(s, uuid, env) then s
    else
      var paced := BackOffAll(s, TooBusy(env.value.payload));
      if env.value.payload.StatusPayload? && s.initCalled then HandleStatusResponse(paced, uuid, env.value.payload.status, now)
      else paced
  }

  // Runs

  datatype Event =
    | Use                                                         // `send_request` or `honest_majority_size`
    | Init(now: int)
    | FromNode(uuid: Uuid, env: Option<Envelope>, now: int)
    | StatusTimer(uuid: Uuid, now: int)

  function Step(s: SwarmState, e: Event): SwarmState {
    match e
    case Use => InitNodes(s)
    case Init(now) => Initialize(s, now)
    case FromNode(uuid, env, now) => HandleNodeMessage(s, uuid, env, now)
    case StatusTimer(uuid, now) => SendStatusRequest(s, uuid, now)
  }

  function Run(s: SwarmState, events: seq<Event>): SwarmState {
    if events == [] then s else Step(Run(s, events[..|events| - 1]), events[|events| - 1])
  }

  // What holds of the swarm at all times

  /** Each member has a node object of its own, whose pause is what the rounds since it was made make it. */
  ghost predicate MembersOk(nodes: NodeMap, pool: Pool, rounds: seq<bool>) {
    && (forall r <- pool.pauses :: r < pool.next)
    && (forall u <- nodes :: nodes[u].node.Some? && Paced(pool, nodes[u].node.value, rounds))
    && (forall u, v | u in nodes && v in nodes && u != v :: nodes[u].node != nodes[v].node)
  }

  ghost predicate Paced(pool: Pool, r: NodeRef, rounds: seq<bool>) {
    && r in pool.pauses && r in pool.madeAt && pool.madeAt[r] <= |rounds|
    && pool.pauses[r] == BackoffAfter(rounds[pool.madeAt[r]..])
  }

  /** The handler waits until the first status response after `initialize`, and is then called once. */
  predicate HandlerOk(s: SwarmState) {
    && (s.handlerSet <==> s.initCalled && s.answered == 0)
    && s.handlerCalls == (if s.answered > 0 then 1 else 0)
    && (s.answered > 0 ==> s.initCalled)
  }

  /** Until `initialize` the members are those the swarm was made with. */
  predicate StartOk(s: SwarmState) {
    && (s.initialNodes != [] ==> s.nodes == map[] && !s.initCalled)
    && (s.initialNodes == [] && !s.initCalled ==> s.nodes != map[])
  }

  ghost predicate Ok(s: SwarmState) {
    MembersOk(s.nodes, s.pool, s.rounds) && HandlerOk(s) && StartOk(s)
  }

  // How the pool grows

  ghost predicate Grows(before: Pool, after: Pool, rounds: nat) {
    && before.next <= after.next
    && (forall r <- before.pauses :: r in after.pauses && after.pauses[r] == before.pauses[r])
    && (forall r <- before.madeAt :: r < before.next ==> r in after.madeAt && after.madeAt[r] == before.madeAt[r])
    && (forall r | before.next <= r < after.next ::
          r in after.pauses && after.pauses[r] == 0 && r in after.madeAt && after.madeAt[r] == rounds)
    && (forall r <- after.pauses :: r in before.pauses || before.next <= r < after.next)
  }

  lemma OneMore(before: Pool, pool: Pool, rounds: nat)
    requires (forall r <- before.pauses :: r < before.next) && Grows(before, pool, rounds)
    ensures Grows(before, CreateNode(pool, rounds), rounds)
  {
  }

  lemma StaysPaced(before: Pool, after: Pool, r: NodeRef, rounds: seq<bool>)
    requires (forall r <- before.pauses :: r < before.next) && Grows(before, after, |rounds|)
    requires Paced(before, r, rounds) || before.next <= r < after.next
    ensures Paced(after, r, rounds)
  {
    if before.next <= r {
      assert rounds[|rounds|..] == [];
    }
  }

  // The merge

  function Uuids(peers: seq<Peer>): set<Uuid> {
    set p | p in peers :: p.uuid
  }

  function Times(peers: seq<Peer>, uuid: Uuid): nat {
    if peers == [] then 0
    else Times(peers[..|peers| - 1], uuid) + if peers[|peers| - 1].uuid == uuid then 1 else 0
  }

  /** The last entry for a listed uuid. */
  function LastEntry(peers: seq<Peer>, uuid: Uuid): (p: Peer)
    requires uuid in Uuids(peers)
    ensures p in peers && p.uuid == uuid
  {
    var last := |peers| - 1;
    if peers[last].uuid == uuid then peers[last]
    else
      assert peers == peers[..last] + [peers[last]];
      LastEntry(peers[..last], uuid)
  }

  /** A merged entry is the known one, or a new one at the listed endpoint, with the responder's time noted. */
  ghost predicate IsMerged(known: NodeMap, responder: Uuid, duration: int, peers: seq<Peer>, pool: Pool, m: Merge, u: Uuid)
    requires u in m.nodes && u in Uuids(peers)
  {
    var info := m.nodes[u];
    if IsKnown(known, u) then info == if u == responder then known[u].(duration := duration) else known[u]
    else
      && info.node.Some? && pool.next <= info.node.value < m.pool.next
      && info == NodeInfo(info.node, LastEntry(peers, u).host, LastEntry(peers, u).port % UINT16_RANGE,
                          0, if u == responder then duration else 0)
  }

  lemma LastPeer(peers: seq<Peer>)
    requires peers != []
    ensures Uuids(peers) == Uuids(peers[..|peers| - 1]) + {peers[|peers| - 1].uuid}
  {
    assert peers == peers[..|peers| - 1] + [peers[|peers| - 1]];
  }

  /** The members are those listed, and each mention of an unknown one makes a node object. */
  lemma {:induction false} MergedKeys(known: NodeMap, responder: Uuid, duration: int, peers: seq<Peer>, pool: Pool, rounds: nat)
    requires forall r <- pool.pauses :: r < pool.next
    ensures var m := MergePeers(known, responder, duration, peers, pool, rounds);
            m.nodes.Keys == Uuids(peers) && Grows(pool, m.pool, rounds) && m.pool.next == pool.next + |m.added|
  {
    if peers != [] {
      var last := |peers| - 1;
      var before := MergePeers(known, responder, duration, peers[..last], pool, rounds);
      MergedKeys(known, responder, duration, peers[..last], pool, rounds);
      LastPeer(peers);
      OneMore(pool, before.pool, rounds);
      hide Grows, Uuids;
    }
  }

  /** Each mention of an unknown node, and of no other, asks for a status request. */
  lemma {:induction false} MergedAdded(known: NodeMap, responder: Uuid, duration: int, peers: seq<Peer>, pool: Pool, rounds: nat, u: Uuid)
    ensures multiset(MergePeers(known, responder, duration, peers, pool, rounds).added)[u]
         == if IsKnown(known, u) then 0 else Times(peers, u)
  {
    if peers != [] {
      var last := |peers| - 1;
      var before := MergePeers(known, responder, duration, peers[..last], pool, rounds);
      MergedAdded(known, responder, duration, peers[..last], pool, rounds, u);
      assert multiset(before.added + [peers[last].uuid]) == multiset(before.added) + multiset{peers[last].uuid};
    }
  }

  lemma {:induction false} MergedEntry(known: NodeMap, responder: Uuid, duration: int, peers: seq<Peer>, pool: Pool, rounds: nat, u: Uuid)
    requires (forall r <- pool.pauses :: r < pool.next) && u in Uuids(peers)
    ensures var m := MergePeers(known, responder, duration, peers, pool, rounds);
            u in m.nodes && IsMerged(known, responder, duration, peers, pool, m, u)
  {
    var last := |peers| - 1;
    var before := MergePeers(known, responder, duration, peers[..last], pool, rounds);
    MergedKeys(known, responder, duration, peers[..last], pool, rounds);
    LastPeer(peers);
    if peers[last].uuid != u {
      MergedEntry(known, responder, duration, peers[..last], pool, rounds, u);
      hide Uuids, Grows;
      assert LastEntry(peers, u) == LastEntry(peers[..last], u);
    } else {
      hide Uuids;
    }
  }

  lemma {:induction false} MergedApart(known: NodeMap, responder: Uuid, duration: int, peers: seq<Peer>, pool: Pool, rounds: nat, u: Uuid, v: Uuid)
    requires (forall r <- pool.pauses :: r < pool.next) && u != v
    requires u in Uuids(peers) && v in Uuids(peers) && !IsKnown(known, u) && !IsKnown(known, v)
    ensures var m := MergePeers(known, responder, duration, peers, pool, rounds);
            u in m.nodes && v in m.nodes && m.nodes[u].node != m.nodes[v].node
  {
    var last := |peers| - 1;
    var peer, before := peers[last], MergePeers(known, responder, duration, peers[..last], pool, rounds);
    LastPeer(peers);
    if u in Uuids(peers[..last]) {
      MergedEntry(known, responder, duration, peers[..last], pool, rounds, u);
    }
    if v in Uuids(peers[..last]) {
      MergedEntry(known, responder, duration, peers[..last], pool, rounds, v);
    }
    if peer.uuid != u && peer.uuid != v {
      MergedApart(known, responder, duration, peers[..last], pool, rounds, u, v);
    }
    hide Uuids, LastEntry;
  }

  ghost predicate IsBest(m: Merge, responder: Uuid, duration: int) {
    && (forall u <- m.nodes :: m.nodes[u].duration > 0 ==> m.fastestTime <= m.nodes[u].duration)
    && if m.fastest == responder then m.fastestTime == duration
       else m.fastest in m.nodes && 0 < m.nodes[m.fastest].duration == m.fastestTime < duration
  }

  /** The times a merge notes: the responder's, and those known before. */
  ghost predicate HasTimes(m: Merge, known: NodeMap, responder: Uuid, duration: int) {
    forall u <- m.nodes :: m.nodes[u].duration ==
      if u == responder then duration else if IsKnown(known, u) then known[u].duration else 0
  }

  /** The chosen node is the responder, or a listed one whose recorded time is positive and less than the
      responder's; and nothing listed with a positive time is faster. */
  lemma {:induction false} MergedFastest(known: NodeMap, responder: Uuid, duration: int, peers: seq<Peer>, pool: Pool, rounds: nat)
    ensures IsBest(MergePeers(known, responder, duration, peers, pool, rounds), responder, duration)
  {
    if peers != [] {
      var last := |peers| - 1;
      MergedFastest(known, responder, duration, peers[..last], pool, rounds);
      RecordedTime(known, responder, duration, peers[..last], pool, rounds);
    }
  }

  /** Of several listed nodes that are equally fast the first is chosen, and the responder before any. */
  lemma {:induction false} FirstOfFastest(known: NodeMap, responder: Uuid, duration: int, peers: seq<Peer>, pool: Pool, rounds: nat)
    returns (k: nat)
    ensures var m := MergePeers(known, responder, duration, peers, pool, rounds);
            m.fastest != responder ==>
              && k < |peers| && peers[k].uuid == m.fastest
              && forall j | 0 <= j < k :: peers[j].uuid in m.nodes && (m.nodes[peers[j].uuid].duration > 0 ==>
                   m.fastestTime < m.nodes[peers[j].uuid].duration)
  {
    if peers == [] {
      k := 0;
    } else {
      var last := |peers| - 1;
      var before, m := MergePeers(known, responder, duration, peers[..last], pool, rounds), MergePeers(known, responder, duration, peers, pool, rounds);
      k := FirstOfFastest(known, responder, duration, peers[..last], pool, rounds);
      MergedFastest(known, responder, duration, peers[..last], pool, rounds);
      RecordedTime(known, responder, duration, peers[..last], pool, rounds);
      RecordedTime(known, responder, duration, peers, pool, rounds);
      ListedBefore(known, responder, duration, peers[..last], pool, rounds);
      assert m == MergePeer(known, responder, duration, before, peers[last], rounds);
      assert forall u <- before.nodes :: u in m.nodes && m.nodes[u].duration == before.nodes[u].duration;
      hide MergePeers, IsKnown;
      if 0 < m.nodes[peers[last].uuid].duration < before.fastestTime {
        k := last;
      }
    }
  }

  lemma {:induction false} ListedBefore(known: NodeMap, responder: Uuid, duration: int, peers: seq<Peer>, pool: Pool, rounds: nat)
    ensures forall j | 0 <= j < |peers| :: peers[j].uuid in MergePeers(known, responder, duration, peers, pool, rounds).nodes
  {
    if peers != [] {
      ListedBefore(known, responder, duration, peers[..|peers| - 1], pool, rounds);
    }
  }

  lemma {:induction false} RecordedTime(known: NodeMap, responder: Uuid, duration: int, peers: seq<Peer>, pool: Pool, rounds: nat)
    ensures HasTimes(MergePeers(known, responder, duration, peers, pool, rounds), known, responder, duration)
  {
    if peers != [] {
      RecordedTime(known, responder, duration, peers[..|peers| - 1], pool, rounds);
    }
  }

  lemma MergeKeepsMembers(known: NodeMap, responder: Uuid, duration: int, peers: seq<Peer>, pool: Pool, rounds: seq<bool>)
    requires MembersOk(known, pool, rounds)
    ensures var m := MergePeers(known, responder, duration, peers, pool, |rounds|);
            MembersOk(m.nodes, m.pool, rounds)
  {
    MergedKeys(known, responder, duration, peers, pool, |rounds|);
    var m := MergePeers(known, responder, duration, peers, pool, |rounds|);
    hide MergePeers, Uuids;
    forall u <- m.nodes ensures m.nodes[u].node.Some? && Paced(m.pool, m.nodes[u].node.value, rounds) {
      MergedEntry(known, responder, duration, peers, pool, |rounds|, u);
      StaysPaced(pool, m.pool, m.nodes[u].node.value, rounds);
      hide Grows, Paced;
    }
    assert forall r <- m.pool.pauses :: r < m.pool.next;
    hide *;
    forall u, v | u in m.nodes && v in m.nodes && u != v ensures m.nodes[u].node != m.nodes[v].node {
      OwnNode(known, responder, duration, peers, pool, rounds, u, v);
    }
  }

  lemma OwnNode(known: NodeMap, responder: Uuid, duration: int, peers: seq<Peer>, pool: Pool, rounds: seq<bool>, u: Uuid, v: Uuid)
    requires MembersOk(known, pool, rounds) && u != v && u in Uuids(peers) && v in Uuids(peers)
    ensures var m := MergePeers(known, responder, duration, peers, pool, |rounds|);
            u in m.nodes && v in m.nodes && m.nodes[u].node != m.nodes[v].node
  {
    MergedEntry(known, responder, duration, peers, pool, |rounds|, u);
    MergedEntry(known, responder, duration, peers, pool, |rounds|, v);
    if !IsKnown(known, u) && !IsKnown(known, v) {
      MergedApart(known, responder, duration, peers, pool, |rounds|, u, v);
    }
    hide MergePeers, Uuids, Paced, LastEntry;
  }
}

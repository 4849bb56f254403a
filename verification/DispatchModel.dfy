/** The values and the transitions of `database/db_dispatch`, with the io thread's timers and clock
    around them. Class `DbDispatch.DbDispatch` is proved to take exactly these transitions. */
module DispatchModel {
  import opened Wrappers
  import opened Quorum

  const REQUEST_RETRY_TIME := 1500
  const BROADCAST_RETRY_TIME := 3000
  const TIMESTAMP_ERROR_MSG := "INVALID TIMESTAMP"
  const TOO_LARGE_ERROR_MSG := "REQUEST TOO LARGE"
  const TOO_BUSY_ERROR_MSG := "SERVER TOO BUSY"
  const DUPLICATE_ERROR_MSG := "DUPLICATE REQUEST"
  const REQUEST_TIMEOUT_MSG := "Request timeout"

  type Nonce = nat

  datatype SendPolicy = Normal | Fastest | Broadcast

  datatype ResponseCase =
    | NotSet | Redirect | SubscriptionUpdate | Read | QuickRead | Has | Keys | Size | Error
    | HasDb | Writers | Ttl

  /** A parsed `database_response`: header nonce, oneof case, and its serialized form. */
  datatype DbResponse = DbResponse(nonce: Nonce, kind: ResponseCase, wire: string)

  /** A response envelope; the body is absent when it does not parse. */
  datatype ResponseEnvelope = ResponseEnvelope(sender: Uuid, signed: bool, body: Option<DbResponse>)

  /** A parsed `swarm_error`; the nonce is 0 when none can be read from its data. */
  datatype SwarmError = SwarmError(message: string, nonce: Nonce)

  /** A signed and dated request; the stamp stands for date, point of contact and signature. */
  datatype Envelope = Envelope(dbUuid: Uuid, nonce: Nonce, msg: string, stamp: string)

  /** What a caller asks for, with the swarm's membership and the client timeout at that moment. */
  datatype Request = Request(
    swarm: string, members: set<Uuid>, dbUuid: Uuid, msg: string, stamp: string,
    policy: SendPolicy, timeoutSeconds: nat)

  /** A timer completion the io thread owes: not yet due, or already queued to run. */
  datatype Wait = Waiting(due: nat) | Queued

  datatype Timer = Timer(expiry: nat, waits: seq<Wait>)

  datatype MsgInfo = MsgInfo(
    swarm: string, request: Envelope, policy: SendPolicy, responsesRequired: nat,
    retryTimer: Option<Timer>, timeoutAt: nat, responses: map<Uuid, DbResponse>)

  /** What the caller's handler is given. */
  datatype Reply = FromSwarm(response: DbResponse) | FromClient(errorMessage: string)

  datatype Call = Call(nonce: Nonce, reply: Reply)

  datatype Sent = Sent(nonce: Nonce, swarm: string, request: Envelope, policy: SendPolicy, at: nat)

  datatype Issue = Issue(request: Request, envelope: Envelope, at: nat)

  /** The dispatcher's two fields, followed by its history. */
  datatype Dispatch = Dispatch(
    nextNonce: Nonce, messages: map<Nonce, MsgInfo>,
    issued: seq<Issue>, sends: seq<Sent>, calls: seq<Call>, dropped: set<Nonce>)

  // Timers. Setting a new expiry and cancelling both withdraw the waits that are not yet queued.

  function KeepQueued(waits: seq<Wait>): seq<Wait> {
    if waits == [] then []
    else (if waits[0].Queued? then [waits[0]] else []) + KeepQueued(waits[1..])
  }

  function Cancel(t: Timer): Timer {
    t.(waits := KeepQueued(t.waits))
  }

  function ExpiresAt(t: Timer, at: nat): Timer {
    Cancel(t).(expiry := at)
  }

  function AsyncWait(t: Timer): Timer {
    t.(waits := t.waits + [Waiting(t.expiry)])
  }

  /** The first wait whose time has come is queued. */
  function MarkDue(waits: seq<Wait>, now: nat): seq<Wait> {
    if waits == [] then []
    else if waits[0].Waiting? && waits[0].due <= now then [Queued] + waits[1..]
    else [waits[0]] + MarkDue(waits[1..], now)
  }

  /** The first queued wait is taken off to be run. */
  function TakeQueued(waits: seq<Wait>): seq<Wait> {
    if waits == [] then []
    else if waits[0].Queued? then waits[1..]
    else [waits[0]] + TakeQueued(waits[1..])
  }

  // Requests

  function RequiredResponses(r: Request): nat {
    if r.policy == Fastest then 1 else HonestMajoritySize(|r.members|)
  }

  function RetryTimerFor(policy: SendPolicy, now: nat): Option<Timer> {
    if policy == Fastest then None
    else Some(AsyncWait(ExpiresAt(Timer(0, []), now + REQUEST_RETRY_TIME)))
  }

  function EnvelopeFor(r: Request, nonce: Nonce): Envelope {
    Envelope(r.dbUuid, nonce, r.msg, r.stamp)
  }

  function NewInfo(r: Request, nonce: Nonce, now: nat): MsgInfo {
    MsgInfo(r.swarm, EnvelopeFor(r, nonce), r.policy, RequiredResponses(r),
            RetryTimerFor(r.policy, now), now + 1000 * r.timeoutSeconds, map[])
  }

  function SendMessage(d: Dispatch, r: Request, now: nat): Dispatch {
    var nonce := d.nextNonce;
    d.(nextNonce := nonce + 1,
       messages := d.messages[nonce := NewInfo(r, nonce, now)],
       issued := d.issued + [Issue(r, EnvelopeFor(r, nonce), now)],
       sends := d.sends + [Sent(nonce, r.swarm, EnvelopeFor(r, nonce), r.policy, now)])
  }

  /** A retry timer that ran out: arm it again and broadcast. */
  function Retry(d: Dispatch, nonce: Nonce, now: nat): Dispatch
    requires nonce in d.messages ==> d.messages[nonce].retryTimer.Some?
  {
    if nonce !in d.messages then d
    else
      var info := d.messages[nonce];
      var timer := AsyncWait(ExpiresAt(info.retryTimer.value, now + BROADCAST_RETRY_TIME));
      d.(messages := d.messages[nonce := info.(retryTimer := Some(timer))],
         sends := d.sends + [Sent(nonce, info.swarm, info.request, Broadcast, now)])
  }

  function Finish(d: Dispatch, nonce: Nonce, reply: Reply): Dispatch {
    d.(messages := d.messages - {nonce}, calls := d.calls + [Call(nonce, reply)])
  }

  // Responses

  predicate ResponsesAreEqual(a: DbResponse, b: DbResponse) {
    a.kind == b.kind && a.wire == b.wire
  }

  /** The senders whose stored answer is the given one. */
  function Supporters(responses: map<Uuid, DbResponse>, answer: DbResponse): set<Uuid> {
    set x | x in responses && ResponsesAreEqual(responses[x], answer)
  }

  /** Whether the class of this sender's answer has a quorum. */
  predicate Qualifies(info: MsgInfo, sender: Uuid)
    requires sender in info.responses
  {
    |Supporters(info.responses, info.responses[sender])| >= info.responsesRequired
  }

  predicate Accepted(env: ResponseEnvelope) {
    env.body.Some? && (env.body.value.kind == QuickRead || env.signed)
  }

  function Record(info: MsgInfo, sender: Uuid, response: DbResponse): MsgInfo {
    info.(responses := info.responses[sender := response])
  }

  function Receive(d: Dispatch, env: ResponseEnvelope): Dispatch {
    if !Accepted(env) || env.body.value.nonce !in d.messages then d
    else
      var nonce := env.body.value.nonce;
      var info := Record(d.messages[nonce], env.sender, env.body.value);
      if Qualifies(info, env.sender) then Finish(d, nonce, FromSwarm(env.body.value))
      else d.(messages := d.messages[nonce := info])
  }

  // Errors and the client timeout

  predicate IsFatal(err: SwarmError) {
    err.message == TIMESTAMP_ERROR_MSG || err.message == TOO_LARGE_ERROR_MSG
  }

  /** A DUPLICATE answer cancels the retry timer, which a fastest request does not have. */
  predicate HasTimerIfDuplicate(d: Dispatch, err: Option<SwarmError>) {
    err.Some? && err.value.message == DUPLICATE_ERROR_MSG && err.value.nonce != 0 && err.value.nonce in d.messages
    ==> d.messages[err.value.nonce].retryTimer.Some?
  }

  function SwarmFailure(d: Dispatch, err: Option<SwarmError>): Dispatch
    requires HasTimerIfDuplicate(d, err)
  {
    if err.None? || err.value.nonce == 0 || err.value.nonce !in d.messages then d
    else
      var nonce := err.value.nonce;
      if IsFatal(err.value) then d.(messages := d.messages - {nonce}, dropped := d.dropped + {nonce})
      else if err.value.message == DUPLICATE_ERROR_MSG then
        var info := d.messages[nonce];
        d.(messages := d.messages[nonce := info.(retryTimer := Some(Cancel(info.retryTimer.value)))])
      else d
  }

  function ClientTimeout(d: Dispatch, nonce: Nonce): Dispatch {
    if nonce in d.messages then Finish(d, nonce, FromClient(REQUEST_TIMEOUT_MSG)) else d
  }

  // Runs: the dispatcher on one io thread with a millisecond clock.

  datatype Event =
    | Tick(ms: nat)
    | Send(request: Request)
    | Respond(env: ResponseEnvelope)
    | Fail(err: Option<SwarmError>)
    | RetryDue(nonce: Nonce)                  // the clock reached a retry wait: its completion is queued
    | RetryRun(nonce: Nonce, failed: bool)    // the queued completion runs
    | TimeoutRun(nonce: Nonce)                // the client timeout's completion runs

  datatype World = World(now: nat, d: Dispatch)

  function InitialDispatch(): Dispatch {
    Dispatch(1, map[], [], [], [], {})
  }

  predicate HasRetryTimer(d: Dispatch, nonce: Nonce) {
    nonce in d.messages && d.messages[nonce].retryTimer.Some?
  }

  function SetWaits(d: Dispatch, nonce: Nonce, waits: seq<Wait>): Dispatch
    requires HasRetryTimer(d, nonce)
  {
    var info := d.messages[nonce];
    d.(messages := d.messages[nonce := info.(retryTimer := Some(info.retryTimer.value.(waits := waits)))])
  }

  /** What the io thread and the swarm can do next. A completion handler already queued when its
      request is erased still runs, and must then find nothing. */
  predicate Enabled(w: World, e: Event) {
    match e
    case Send(r) => |r.members| < SIZE_T_RANGE
    case Fail(err) => HasTimerIfDuplicate(w.d, err)
    case RetryDue(n) => HasRetryTimer(w.d, n)
    case RetryRun(n, _) => n in w.d.messages ==> HasRetryTimer(w.d, n) && Queued in w.d.messages[n].retryTimer.value.waits
    case TimeoutRun(n) => 1 <= n < w.d.nextNonce && (n in w.d.messages ==> w.d.messages[n].timeoutAt <= w.now)
    case _ => true
  }

  function Step(w: World, e: Event): World
    requires Enabled(w, e)
  {
    var d := w.d;
    match e
    case Tick(ms) => w.(now := w.now + ms)
    case Send(r) => w.(d := SendMessage(d, r, w.now))
    case Respond(env) => w.(d := Receive(d, env))
    case Fail(err) => w.(d := SwarmFailure(d, err))
    case RetryDue(n) => w.(d := SetWaits(d, n, MarkDue(d.messages[n].retryTimer.value.waits, w.now)))
    case RetryRun(n, failed) =>
      if n !in d.messages then w
      else
        var taken := SetWaits(d, n, TakeQueued(d.messages[n].retryTimer.value.waits));
        w.(d := if failed then taken else Retry(taken, n, w.now))
    case TimeoutRun(n) => w.(d := ClientTimeout(d, n))
  }

  /** The state after a run, if every event in it was possible when it came. */
  function Run(events: seq<Event>): Option<World> {
    if events == [] then Some(World(0, InitialDispatch()))
    else
      var last := |events| - 1;
      var before := Run(events[..last]);
      if before.Some? && Enabled(before.value, events[last]) then Some(Step(before.value, events[last])) else None
  }
}

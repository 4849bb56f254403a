# bzapi: a verified model of the swarm client

bzapi is a client library for a Byzantine fault tolerant key/value swarm. This project models the parts of it
that carry hard promises and proves what those parts do promise.

- **Requests.** `DispatchModel` holds the pending requests of `db_dispatch` by nonce, the latest answer of each
  sender, the retry timer with its queued completions, and the client timeout. `DispatchRuns` keeps an invariant
  over every run of the io thread; `DispatchTheorems` and `DispatchRetries` state the promises and `DispatchLimits` where they end;
  class `DbDispatch` models the handlers as they update the table. `Quorum` is the arithmetic of quorums.
- **Connections.** `NodeModel`, `NodeTheorems` and class `Node` are the send queue of a node: connection state,
  pause before writes, one operation outstanding, reconnect on a lost connection. `Backoff` is the pause.
- **Swarms.** `SwarmModel`, `SwarmTheorems` and class `Swarm` are the node map of a swarm, the merge of a status
  response, the choice of the fastest node, and the round of `back_off` calls for each message.
- **Databases.** `FactoryCalls` follows one `has_db` or `create_db` call; `FactoryModel` and `FactoryTheorems`
  hold registry, cache and swarm objects over whole runs with any number of calls in progress; class
  `SwarmFactory` models the methods that update them. `KeyOrder` is the order in which a `std::map` is walked.
- **ESR texts.** `Hex` and `Abi` are hexadecimal text and the parts of the Solidity Contract ABI Specification
  ("Formal Specification of the Encoding", "Use of Dynamic Types") that the client meets. `EsrRequests` has the
  request texts, `EsrPeers` and `EsrPeerInfo` the two line-driven readers.
- **Signatures.** `Serializer` is the byte string a signature covers, with a decoder for it.

The source updates its state step by step, so each of its classes is a class here, and each method is proved to
take exactly one transition of the matching model. Theorems about runs are proved of the models. Histories (calls
of handlers, sends, popped messages, rounds) are ghost fields; theorems relate them to the events alone.

What the code does that its comments or callers might not expect, each with a proof below:

- A request whose swarm reports a wrong timestamp or too large a request is forgotten without a call of its
  handler, although the comment at `database/db_dispatch.cpp:207-211` says the request will time out
  (`DroppedRequestIsSilent`, `CalledOnceIffNotDropped`).
- A duplicate error does not stop a retry whose completion is already queued; it then runs and arms the timer again
  (`DuplicateStopsRetriesIff`, `BroadcastAfterDuplicate`). For a pending `fastest` request, which has no retry timer,
  the handler of a duplicate error uses a timer that was never made (`DuplicateFindsTimerIff`, `FastestDuplicate`).
- Votes are counted by the names on envelopes, and quick reads need no signature: a quick read that no member sent can
  be delivered for a request of any policy but `fastest` (`QuickReadsCanBeForged`). Every other answer is protected by
  the signatures (`SignedAnswerIsSound`).
- The callback of `has_db` can be called several times, and `create_db` can report an existing database and then
  create it anyway (`TwoCallbacks`, `LookupCalledOnceIff`).
- A status response that lists no node leaves a swarm whose quorum size wraps around, and from which a request that
  is not a broadcast would go to the first node of an empty map (`QuorumAfterMergeIff`). One that does not list its
  own sender can leave a fastest node that is not a member (`FastestIsMemberIff`).
- The cast to `int` at `utils/esr_peer_info.cpp:409` keeps the low 32 bits, so sizes print correctly up to 2^32
  (`GetPeersIsAbiCall`, `GetPeerInfoIsAbiCall`).
- Trailing nulls of peer ids are lost, a host comes back only if it fills no more than one word, and a name only if
  none of its 32-byte words ends in a null (`PeersRoundTrip`, `PeerInfoRoundTrip`).
- The reader of node information expects a count, a host, a name and a port (`InfoLayoutIsAbi`). The outputs declared
  at `utils/esr_peer_info.cpp:88-109` are a count, a host, an HTTP port, a name and a port; given those, the reader
  takes the offset of the name for the port and the size of the host for the host (`DeclaredLayoutIsMisread`). The
  model follows the reader.

## Model

| member | source | states |
|---|---|---|
| Quorum.AttainableIffNonEmpty | swarm/swarm.cpp:419-425 | for every size below 2^64 the nodes that are not faulty can reach the quorum if and only if there is a node; with none the subtraction wraps |
| Quorum.LeastSoundSize | swarm/swarm.cpp:424 | for 3f + 1 to 3f + 3 nodes, any q senders keep f + 1 of them whichever f are taken away if and only if q is at least the quorum size |
| Quorum.FaultBoundIs | swarm/swarm.cpp:424 | the fault bound is the f with 3f + 1 <= n <= 3f + 3 |
| Quorum.CorrectSupport | swarm/swarm.cpp:424 | behind a quorum stand at least f + 1 nodes that are not faulty |
| Quorum.QuorumsOverlap | swarm/swarm.cpp:424 | two quorums share at least 2q - n nodes, and f + 1 of them when n = 3f + 1 |
| DbDispatch.DbDispatch.SendMessageToSwarm | database/db_dispatch.cpp:33-59 | the new pending request with its nonce, timers, policy and the one send; the whole new state |
| DbDispatch.DbDispatch.SetupRequestPolicy | database/db_dispatch.cpp:61-84 | one response for a fastest request; else the honest majority and a retry wait armed for 1500 ms |
| DbDispatch.DbDispatch.HandleRequestTimeout | database/db_dispatch.cpp:86-124 | a retry that elapsed re-arms the timer for 3000 ms and broadcasts the stored request if it is pending; an aborted or failed one, or one for a finished request, changes nothing |
| DbDispatch.DbDispatch.HandleSwarmResponse | database/db_dispatch.cpp:126-166 | an acceptable answer replaces its sender's and finishes the request exactly when its class has a quorum; all else changes nothing; closes only when it does not parse |
| DbDispatch.DbDispatch.HandleSwarmError | database/db_dispatch.cpp:168-224 | which errors drop the request, which stop its retries, which do nothing, when the connection closes, and that a duplicate error for a request without a timer is not survived |
| DbDispatch.DbDispatch.HandleClientTimeout | database/db_dispatch.cpp:279-298 | a pending request is finished with the timeout message, any other left alone |
| DbDispatch.QualifyResponse | database/db_dispatch.cpp:227-265 | the counting loop with its early exits answers whether the class of the newest answer is as large as required, and its assert holds |
| DispatchRuns.NewestClassDecides | database/db_dispatch.cpp:154-163 | where no class had a quorum before, one has a quorum after a new answer if and only if the class of that answer has |
| DispatchRuns.OneAnswerSuffices | database/db_dispatch.cpp:236-241 | a pending request that needs one answer has stored none |
| DispatchRuns.StepKeeps | database/db_dispatch.cpp:33-298 | every event keeps, for every nonce, the invariant on stored answers, timer waits, sends, calls and drops |
| DispatchRuns.RunKeeps | database/db_dispatch.cpp:33-298 | that invariant holds after every run |
| DispatchTheorems.StoresLatestVotes | database/db_dispatch.cpp:128-155 | a pending request stores exactly each sender's latest answer that parses and is signed or a quick read, as read off the events |
| DispatchTheorems.SharingIsSupport | database/db_dispatch.cpp:267-272 | the senders counted for an answer are those whose answer has its response case and its serialized form |
| DispatchTheorems.NeededIsRequired | database/db_dispatch.cpp:61-84 | a fastest request needs one answer, any other 2f + 1 of 3f + 1 to 3f + 3 nodes |
| DispatchTheorems.NoPendingQuorum | database/db_dispatch.cpp:154-163 | no set of senders as large as needed has one response case and one serialized form in its latest answers while a request is pending |
| DispatchTheorems.FiresOnFirstQuorum | database/db_dispatch.cpp:154-163 | the handler is called on exactly the event after which any answer first has a quorum, with that answer, even when senders overwrite their answers |
| DispatchTheorems.AnswerHadQuorum | database/db_dispatch.cpp:227-272 | every delivered answer arrived in an event after which the senders whose latest answers have its response case and its serialized form were as many as needed |
| DispatchTheorems.DeliveredAnswerIsSound | database/db_dispatch.cpp:227-272 | with at most f faulty members a delivered answer shares its response case and serialized form with votes in the names of f + 1 senders who are not faulty |
| DispatchTheorems.PendingMeansDisagreement | database/db_dispatch.cpp:154-163 | a non-fastest request to a swarm with a node is never still pending once the votes in the names of all correct members have one response case and serialized form |
| DispatchTheorems.OneFate | database/db_dispatch.cpp:139-212 | each issued nonce is in exactly one of pending, answered, timed out, dropped; its handler is called at most once, and never by the timeout before its time |
| DispatchTheorems.FinishedForGood | database/db_dispatch.cpp:157-161 | a finished request never becomes pending again and nothing more is called or sent for it |
| DispatchTheorems.DroppedIffDrops | database/db_dispatch.cpp:199-212 | a request is dropped exactly when a wrong-timestamp or too-large error reached it while pending |
| DispatchTheorems.CalledOnceIffNotDropped | database/db_dispatch.cpp:199-212 | once the client timeout has run, the handler has been called exactly once if and only if no such error reached the request while pending |
| DispatchTheorems.DroppedRequestIsSilent | database/db_dispatch.cpp:199-206 | a run in which a handler is never called |
| DispatchTheorems.RetryBound | database/db_dispatch.cpp:24-56 | the request goes out with its database, its own nonce and its message; up to a client timeout of S seconds it is sent again at most (1000 S + 1500) / 3000 times, each time as a broadcast of the envelope first sent, spaced as the constants say; never for a fastest request |
| DispatchRetries.RetryIsDue | database/db_dispatch.cpp:67-123 | over every run, while a request that is not fastest pends and neither a duplicate error nor a failed completion has reached it, exactly one retry wait is outstanding, for 1500 ms after the send or 3000 ms after the last broadcast, or queued with that time past |
| DispatchRetries.RetryComes | database/db_dispatch.cpp:100-123 | so when the clock has reached that time and the io thread runs, the request is broadcast once more and the next retry is due 3000 ms later |
| DispatchTheorems.QuietForGood | database/db_dispatch.cpp:100-123 | with no wait armed or queued a request is never broadcast again |
| DispatchLimits.DuplicateStopsRetriesIff | database/db_dispatch.cpp:217-221 | after a duplicate error no continuation of the run broadcasts the request again if and only if no retry completion is queued when it comes |
| DispatchLimits.DuplicateTooLate | database/db_dispatch.cpp:100-123 | a completion queued when the duplicate error comes still runs, broadcasts once more and arms a new wait |
| DispatchLimits.BroadcastAfterDuplicate | database/db_dispatch.cpp:217-221 | a run, for any request that is not fastest, that broadcasts after a duplicate error |
| DispatchLimits.DuplicateFindsTimerIff | database/db_dispatch.cpp:217-221 | over every run the handler finds the timer it cancels if and only if the request is not a pending fastest one |
| DispatchLimits.FastestDuplicate | database/db_dispatch.cpp:217-221 | a run after which a duplicate error finds no timer |
| DispatchLimits.VoteArrived | database/db_dispatch.cpp:140-154 | every vote came in an accepted envelope that names the voter |
| DispatchLimits.SignedAnswerIsSound | database/db_dispatch.cpp:148-163 | if every signed answer names a member, and those naming members who are not faulty all have one response case and serialized form, then so has a delivered answer unless it is a quick read |
| DispatchLimits.QuickReadsCanBeForged | database/db_dispatch.cpp:148-163 | for every swarm with a node and every request that is not fastest, unsigned quick reads in the members' names get any quick read delivered |
| Backoff.BackoffIsSaturatingCounter | node/node.cpp:61-72 | after any calls the pause is 0 or 2^(L-1) for a counter L that moves by one and stops at 0 and 11, so at most 1024 |
| Backoff.CallsAddUp | node/node.cpp:61-72 | n equal calls move that counter by n, up to its ends |
| Backoff.ElevenCallsClear | node/node.cpp:61-72 | eleven calls with false reach 0 from anywhere |
| Backoff.ElevenCallsSaturate | node/node.cpp:61-72 | eleven calls with true reach 1024 from anywhere |
| Node.Node.BackOffBy | node/node.cpp:61-72 | the new pause, everything else unchanged |
| Node.Node.SendMessage | node/node.cpp:74-98 | queues, and schedules only the first message of a connected node, or connects a node that is not connecting |
| Node.Node.Connect | node/node.cpp:117-126 | connecting starts, and its two asserts hold where it is called |
| Node.Node.OnTcpConnected | node/node.cpp:126-160 | a failure disconnects; otherwise the handshake starts |
| Node.Node.OnHandshake | node/node.cpp:160-183 | a failure disconnects; otherwise connected, and a waiting message is scheduled |
| Node.Node.QueueSend | node/node.cpp:188-192 | the message is appended |
| Node.Node.DoSend | node/node.cpp:194-203 | the first message is being written |
| Node.Node.OnWritten | node/node.cpp:200-223 | a lost connection keeps the queue and reconnects; otherwise one message is popped, its callback called, and the next scheduled |
| Node.Node.ScheduleSend | node/node.cpp:227-248 | waits for the pause if there is one, else writes |
| Node.Node.OnBackoffTimer | node/node.cpp:233-241 | an elapsed pause writes the first message, which exists; a failed one leaves nothing outstanding |
| NodeModel.Step | node/node.cpp:74-248 | every call and completion keeps the outstanding operations those the connection state and the queue call for |
| NodeModel.Run | node/node.cpp:74-248 | so does every run from the first state; no assert of the node can fail in one |
| NodeModel.HistoryKeeps | node/node.cpp:74-248 | every event keeps accepted = popped + queued, one callback for each popped message, and writes in order |
| NodeTheorems.HistoriesMatchEvents | node/node.cpp:74-98 | the accepted messages are those the run sent, and the pause is that of its calls |
| NodeTheorems.NothingLostOrReordered | node/node.cpp:188-225 | over every run popped messages then queued ones are exactly the messages sent, in order; each popped one had its callback called once with its settling write; each write is of the next unsettled message |
| NodeTheorems.OneOutstanding | node/node.cpp:74-248 | at most one operation is outstanding; while connected one is, exactly when messages are queued; disconnected none |
| NodeTheorems.ClosedWriteLosesNothing | node/node.cpp:205-212 | a write that ends in a closed websocket, an end of file or an aborted operation keeps the queue, calls nothing and reconnects |
| NodeTheorems.OtherWritesSettle | node/node.cpp:215-222 | a write that ends in anything but a closed websocket, an end of file or an aborted operation takes its message off the queue and calls its callback |
| NodeTheorems.CalledUnlessClosed | node/node.cpp:204-222 | over every run the callbacks called are those of exactly the writes that ended in none of those three codes |
| NodeTheorems.NextOperation | node/node.cpp:74-248 | which operation is outstanding after each event: the two steps of connecting, and before each write a pause of the backoff time unless that is 0 |
| NodeTheorems.SuccessProgresses | node/node.cpp:117-248 | each successful completion strictly decreases a measure |
| NodeTheorems.DrainDelivers | node/node.cpp:117-248 | with every operation succeeding the queue drains and every callback is called in order with success |
| NodeTheorems.SendRevives | node/node.cpp:74-98 | after any run one more message makes a node deliver everything sent so far |
| Serializer.DeterministicSerialize | crypto/crypto.cpp:69-89 | the framing of sender, case number, payload and timestamp; fails exactly for the payload cases not handled |
| Serializer.ReadsItsTokens | crypto/crypto.cpp:82-88 | reading lengths up to the bar and then that many characters recovers any tokens, whatever they contain, and what follows |
| Serializer.DecodesBack | crypto/crypto.cpp:70-89 | the decoder recovers the four fields from the serialization followed by anything |
| Serializer.SameBytesIffSameFields | crypto/crypto.cpp:70-89 | two envelopes serialize alike if and only if the four fields are equal |
| Serializer.SignedBytes | crypto/crypto.cpp:75-88 | the bytes for each of the four payloads that can be signed, with field numbers 10, 12, 17 and 18 |
| Serializer.NeverAProperPrefix | crypto/crypto.cpp:70-89 | no serialization is a proper prefix of another |
| Hex.HexSpells | utils/esr_peer_info.cpp:413-420 | hexadecimal text of bytes reads back as those bytes |
| Hex.SizeSpells | utils/esr_peer_info.cpp:403-411 | a size is printed as the big-endian word of its low 32 bits |
| Hex.StrToULReads | utils/esr_peer_info.cpp:213-246 | on hexadecimal text of any case `strtoul` reads the number spelled, up to its range |
| Hex.PlainNumber | utils/esr_peer_info.cpp:220 | what follows the digits of a number is ignored |
| Hex.SignedNumber | utils/esr_peer_info.cpp:220 | a number may have a sign, and a minus sign negates modulo 2^64 |
| Hex.PrefixedNumber | utils/esr_peer_info.cpp:220 | a number may have a prefix of either case |
| Hex.SpacesSkipped | utils/esr_peer_info.cpp:220 | white space before a number is skipped |
| Hex.NothingToRead | utils/esr_peer_info.cpp:220 | text that does not start with a number gives 0 |
| Hex.UnhexIff | utils/esr_peer_info.cpp:178-184 | text is read as bytes if and only if its length is even and it has nothing but hexadecimal digits |
| Hex.IdsInUpperCase | utils/esr_peer_info.cpp:413-420 | ids are written in upper case |
| Hex.SizesInLowerCase | utils/esr_peer_info.cpp:403-411 | sizes are written in lower case |
| Hex.ValueOfBigEndian | utils/esr_peer_info.cpp:403-411 | a big-endian word holds its number modulo its range |
| Abi.DecodesCall2 | utils/esr_peer_info.cpp:448-473 | following the offsets of a call with two strings recovers both |
| Abi.LeftPadded | utils/esr_peer_info.cpp:436-438 | a number that fits in the low bytes is padded with zeros on the left |
| EsrRequests.GetPeersSpells | utils/esr_peer_info.cpp:432-441 | the padding on the right of the selector and of the offset regroups into words padded on the left; what the text spells for any id |
| EsrRequests.GetPeersIsAbiCall | utils/esr_peer_info.cpp:432-441 | the text is the ABI call for the swarm id if and only if the size of the id is below 2^32 |
| EsrRequests.RequestsAreHexConstants | utils/esr_peer_info.cpp:117-122 | both texts start with `0x` and the selector of the function called |
| EsrRequests.GetPeerInfoSpells | utils/esr_peer_info.cpp:448-473 | what the text spells for any two ids |
| EsrRequests.GetPeerInfoIsAbiCall | utils/esr_peer_info.cpp:448-473 | the text is the ABI call for the two ids if and only if the second offset and the second size are below 2^32 |
| EsrRequests.GetPeerInfoDecodes | utils/esr_peer_info.cpp:448-473 | unhexing and following the two offsets recovers both ids |
| EsrRequests.SecondOffsetLands | utils/esr_peer_info.cpp:463-466 | the second offset is where the text of the second parameter starts |
| EsrPeers.ParseGetPeersResultToVector | utils/esr_peer_info.cpp:187-277 | the loop computes the reader's result, its exceptions included |
| EsrPeers.ReadsStringArray | utils/esr_peer_info.cpp:187-277 | an encoded `string[]` of any strings is read as its non-empty strings in order without trailing nulls |
| EsrPeers.PeersRoundTrip | utils/esr_peer_info.cpp:187-277 | exactly the non-empty strings come back if and only if none ends in a null; the whole list if and only if, besides, none is empty |
| EsrPeers.BadIdThrows | utils/esr_peer_info.cpp:248-259 | a line of an id with a character that is no hexadecimal digit makes the reader throw |
| EsrPeers.TrimShortens | utils/esr_peer_info.cpp:124-129 | trimming leaves a prefix that does not end in a null, and everything if and only if there is nothing to trim |
| EsrPeerInfo.ParseGetPeerInfoResultToPeerAddress | utils/esr_peer_info.cpp:280-388 | the loop computes the reader's result, its exceptions included |
| EsrPeerInfo.PeerInfoRoundTrip | utils/esr_peer_info.cpp:280-388 | in the reader's own layout, for hosts and names of any size, the port comes back modulo 2^16; the host if and only if it has 1 to 32 bytes and does not end in a null, or host and name are empty; both host and name if and only if besides no word of the name ends in a null |
| EsrPeerInfo.BadLineThrows | utils/esr_peer_info.cpp:338-371 | a line of the host or the name with a character that is no hexadecimal digit makes the reader throw |
| EsrPeerInfo.InfoLayoutIsAbi | utils/esr_peer_info.cpp:280-388 | that layout is the ABI encoding of a count, a host, a name and a port |
| EsrPeerInfo.DeclaredLayoutIsMisread | utils/esr_peer_info.cpp:88-109 | of the ABI encoding of the declared outputs the reader returns the offset of the name as the port and the size of the host as the host, so the port is right if and only if it equals that offset modulo 2^16 |
| EsrPeerInfo.RestKeeps | utils/esr_peer_info.cpp:294-380 | on hexadecimal text the reader never throws, and lines after the port and the host leave them alone |
| EsrPeerInfo.NameRead | utils/esr_peer_info.cpp:350-371 | the words of a name are collected until the announced size is met, which happens exactly for clean names |
| EsrPeerInfo.NullFreeIsClean | utils/esr_peer_info.cpp:350-371 | names without nulls are clean, whatever their size |
| SwarmFactory.SwarmRegistry.AddNode | swarm/swarm_factory.cpp:225-231 | a node already registered keeps its endpoint; every other swarm is unchanged |
| SwarmFactory.SwarmRegistry.GetSwarms | swarm/swarm_factory.cpp:233-243 | every registered id once, in key order |
| SwarmFactory.SwarmRegistry.GetNodes | swarm/swarm_factory.cpp:245-259 | every node of the swarm once, in key order, with its endpoint; nothing for an unknown swarm |
| KeyOrder.OneOrder | swarm/swarm_factory.cpp:233-243 | a set of keys has one listing in order, so indices into separate listings of one registry agree |
| KeyOrder.OrderIsLexicographic | swarm/swarm_factory.cpp:233-243 | the order is that of strings: a proper prefix first, else by the first character that differs |
| KeyOrder.KeysInOrder | swarm/swarm_factory.cpp:233-243 | walking a map lists exactly its keys, in order |
| SwarmFactory.SwarmFactory.Initialize | swarm/swarm_factory.cpp:46-54 | the first state, with the registry of the list if there is an ESR to ask |
| SwarmFactory.SwarmFactory.InitializeDefault | swarm/swarm_factory.cpp:56-67 | the first state, with the registry of one swarm |
| SwarmFactory.SwarmFactory.UpdateSwarmRegistry | swarm/swarm_factory.cpp:182-206 | the nested loops build the registry of the list, with the live objects of the registry before it |
| SwarmFactory.SwarmFactory.GetOrCreateSwarm | swarm/swarm_factory.cpp:208-223 | the one live object of the swarm is returned, made if there is none; its node list is not empty |
| SwarmFactory.SwarmFactory.HasDb | swarm/swarm_factory.cpp:69-108 | a cached database is answered at once, any other is asked of every swarm; the whole new state |
| SwarmFactory.SwarmFactory.OnHasAnswer | swarm/swarm_factory.cpp:88-106 | the counter, the cache and the callback after one swarm's answer; the whole new state |
| SwarmFactory.SwarmFactory.CreateDb | swarm/swarm_factory.cpp:110-130 | a lookup whose callback goes on to create |
| SwarmFactory.SwarmFactory.Callback | swarm/swarm_factory.cpp:116-129 | what the caller is told, and when creation starts and from which index |
| SwarmFactory.SwarmFactory.DoCreateDb | swarm/swarm_factory.cpp:132-148 | the swarm at that index is asked, or the caller told there is no space when it has no id |
| SwarmFactory.SwarmFactory.OnCreateAnswer | swarm/swarm_factory.cpp:149-177 | success is cached and reported, failure moves to the next lower index or is reported; the whole new state |
| SwarmFactory.SwarmFactory.SelectSwarmForSize | swarm/swarm_factory.cpp:276-285 | the id at the index, which is within the list |
| FactoryCalls.FanOut | swarm/swarm_factory.cpp:82-107 | the counter is the number of swarms yet to answer, and the callback's calls are the successes in arrival order, then `no_database` if the last answer failed |
| FactoryCalls.LookupCalledOnceIff | swarm/swarm_factory.cpp:82-107 | `no_database` alone if and only if no swarm succeeded; one call if and only if no answer but perhaps the last succeeded; always one with one swarm |
| FactoryCalls.CreateFanOut | swarm/swarm_factory.cpp:110-130 | each swarm that has the database is reported, and creation starts exactly when the last answer is a failure |
| FactoryCalls.TwoCallbacks | swarm/swarm_factory.cpp:82-130 | two swarms and two answers for which a callback is called twice, and creation follows a report of the database |
| FactoryCalls.Creation | swarm/swarm_factory.cpp:132-180 | the k-th request goes to index r - k, requests stop at the first success or the end of the list, and the caller is told exactly then, once |
| FactoryCalls.CreationCompletes | swarm/swarm_factory.cpp:124-180 | with named swarms at most min(6, n) requests and exactly one call, a success naming the last swarm asked if and only if some request succeeded |
| FactoryCalls.CreateCall | swarm/swarm_factory.cpp:110-180 | the whole of a `create_db` that missed the cache, from first lookup answer to last create answer |
| FactoryModel.RegistryHoldsList | swarm/swarm_factory.cpp:182-231 | a registry holds exactly the swarms listed with a node, each with exactly the nodes listed for it, at the endpoint listed first |
| FactoryModel.CreatesOne | swarm/swarm_factory.cpp:208-223 | making an object keeps the registry, the other live objects and the rule of one object for each id |
| FactoryModel.AnswerKeeps | swarm/swarm_factory.cpp:88-180 | an answer keeps the invariant: counters count pending answers, cached swarms are registered, swarms asked have live objects |
| FactoryModel.MissedKeeps | swarm/swarm_factory.cpp:82-107 | starting a fan-out keeps that invariant |
| FactoryModel.ReleaseKeeps | swarm/swarm_factory.cpp:208-223 | so does letting go of a swarm object no request holds |
| FactoryModel.Step | swarm/swarm_factory.cpp:69-223 | every event that can come keeps the invariant on registry, objects, cache and calls |
| FactoryTheorems.Run | swarm/swarm_factory.cpp:46-223 | so does every run from a single initialisation; no assert of the factory can fail in one |
| FactoryTheorems.CacheIsLatestAnswer | swarm/swarm_factory.cpp:91-98 | over every run the cache holds for each database the registered swarm that last gave a positive answer for it, and nothing else |
| FactoryTheorems.RegistryIsFixed | swarm/swarm_factory.cpp:182-223 | over every run the registry stays that of the list, each swarm has a node, and two live objects never share an id |
| FactoryTheorems.CallsRunAlone | swarm/swarm_factory.cpp:69-180 | with any interleaving of calls each is what its own answers make of how it started, which is a report of the swarm that last gave a positive answer before its lookup, or a question to every swarm when there is none |
| FactoryTheorems.LookupsReport | swarm/swarm_factory.cpp:69-108 | over every run what a lookup has told its caller is the swarm of the latest positive answer before it, or when there is none is read off the answers it got |
| FactoryTheorems.CreationsReport | swarm/swarm_factory.cpp:110-180 | over every run what a `create_db` has told its caller is that the database exists, if a positive answer came before it, or else is read off the answers it got, through lookup and creation |
| Swarm.Swarm.AddNode | swarm/swarm.cpp:446-468 | one new node object at the endpoint |
| Swarm.Swarm.AddNodes | swarm/swarm.cpp:427-444 | the members of the list, each with an object made now; the first is primary and fastest |
| Swarm.Swarm.InitNodes | swarm/swarm.cpp:43-53 | the initial nodes become members once |
| Swarm.Swarm.Initialize | swarm/swarm.cpp:55-93 | a second attempt is refused; the first sets the handler and requests the status of every member; there always is a member |
| Swarm.Swarm.SendRequest | swarm/swarm.cpp:117-171 | a broadcast goes to every member's object, if any; other requests, which need a member, to the preferred one, or to some member when it is not one |
| Swarm.Swarm.HonestMajority | swarm/swarm.cpp:419-425 | the quorum size of the current members |
| Swarm.Swarm.HandleStatusResponse | swarm/swarm.cpp:221-302 | the whole new state: the merged map, primary, fastest and requests, or no change of them when it does not parse; the handler called once |
| Swarm.Swarm.MergePeerIndex | swarm/swarm.cpp:248-278 | the loop over the peer index, default entries inserted into the old map included, computes the merge |
| Swarm.Swarm.SendStatusRequest | swarm/swarm.cpp:304-342 | one request and its time for a member, nothing for any other uuid |
| Swarm.Swarm.HandleNodeMessage | swarm/swarm.cpp:361-417 | which messages are dropped and which close the connection; every accepted one is a `back_off` round for all members before its handler runs |
| Swarm.Swarm.BackOffNodes | swarm/swarm.cpp:404-407 | the loop adjusts the pause of every member's object once and of no other |
| SwarmModel.MergedKeys | swarm/swarm.cpp:248-278 | the merged map has exactly the listed uuids, and one object is made for each that is new |
| SwarmModel.MergedAdded | swarm/swarm.cpp:253-259 | a request is asked for each mention of an unknown uuid and for no other |
| SwarmModel.MergedFastest | swarm/swarm.cpp:227-278 | the chosen time is at most the responder's and any positive time listed, and belongs to the node chosen |
| SwarmModel.FirstOfFastest | swarm/swarm.cpp:230-275 | of equally fast nodes the responder is chosen before any, and else the one listed first |
| SwarmModel.MergeKeepsMembers | swarm/swarm.cpp:248-278 | after a merge every member has an object of its own, whose pause is what the rounds since it was made make it |
| SwarmTheorems.StatusMerge | swarm/swarm.cpp:239-292 | members are exactly the uuids listed; known ones keep object and endpoint; each mention of an unknown one makes an object and sends a request; the responder's time is noted |
| SwarmTheorems.OnceEachIffNoRepeats | swarm/swarm.cpp:249-259 | each listed uuid is mentioned once if and only if the list has no repeats |
| SwarmTheorems.FastestChoice | swarm/swarm.cpp:227-284 | the node chosen is no slower than the responder or any member with a positive recorded time |
| SwarmTheorems.FastestIsMemberIff | swarm/swarm.cpp:230-284 | the node chosen is a member if and only if the response lists its sender or a known node recorded as faster |
| SwarmTheorems.QuorumAfterMergeIff | swarm/swarm.cpp:280-286 | after a response there is a member, and the correct nodes can reach the quorum, if and only if it lists a node |
| SwarmTheorems.RunKeeps | swarm/swarm.cpp:43-468 | every run keeps the invariant on members, objects, pauses and handler |
| SwarmTheorems.MembersHaveOwnNodes | swarm/swarm.cpp:248-278 | over every run no member lacks an object and no two share one, pauses stay within 1024, the handler is called at most once |
| SwarmTheorems.ListedMembersStay | swarm/swarm.cpp:252-259 | over every run a member listed in every status response that reaches the swarm and parses keeps its node object and endpoint |
| SwarmTheorems.MadeTogetherPauseAlike | swarm/swarm.cpp:397-407 | over every run two node objects made in one step have equal pauses while both belong to members |
| SwarmTheorems.RoundStep | swarm/swarm.cpp:361-407 | one message is a round if and only if it parses, comes from a member and names a member or nobody as its sender without a bad signature; the round is busy if and only if the message is a swarm error that says SERVER TOO BUSY; any other message changes nothing |
| SwarmTheorems.RoundsAreMessages | swarm/swarm.cpp:397-407 | over every run the rounds are exactly those messages, in order |
| SwarmTheorems.MessagePaces | swarm/swarm.cpp:397-407 | a busy error doubles the pause of every member, from 1 to at most 1024 ms, and any other message that passes halves it |
| SwarmTheorems.QuietMembersDoNotPause | swarm/swarm.cpp:397-407 | over every run a member has no pause once eleven messages in a row have passed since it was one, none of them a busy error |
| SwarmTheorems.InitialMembers | swarm/swarm.cpp:427-444 | the first members are the nodes listed, at the endpoint listed last, and the first of the list is primary and fastest |
| SwarmTheorems.InitializeAsksAll | swarm/swarm.cpp:55-93 | the first `initialize` asks every member once and notes the time; another is refused and asks nobody |
| SwarmTheorems.StatusRequestIsTimed | swarm/swarm.cpp:304-342 | a status request notes its time for its member and changes nothing else |
| SwarmTheorems.HandlerCalledOnceIff | swarm/swarm.cpp:294-299 | over every run the handler has been called once if and only if a status response came after `initialize`, and is waiting if and only if none has |

## Left out

- DispatchRuns.RunKeeps: a run does not go on after a duplicate error that uses a timer that was never made.
- DispatchLimits.SignedAnswerIsSound: that signed envelopes name members is the check at `swarm/swarm.cpp:382-388`, taken as an assumption while the membership of the request lasts.
- EsrPeerInfo.PeerInfoRoundTrip: whether a name alone comes back by chance behind a host the reader has no room for.
- Swarm.Swarm.SendRequest: a request that is not a broadcast, from a swarm whose node map is empty, uses an end iterator and is required away.
- Quorum.QuorumsOverlap: f + 1 common nodes are claimed for n = 3f + 1 only; for other sizes the general bound is smaller.
- NodeTheorems.OneOutstanding: closing by the read side is not an event; with a send or connect pending it would break this invariant.
- Node.Node.OnBackoffTimer: a pause that ends in an error stops the queue, so runs contain only elapsed pauses.
- SwarmTheorems.FastestIsMemberIff: which node a request then goes to is the first of an unordered map, modelled as any member.
- Reading from connections, closing by the read side and reconnecting after it (`node/node.cpp:250-310`).
- Nonces do not wrap at 2^64, and times added to clocks do not overflow.
- Sends from user threads are taken to be serialised, and handlers not to call back into the dispatcher for the same nonce; completions of the io thread are atomic events.
- The number read from the data of a swarm error is a parameter, 0 when there is none.
- Parsing of protobuf and JSON: messages are values, absent when they do not parse; peers in a status response are well typed; response texts of the ESR are the characters up to the first null.
- The clock is read once for each event of a swarm; status timers fire at any time, and the reset of a node's recorded time when a status request cannot be written is not modelled.
- `has_uuid` and `create_uuid` of the dispatcher, which the factory calls: their answers are events, each at most once for a request.
- The factory is initialised once and outlives its calls; `max_size` and `random_evict` are passed through and not modelled.
- Signing, verification and PEM files: whether a signature is present, and whether it is bad, are parameters.
- Sockets, SSL, websockets, DNS, HTTP requests to Ethereum and the JSON-RPC wrapper around the request texts.
- `data_string_for_get_swarms`, `get_status`, the asynchronous and synchronous database wrappers, the library entry points, `udp_response`, the command line program and logging: thin wrappers that would add only easy members.

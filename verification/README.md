# ConnectAlso: verified models

ConnectAlso is an overlay VPN: devices register with a control service, find their public address through STUN, and
exchange packets through relay servers; a session cipher is there to encrypt them, though the applications do not use it
on the relay path. This project models its protocol logic in Dafny 4.11 and proves what that logic promises.
`dafny verify dfyconfig.toml` checks everything.

## The system and its model

* **Relay data plane** (`RelayProto`, `RelayServer`, `RelayClient`, `RelayNetwork`). The frame codec is an exact
  printer/parser pair. The relay loop is a class with its `peers` registry; the registry and the forwarded datagrams are
  described by the history of inputs alone. `RelayNetwork` puts any number of client sessions, the relay, and a network
  that loses, duplicates and reorders datagrams into one transition system; its steps use the same functions that the
  client and server methods are proved equal to. A run is a sequence of actions, an action that is not enabled changes
  nothing, and "earlier" is a smaller position in the sequence. A socket address is never used by two sessions. A
  datagram once sent can be delivered any number of times, at any time, or never.
* **Encryption** (`SessionCipher`, `Tunnel`, `SecureRelay`). The AEAD is a pair of function values of which only
  `Lawful` is assumed: opening undoes sealing, and sealing adds 16 octets (`SessionCipher.LawfulAeadExists`: there are
  such functions). Nonces, counters and packet layout are exact. `SecureRelay` runs the cipher on top of
  `RelayNetwork`, next to sessions that send raw payloads.
* **Control service** (`ControlDb` with `AddressText`, `ControlRuns`, `ControlRegistration`, `ControlLifecycle`,
  `ControlRaces`, `ControlService`). Two tables, with the UNIQUE constraints. Each SQL statement is one atomic step, each
  handler a small program with its locals, and a run interleaves any number of handlers, because handlers are not
  transactions. Registration keeps what the code does: an ignored INSERT error, "next address = base + COUNT(\*)",
  release by row deletion, and '' in a UNIQUE column.
* **STUN** (`Stun`). The attribute walk of the client, the builder of the server, and the exchange between them, after
  RFC 5389 sections 6, 15 and 15.2.
* **Relay selection** (`RelayPool`, and `RelayProbes` for its probes against the relay), **mobile reconnect queue**
  (`MobileEngine`), **DNS responder** (`DnsServer`, RFC 1035 sections 4.1.1 to 4.1.4) and **access control** (`Acl`).

Code that works step by step is modelled by classes and methods with loops. Each is proved equal to a function of its
inputs or old state, and the promises are proved about that function, over whole runs where they are about runs.

Inputs that come from outside are parameters: new device ids, times and probe outcomes, the success of a send, the
fetched peer list, and the text functions of the standard library: `from_utf8` and `to_lowercase`, assumed to be
`Faithful` on ASCII (`DnsServer.FaithfulExists`: there are such functions), and address parsing.

### Where the code does less than one would expect

* *Peers exchange encrypted packets through the relay.* The applications do not: `PathManager::send`
  (crates/tunnel/src/path.rs:158-163) and the mobile engine (apps/mobile/src/engine.rs:254-263) hand raw packets to
  `RelayClient::send`. Cipher and relay meet only in crates/tunnel/tests/e2e_interop.rs:142-172. This is the largest gap
  between the code and its documentation. `SecureRelay.EveryArrival` covers both kinds of sender;
  `SecureRelay.EveryArrivalDecrypts` asks that the sender in question never sends raw, and `SecureRelay.RawPayloadArrives`
  is a run that shows why.
* *Revoking an approved device succeeds and frees its address* (services/control/src/db.rs:294-302). The address is
  freed, but only one device can be revoked at a time: `ControlLifecycle.RevokeOutcome` has the exact condition,
  `ControlLifecycle.SecondRevokeFails` a case.
* *A freed address is available again.* Not after an out-of-order release: `ControlRegistration.NewKeyOutcome` has the
  exact condition for a registration to succeed, `ControlRegistration.AttemptsSettle` what trying again comes to, and
  `ControlLifecycle.ReleaseBlocksRegistration` a case where none ever does.
* *The address statistics show what is free.* With no other handler in between they always show nothing as free
  (`ControlService.Service.HandleAllocations`); over every run, what they show as free is what the pool lost between
  their two counts (`ControlRaces.FreeIsWhatWasReleased`, `ControlRaces.FreeAfterDeletion`).
* *Only the first device is approved unasked* (services/control/src/main.rs:316). A device is inserted as Approved if and
  only if there was none when its handler counted, which can be true of several that race:
  `ControlRaces.ApprovedByOldCount`, `ControlRaces.TwoApprovedUnasked`.
* *Probes measure the relays.* A relay of this repository never answers a probe, so after three rounds no relay is
  healthy and the pool has stopped choosing: `RelayProbes.ProbesGetNoEcho`, `RelayProbes.ProbingSettles`.
* *A device that registers with the relay once per peer hears all its peers.* A packet is heard by a session if and only
  if that session is the latest of its id and belongs to the sender: `RelayNetwork.HeardIffHolderForSender`. So a peer
  can go unheard (`RelayNetwork.PeerGoesUnheard`), and does until another session refreshes itself
  (`RelayNetwork.OnlyOnePeerHeard`).
* *A superseded session stays silent until it sends a keepalive*, as one might read the protocol. A late duplicate of its
  Hello is enough: `RelayNetwork.DuplicateHelloReinstates`; the exact rule is `RelayNetwork.ForwardedIffHolder`.
* *A DNS answer names what was looked up.* If and only if the scan of the question stopped at a zero octet, or at a
  pointer to one: `DnsServer.AnswerNamesLookup`, with a query where it does not in `DnsServer.AnswersWhatItCannotName`.
* *A STUN answer that the server may legally send is understood.* Up to 480 octets of attributes before the address:
  `Stun.DiscoveredAfterPrint`.

## Model

| member | source | states |
|---|---|---|
| RelayProto.Encode | crates/relay-proto/src/lib.rs:143-156 | the buffer filled field by field is the printed frame; payloads over 2048 octets are refused |
| RelayProto.DecodesIffPrinted | crates/relay-proto/src/lib.rs:165-194 | a datagram decodes to a frame if and only if that frame is printed at its start |
| RelayProto.DecodeAfterEncode | crates/relay-proto/src/lib.rs:143-194 | decode(encode(f) + junk) = f |
| RelayProto.EncodeAfterDecode | crates/relay-proto/src/lib.rs:143-194 | re-encoding a decoded frame gives the exact prefix of the datagram, refused exactly when the payload is over 2048 octets |
| RelayProto.RejectsIffNothingPrinted | crates/relay-proto/src/lib.rs:165-194 | decoding fails exactly when no frame is printed at the start |
| RelayServer.RelayServer.Handle | services/relay/src/main.rs:34-78 | one turn of the loop: registry, datagram sent, and whether the loop is left |
| RelayServer.RelayServer.Serve | services/relay/src/main.rs:31-78 | after any inputs the registry is "last Hello or Keepalive of each sender", the output is the list of forwards, and the loop is left exactly at the first fatal input |
| RelayServer.ReactMeaning | services/relay/src/main.rs:44-76 | one reaction in terms of the input history alone |
| RelayServer.FatalInputsAreOversized | services/relay/src/main.rs:54-58 | only a datagram over 2084 octets that no encoder produces can end the loop |
| RelayServer.EncodingSurvivesRelay | services/relay/src/main.rs:35-41 | an encoded frame fits the 4096-octet buffer and comes out of decode and encode octet for octet |
| RelayServer.Transparency | services/relay/src/main.rs:31-78 | fed only encoded frames, the relay forwards the very octets it received and never leaves its loop |
| RelayClient.RelayClient.Register | crates/tunnel/src/relay.rs:41-55 | a session starts by sending one Hello of its own id |
| RelayClient.RelayClient.Send | crates/tunnel/src/relay.rs:68-72 | sends exactly one frame, which decodes to the data with both ids; panics, with nothing sent, exactly on payloads over 2048 octets |
| RelayClient.RelayClient.Keepalive | crates/tunnel/src/relay.rs:106-111 | sends exactly one Keepalive of its own id |
| RelayClient.RelayClient.Recv | crates/tunnel/src/relay.rs:86-97 | returns the first waiting datagram that passes the sender filter, drops those before it, keeps those after it |
| RelayNetwork.InvAlways | crates/tunnel/src/relay.rs:41-111 | in every reachable state datagrams in flight are genuine and each registry entry belongs to a session with that id |
| RelayNetwork.ApplyKeepsInv | services/relay/src/main.rs:44-76 | every action of clients, relay or network keeps the invariant |
| RelayNetwork.RecvIntegrity | crates/tunnel/src/relay.rs:86-97 | whatever `recv` returns was sent earlier by a session with the mirrored ids, although only the sender is checked |
| RelayNetwork.RelayNeverExits | services/relay/src/main.rs:57-57 | with such clients the error exit of the relay loop is never taken |
| RelayNetwork.RegistryIsHolder | services/relay/src/main.rs:44-76 | over every run the registry is the last Hello or Keepalive taken for each id |
| RelayNetwork.ForwardedIffHolder | services/relay/src/main.rs:54-63 | Data for an id goes, unchanged, to a session if and only if that session holds the id at that moment |
| RelayNetwork.EverythingWasForwarded | services/relay/src/main.rs:54-63 | whatever is on its way to a session was forwarded to it by an earlier action |
| RelayNetwork.ReceivedWhileHolder | apps/daemon/src/main.rs:685-691 | one live session per id: everything a session receives was forwarded while it held its id |
| RelayNetwork.SupersededGetsNothing | crates/tunnel/src/relay.rs:106-111 | a superseded session gets no newly forwarded traffic until the relay takes a Hello or Keepalive of it again |
| RelayNetwork.DuplicateHelloReinstates | services/relay/src/main.rs:45-52 | a duplicated Hello, without any keepalive, makes a superseded session the holder again, and what a peer then sends is forwarded to it |
| RelayNetwork.HeardIffHolderForSender | services/relay/src/main.rs:53-66 | Data the relay takes is forwarded to a session and passes its filter if and only if that session holds the target id at that moment and is registered for the very sender |
| RelayNetwork.PeerGoesUnheard | apps/daemon/src/main.rs:684-691 | a device with sessions for p and q, the latter later: what p sends goes to the session for q, which drops it, and nobody hears it |
| RelayNetwork.OnlyOnePeerHeard | apps/daemon/src/main.rs:684-691 | while one session of an id is the only one to refresh itself, all that is forwarded for the id goes to it, and its filter passes exactly what its own peer sent |
| SessionCipher.SessionCipher.NextNonce | crates/crypto/src/key_exchange.rs:131-137 | hands out the nonce of the wrapping counter and records it |
| SessionCipher.SessionCipher.Encrypt | crates/crypto/src/key_exchange.rs:102-111 | nonce, then ciphertext, under the next counter |
| SessionCipher.SessionCipher.Decrypt | crates/crypto/src/key_exchange.rs:122-129 | short packets fail, the rest is opened under the nonce they carry; no state changes |
| SessionCipher.NonceInjective | crates/crypto/src/key_exchange.rs:131-137 | the nonce layout is injective on 64-bit counters |
| SessionCipher.DecryptAfterEncrypt | crates/crypto/src/key_exchange.rs:102-129 | decrypting an encrypted packet gives the plaintext; 28 octets of overhead |
| Tunnel.Tunnel.BindInitiator | crates/tunnel/src/lib.rs:85-87 | send counters start at 0 |
| Tunnel.Tunnel.BindResponder | crates/tunnel/src/lib.rs:101-103 | send counters start at 2^32 |
| Tunnel.Tunnel.BindWithNonce | crates/tunnel/src/lib.rs:105-118 | nothing sent or used yet; both ciphers have the shared key |
| Tunnel.Tunnel.SendTo | crates/tunnel/src/lib.rs:143-153 | hands the packet of the next counter to the socket, for that peer, and returns the plaintext length; the nonces used are those of the counters so far |
| Tunnel.Tunnel.RecvFrom | crates/tunnel/src/lib.rs:167-180 | decrypts what the receive buffer holds; a plaintext comes with the address of its sender |
| Tunnel.NoncesDisjoint | crates/tunnel/src/lib.rs:18-21 | all nonces of both directions are distinct if and only if a <= 2^32 and b <= 2^64 - 2^32 |
| SecureRelay.EveryArrival | crates/tunnel/tests/e2e_interop.rs:142-172 | over every run, each payload received was sent raw by the mirrored session, or decrypts to a plaintext that session sealed earlier |
| SecureRelay.EveryArrivalDecrypts | crates/tunnel/tests/e2e_interop.rs:142-172 | over every run, each payload received from a session that never sends raw decrypts to a plaintext it sealed earlier |
| SecureRelay.RawPayloadArrives | apps/mobile/src/engine.rs:254-263 | a payload of fewer than 28 octets that the peer sends raw is returned by `recv` and does not decrypt |
| SecureRelay.FitsIffAtMost2020 | crates/relay-proto/src/lib.rs:144-146 | a sealed packet fits a frame exactly when the plaintext has at most 2020 octets |
| SecureRelay.PathOfOnePacket | crates/tunnel/tests/e2e_interop.rs:164-171 | encrypt, frame, relay, filter, decrypt returns the plaintext |
| ControlDb.Store.FindDevice | services/control/src/db.rs:146-156 | the row with the key, or none |
| ControlDb.Store.Insert | services/control/src/db.rs:167-184 | inserts if and only if id, key and address are unused |
| ControlDb.Store.Touch | services/control/src/db.rs:195-203 | only last_seen of that device changes |
| ControlDb.Store.ApproveDevice | services/control/src/db.rs:286-292 | Pending becomes Approved, everything else is refused |
| ControlDb.Store.RevokeDevice | services/control/src/db.rs:303-315 | frees the address, then: an error if the row is Approved and another row is blank, true if it is Approved and none is, else false |
| ControlDb.Store.DeleteDevice | services/control/src/db.rs:326-334 | frees the address, then deletes the row |
| ControlDb.Store.PurgeStale | services/control/src/db.rs:345-359 | frees the addresses of all stale devices, deletes the stale ones that are not Approved, counts them |
| ControlDb.Store.AllocatedCount | services/control/src/db.rs:402-404 | the number of allocated rows; the pool size exactly when no row is free |
| ControlDb.Store.SelectFree | services/control/src/db.rs:373-378 | the free row whose address is first in the order of text, or none |
| ControlDb.Store.AllocateIp | services/control/src/db.rs:372-398 | reuses the free row that is first in the order of text, else gives base + COUNT and inserts it, else None |
| ControlDb.ConsistentMeans | services/control/src/db.rs:82-106 | at most one Revoked row, distinct addresses, pool size at most max_offset + 1 |
| ControlDb.RangeSize | services/control/src/db.rs:385-391 | a pool inside the network has at most max_offset + 1 rows |
| ControlRuns.StepKeepsFine | services/control/src/db.rs:286-398 | each statement of each handler keeps the tables consistent |
| ControlRuns.AlwaysFine | services/control/src/main.rs:320-571 | over every interleaving of all handlers; the branch that reuses a free row is never taken |
| ControlRuns.ReachableTables | services/control/src/db.rs:82-106 | in every reachable state: Revoked exactly when the address is empty, at most one such row, distinct addresses, everything inside the network, every pool row allocated |
| ControlService.Service.HandleRegister | services/control/src/main.rs:320-367 | the handler, statement after statement, is its program run alone |
| ControlService.Service.HandleHeartbeat | services/control/src/main.rs:445-451 | likewise; ok exactly when the device exists |
| ControlService.Service.HandleApprove | services/control/src/main.rs:542-551 | likewise; approved exactly when the device was Pending |
| ControlService.Service.HandleRevoke | services/control/src/main.rs:562-571 | likewise; revoked exactly when the device was Approved and no other row is blank, an error counting as no |
| ControlService.Service.HandleUnregister | services/control/src/main.rs:462-473 | likewise; deleted exactly when the device existed |
| ControlService.Service.Purge | services/control/src/main.rs:270-278 | likewise, for a tick of the purge task |
| ControlService.Service.HandleAllocations | services/control/src/main.rs:490-494 | with no other handler in between used is the whole pool and free is 0, which is the room left exactly when the pool is full |
| ControlRaces.ApprovedByOldCount | services/control/src/main.rs:371-374 | over every run, a row about to be inserted is Approved if and only if there was no device when its handler counted them, whatever there is by now |
| ControlRaces.TwoApprovedUnasked | services/control/src/main.rs:344-356 | two racing registrations from the empty tables are both approved |
| ControlRaces.FreeIsWhatWasReleased | services/control/src/main.rs:490-494 | over every run, the free count is what the pool lost between the two counts: positive if and only if the pool was smaller at the second |
| ControlRaces.FreeAfterDeletion | services/control/src/main.rs:490-494 | a deletion between the two counts shows an address as free |
| ControlRegistration.NewKeyOutcome | services/control/src/main.rs:339-366 | a new key is registered if and only if the pool has room and no device holds base + COUNT; what a failure leaves behind |
| ControlRegistration.ReachableNewKeyOutcome | services/control/src/main.rs:339-366 | the same condition in every reachable state |
| ControlRegistration.FailureRepeats | services/control/src/main.rs:342-356 | a failure that leaves the pool alone repeats for every later new key |
| ControlRegistration.WastedAttempts | services/control/src/db.rs:383-395 | the least k for which base + COUNT + k is past the network, in the pool, or held by no device |
| ControlRegistration.AttemptsSettle | services/control/src/db.rs:383-397 | repeated attempts at new keys: that many of them fail and each use up the next address; the next one succeeds, or blocks for ever, or is CONFLICT for ever, by the condition on the tables |
| ControlRegistration.RegisterNew | services/control/src/main.rs:339-366 | tables and answer of the handler for an unknown key when no row is free |
| ControlRegistration.SequentialStep | services/control/src/main.rs:320-367 | the k-th new key gets base + k, or CONFLICT when the network is used up |
| ControlRegistration.SequentialState | services/control/src/main.rs:320-367 | after k sequential registrations the pool is exactly the first k addresses |
| ControlRegistration.SequentialCapacity | services/control/src/main.rs:228-238 | exactly 2^(32 - prefix) new keys succeed in sequence, the first approved, and every later one is answered CONFLICT |
| ControlRegistration.GrowStep | services/control/src/db.rs:385-395 | one statement, with nothing released: the pool stays contiguous and stale counts stay behind it |
| ControlRegistration.AlwaysGrows | services/control/src/main.rs:320-367 | the same over every interleaving of registrations, approvals and heartbeats |
| ControlRegistration.RacingRegistrations | services/control/src/main.rs:320-367 | in every such interleaving the pool is [base, base + n), and two successful answers carry the same address exactly when they are for the same key |
| ControlLifecycle.StatementOnRows | services/control/src/db.rs:286-359 | a row moves only Pending, Approved, Revoked, one stage at a time, keeps key and creation time, and goes away only by deletion or by a purge that finds it stale and not Approved |
| ControlLifecycle.RowOverRun | services/control/src/db.rs:286-359 | over any stretch of any run a row that stays keeps key, name and creation time and never goes back a stage |
| ControlLifecycle.RevokedWasApproved | services/control/src/db.rs:303-315 | over any stretch, a row that was Pending and is Revoked was Approved in between |
| ControlLifecycle.GoneWasTakenOut | services/control/src/db.rs:326-359 | over any stretch, a row that is gone was taken out by its own deletion, or by a purge that found it stale and not Approved |
| ControlLifecycle.SameKeySameDevice | services/control/src/main.rs:324-356 | two successful answers for one key with no removal in between name the same device, even when handlers race |
| ControlLifecycle.RevokeOutcome | services/control/src/db.rs:303-315 | for any id: the devices change if and only if the device is Approved and none is Revoked yet; its address, also that of a Pending device, leaves the pool in any case |
| ControlLifecycle.SecondRevokeFails | services/control/src/db.rs:303-315 | two approved devices revoked one after the other: the second stays Approved and keeps its address, which has left the pool |
| ControlLifecycle.ReleaseBlocksRegistration | services/control/src/db.rs:385-397 | after the first of two devices is deleted, no new key can register although its address is free |
| Stun.BuildBindingRequest | crates/nat/src/stun.rs:121-132 | the request is the printed 20-octet message |
| Stun.BuildXorMappedV4 | services/stun/src/main.rs:106-119 | the attribute is the printed XOR-MAPPED-ADDRESS |
| Stun.BuildXorMappedV6 | services/stun/src/main.rs:128-146 | the printed attribute of family 2, with the cookie over the first four address octets only |
| Stun.HandleBindingRequest | services/stun/src/main.rs:70-97 | answers exactly the Binding Requests with the magic cookie, with the printed success message of the same transaction for the client's address |
| Stun.ParseXorMappedAddress | crates/nat/src/stun.rs:171-202 | the loop equals the recursive attribute walk on arbitrary octets and never reads out of range |
| Stun.WalkReadsFirst | crates/nat/src/stun.rs:171-202 | the walk reads the first 0x0020 attribute of length at least 8 that fits, and gives an address exactly when its family is IPv4 |
| Stun.FirstStopIsFirst | crates/nat/src/stun.rs:178-183 | no attribute before that one stops the walk |
| Stun.SkipOthers | crates/nat/src/stun.rs:196-199 | other attributes are passed over, whatever their length and padding |
| Stun.XorTwice | services/stun/src/main.rs:107-109 | the obfuscation undoes itself |
| Stun.ParseAfterPrint | crates/nat/src/stun.rs:171-202 | any other attributes, then the server's attribute, then anything: the walk returns the original address and port |
| Stun.ParseAfterMessage | crates/nat/src/stun.rs:142-161 | type, transaction id and attributes come back, whatever follows the message |
| Stun.ParseAfterCut | crates/nat/src/stun.rs:142-161 | of a message that the buffer cuts, the header comes back and as much of the attributes as fits |
| Stun.ParseAfterCutPrint | crates/nat/src/stun.rs:171-202 | the walk over cut attributes returns the address exactly when the server's attribute is left whole |
| Stun.DiscoveredAfterPrint | crates/nat/src/stun.rs:97-109 | the whole client on a printed answer cut to 512 octets: the address comes back if and only if at most 480 octets of other attributes precede it, else it is reported missing |
| Stun.Discover | crates/nat/src/stun.rs:97-109 | the order of checks after a receive of at most 512 octets |
| Stun.Exchange | crates/nat/src/stun.rs:91-110 | client after server is the identity on IPv4 clients; the IPv6 answer is rejected |
| RelayPool.RelayPool.constructor | crates/tunnel/src/relay_pool.rs:73-76 | all servers healthy and unmeasured, the first one active |
| RelayPool.RelayPool.SelectBest | crates/tunnel/src/relay_pool.rs:179-201 | the single pass ends on the declarative choice, or keeps the active server when none is healthy |
| RelayPool.RelayPool.ProbeAll | crates/tunnel/src/relay_pool.rs:123-157 | every server takes its outcome; the active one is the choice, or unchanged when none is healthy |
| RelayPool.RelayPool.Failover | crates/tunnel/src/relay_pool.rs:168-176 | the active server is charged one failure; the active one is the choice, or unchanged when none is healthy; returns whether it changed |
| RelayPool.ChoiceMeans | crates/tunnel/src/relay_pool.rs:178-195 | the choice is the first index of least latency among healthy measured servers, else the first healthy one |
| RelayPool.OneFailover | crates/tunnel/src/relay_pool.rs:168-176 | one failover lowers the credit by one; the active server changes exactly when it is exhausted and another is left |
| RelayPool.AfterFailovers | crates/tunnel/src/relay_pool.rs:168-201 | credit and switches after k failovers |
| RelayPool.FailoverExhausts | crates/tunnel/src/relay_pool.rs:168-201 | after M calls nothing is healthy, exactly H - 1 calls returned true, and the active server never changes again |
| RelayPool.AbandonedInOrder | crates/tunnel/src/relay_pool.rs:178-201 | servers are given up in order of (latency, index), unmeasured ones last |
| RelayPool.SumsAtFailure | crates/tunnel/src/relay_pool.rs:169-173 | what one failure does to the credit and to the number of healthy servers |
| RelayProbes.ProbesGetNoEcho | services/relay/src/main.rs:31-78 | over all inputs, a relay sends nothing to a socket from which it got only probes |
| RelayProbes.AfterRounds | crates/tunnel/src/relay_pool.rs:123-157 | after k rounds against such relays nothing is measured, and a server is healthy exactly when k <= 2 and its socket could always be bound |
| RelayProbes.ProbingSettles | crates/tunnel/src/relay_pool.rs:156-201 | from the third round on no server is healthy, and neither probing nor failover ever changes the active one |
| RelayProbes.FirstStaysActive | crates/tunnel/src/relay_pool.rs:179-201 | while the socket for the first server can be bound, the first server stays the active one |
| RelayProbes.Refresh | apps/daemon/src/main.rs:559-592 | the addresses the daemon connects to: the first server's as long as its socket can be bound, and never another after the third round |
| MobileEngine.TunnelEngine.SendToPeerInner | apps/mobile/src/engine.rs:254-263 | sent if and only if some peer has the address and the send works |
| MobileEngine.TunnelEngine.SendToPeer | apps/mobile/src/engine.rs:243-252 | queued, refused when full, or sent |
| MobileEngine.TunnelEngine.ReconnectNow | apps/mobile/src/engine.rs:197-241 | the peer loop and the flush loop equal their recursive meaning; success exactly when connected afterwards |
| MobileEngine.TunnelEngine.SyncPeers | apps/mobile/src/engine.rs:172-195 | the loop equals its recursive meaning |
| MobileEngine.SyncMeans | apps/mobile/src/engine.rs:172-195 | known peers keep their address, others get that of their first successful registration; the count is that of the peers added |
| MobileEngine.QueueAlwaysFine | apps/mobile/src/engine.rs:197-263 | over every run, whatever peers it starts with: connected implies an empty queue, the queue is the first min(256, k) packets of the outage and the others overflowed last, order is kept, every packet has exactly one fate |
| MobileEngine.PacketCounts | apps/mobile/src/engine.rs:197-263 | over every run submitted = sent + queued + dropped when full + failed |
| MobileEngine.ReconnectKeeps | apps/mobile/src/engine.rs:197-241 | a reconnect that fails anywhere, or succeeds, keeps all that |
| MobileEngine.SubmitKeeps | apps/mobile/src/engine.rs:243-252 | so does a submission |
| MobileEngine.FlushKeeps | apps/mobile/src/engine.rs:232-238 | so does each prefix of the flush |
| MobileEngine.RelistMeans | apps/mobile/src/engine.rs:213-226 | a reconnect gets past the peer list exactly when every address of another device parses; even when it does not, each peer has the address of its last successful registration, or the one it had, and no peer is lost |
| MobileEngine.OutageEnds | apps/mobile/src/engine.rs:228-240 | a full reconnect sends exactly the first 256 packets of the outage, in order, and the rest overflowed; nothing is lost if and only if there were at most 256 |
| DnsServer.DnsServer.UpdateRecords | apps/daemon/src/dns.rs:36-41 | each key holds the address of the last host with that lower-cased name, and there are no other keys |
| DnsServer.DnsServer.ParseName | apps/daemon/src/dns.rs:80-98 | the scan equals its recursive meaning on arbitrary octets and never reads out of range |
| DnsServer.DnsServer.HandleQuery | apps/daemon/src/dns.rs:67-134 | the answer to an arbitrary datagram |
| DnsServer.LabelsOfPrinted | apps/daemon/src/dns.rs:80-99 | scanning a printed name gives its labels lower-cased and ends right behind it |
| DnsServer.AnsweredIffKnown | apps/daemon/src/dns.rs:106-109 | a query for any ASCII label sequence is answered if and only if its name, suffix stripped, is that of a host, with the last such address |
| DnsServer.AnswerMeans | apps/daemon/src/dns.rs:111-133 | id kept, question echoed octet for octet, the 0xC00C pointer resolves to the name asked for, RDATA is the address |
| DnsServer.AnsweredLayout | apps/daemon/src/dns.rs:111-133 | for any answered datagram: id kept, flags, question area echoed, and the address of the name looked up |
| DnsServer.AnswerNamesLookup | apps/daemon/src/dns.rs:80-133 | for any answered datagram, the pointer resolves to the labels looked up if and only if the scan stopped at a zero octet or at a pointer to the root |
| DnsServer.AnswersWhatItCannotName | apps/daemon/src/dns.rs:85-95 | a datagram with a label that is not there is answered for the name before it, which no reader finds in the answer |
| DnsServer.ReadPrinted | apps/daemon/src/dns.rs:122-124 | a reader of compressed names gets printed labels back |
| DnsServer.SuffixIsOptional | apps/daemon/src/dns.rs:106-108 | `<name>.connectalso` asks for `<name>`, and the bare name for the same unless it ends in the suffix itself |
| Acl.EvaluateAcls | crates/core/src/lib.rs:181-195 | sorting and scanning gives the verdict |
| Acl.ParseAfterPrint | crates/core/src/lib.rs:89-112 | the fields of any printed IPv4 header, with any options, come back; the ports are the first four octets of a TCP or UDP payload, else 0 |
| Acl.SortIsStable | crates/core/src/lib.rs:186-187 | the sort is ordered and keeps the rules of each priority in order |
| Acl.ScanFindsWinner | crates/core/src/lib.rs:189-194 | the scan finds the matching rule least in (priority, position), and nothing exactly when none matches |
| Acl.VerdictMeans | crates/core/src/lib.rs:181-195 | the verdict is the action of that rule, "allow" by default and for packets that do not parse |
| Acl.VerdictIgnoresOrder | crates/core/src/lib.rs:186-187 | a permutation that keeps equal priorities in order never changes a verdict |
| Acl.VerdictReadsHeader | crates/core/src/lib.rs:89-112 | two packets of equal length that agree on their first 64 octets get the same verdict |

## Left out

- X25519, ChaCha20-Poly1305 and random generation: assumptions only (`Lawful`, `Agreed`). That a wrong key fails to open a packet is not stated; AEAD encryption is taken not to fail.
- Sockets, HTTP, tokio, axum, sqlx, logging, the TUN device and clocks: parameters or step outcomes. I/O errors of sockets and of the database are not modelled, so the loops end only where the protocol logic ends them.
- Replay rejection: decryption keeps no state in the code, so nothing is claimed.
- RelayClient.RelayClient.Recv: None stands for waiting without end when the socket holds no acceptable datagram.
- SecureRelay.EveryArrivalDecrypts: safety only; that a packet arrives at all is up to the network.
- ControlDb.Store.FindDevice: with unique keys there is one row at most; the 32-octet key is an opaque value, and so is the device id.
- ControlRegistration.SequentialCapacity: prefix 0, where the shift by 32 overflows, and networks that run past 255.255.255.255 are excluded; the text of a CIDR is taken as already parsed.
- Candidates and ACL rows of the control service are stored and listed as given, with no constraint between them and the devices; peer lists and DNS rows are the device table filtered by status. Backup and restore copy the database file as a whole.
- Stun.BuildXorMappedV6: as the code has it, which is not the rule of RFC 5389 section 15.2; the client rejects the family.
- Stun.Discover: random transaction ids are a parameter; the answer is whatever datagram arrives.
- RelayPool.RelayPool.ProbeAll: outcomes are inputs, each round trip is below `Duration::MAX`, and the time of the last probe is not kept; the failure counter does not overflow.
- MobileEngine.TunnelEngine.SendToPeerInner: several peers with one address are one route; packets are opaque and no larger than a relay frame takes. The heartbeat during a reconnect, activity levels and receiving are not modelled. `engine_init` is any initial peers: an engine whose first `sync_peers` fails is never used.
- DnsServer.DnsServer.HandleQuery: Unicode decoding and lower-casing are parameters, fixed only on ASCII; the receive loop with its 512-octet buffer is not modelled.
- Acl.EvaluateAcls: the library sort is modelled by insertion, and reading an address from text is a parameter. Short header lengths and fragments are treated as the code treats them.
- Hole punching rounds and the NAT type tables (fixed probe counts and a table lookup), the back-off of `PathManager` (one doubling counter; its `send` always goes to the relay), the CLI, desktop and mobile bindings, and packaging (no protocol state of their own).

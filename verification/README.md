# A verified model of a multi-threaded chat server and its client

The server keeps 50 rooms of 20 members and 100 client slots, and serves every client in its own
thread; the client encrypts its link, exchanges end-to-end keys and talks to the server in short
command lines.  This project models the parts of both programs in which several pieces of state
have to agree, and proves what their code keeps.  Check it with `dafny verify dfyconfig.toml`.

## The files

| file | what it holds |
|---|---|
| `rooms.dfy`, `room_results.dfy`, `room_manager.dfy` | the room table: the critical sections as functions with the counting invariant, the complete result of each, and the manager that updates the arrays in place |
| `client_slots.dfy` | client slots and their security contexts: two tables and two counters, with the drop path inside a broadcast |
| `chat_server.dfy`, `membership.dfy`, `leftovers.dfy`, `slot_sharing.dfy`, `commands.dfy` | every interleaving of the handler threads: one action per critical section, a program counter per thread; who is in which room, what a disconnect leaves behind, when two handlers serve one slot, and what each command does from beginning to end |
| `locks.dfy` | the lock skeleton of every server path, and deadlock freedom |
| `link_cipher.dfy`, `link_mismatch.dfy` | the link cipher with key rotation: the client's and the server's different state machines, and what the tag lets through when their keys differ |
| `key_exchange.dfy`, `peer_table.dfy`, `e2e.dfy`, `e2e_bytes.dfy`, `wire.dfy`, `wire_lines.dfy`, `relay.dfy` | the end-to-end layer: key packets, peer table, secrets, padding, every byte of keys and packets, the way of a key packet through the server, and whom the running server sends it to |
| `handshake.dfy` | the three-way handshake, each side and both composed over FIFO channels |
| `log_writer.dfy` | the staged bounded log line |
| `secure_memory.dfy`, `secure_heap.dfy` | the guard-page allocator: size arithmetic on 64 bits, then allocate, wipe and free over a flat memory |
| `bytes.dfy`, `counting.dfy`, `text.dfy` | shared vocabulary |

Where the original changes state in place, the model is a class or a method on arrays whose
postcondition equates the new state with a function of the old one; the theorems are then about
those functions and hold for every run of them.  Sends, receives, `mmap`, generated ids, random
padding and sequence numbers are inputs: a failing `send` is a set of failing recipients, a failing
`mmap` is `None`.

## What was found

- **Room ids are copied after the lock is released.**  `room_manager_create_room` returns a copy of a
  static buffer that is taken after unlocking.  If another client creates a room in between, the
  first client's session names the wrong room; `OverlappingCreations` with `TwoCreatorsReachable` gives
  such a run.  "A member's session names its room" is therefore not an invariant of the code.
  Take it together with "a session is in use exactly while one handler serves it":
  `MemberNamesRoomExactly` proves, with fresh ids and over all connections of a slot, that both hold
  throughout a run if and only if the slot's client never copies a foreign id, never disconnects while a
  room lists it, and is never dropped by a failed send.
- **A disconnect leaves the room membership behind.**  With fresh ids the slot stays listed for ever,
  the room never closes, `/join` of that room is refused on that slot, and whoever is given the slot
  next receives the room's messages.  A disconnect while listed leaves such a membership exactly when no
  other handler of the slot is just entering that room.
- **The handler of a dropped client can disconnect the next user of its slot.**  A failed send frees the
  slot at once while the handler runs on.  A slot has one unfinished handler at a time in exactly the
  runs that never give it away before its last handler has finished, and in those no handler disconnects
  a later user; when it is given away so, the older handler's own steps lead to such a disconnect.
- **End-to-end messages are not accepted between peers who exchanged key packets.**  The two derived
  secrets agree exactly for equal user ids (and equal upper halves of the private keys), and a client
  ignores key packets carrying its own id.
- **The link desynchronises after 1000 messages.**  The client rotates its key, the server does not;
  they agree again after 256 rotations.  In between, the server still takes every message of a length
  divisible by 64 for authentic (and some of 32 modulo 64, depending on the key), and reads every byte
  of it wrong; messages of any other length are rejected.
- **Unpadding is exact only by luck**: a text comes back unchanged exactly when it is 16 bytes long or
  the first random padding byte is zero.
- **The key packet signature does not cover the last 16 nickname bytes.**
- **The context counter drifts** by one each time a slot dropped by a failed broadcast is reused, and
  by nothing else, failed allocations included.
- **`logger_cleanup` blocks on its own mutex exactly when** the logger is initialised, writes to a file
  and its minimum level is DEBUG or INFO; all server paths respect one lock order.
- **The allocator's size arithmetic wraps** for the last 12 327 sizes below 2^64; for exactly these the
  user block does not fit between the guard pages, and at most three pages are asked for.

## Model

| member | source | states |
|---|---|---|
| RoomTable.AddCounts | server/src/room_manager.c:335-367 | on a well-counted room, adding succeeds exactly for a new non-negative client and a room below 20 members; the counter and the member set change together, and the "no slot" fall-through is dead |
| RoomTable.RemoveCounts | server/src/room_manager.c:369-389 | removing succeeds exactly for a member, and takes that member and nobody else out of set and counter |
| RoomTable.CreateKeepsValid | server/src/room_manager.c:58-104 | creating keeps the table invariant, fails exactly when all 50 slots are active, never falls through its slot scan, and makes a room whose only member is the creator |
| RoomTable.JoinKeepsValid | server/src/room_manager.c:106-133 | joining keeps the invariant, fails to find a room exactly when no active room has the id, and changes only the first active room with that id, by exactly this client |
| RoomTable.LeaveKeepsValid | server/src/room_manager.c:135-167 | leaving keeps the invariant, removes only this client from only that room, and closes the room exactly when it was alone there |
| RoomTable.RecipientsAre | server/src/room_manager.c:177-206 | a room broadcast goes to exactly the listed, reachable members other than the sender |
| RoomResults.CreateExactly | server/src/room_manager.c:58-104 | creating is refused exactly when all 50 slots are active; otherwise the first inactive slot holds the room with the given id and name, the creator alone in its first member slot |
| RoomResults.JoinExactly | server/src/room_manager.c:106-133 | joining answers "no such room" exactly when no active room has the id; otherwise the first such room is tried, and a newcomer to a room below 20 members is always added, in its first free slot |
| RoomResults.LeaveExactly | server/src/room_manager.c:135-167 | leaving frees exactly the member's slot in the first active room with the id, vacates the room if it was its only member, and otherwise changes nothing |
| RoomResults.BroadcastExactly | server/src/room_manager.c:169-211 | a broadcast reaches exactly the reachable members, other than the sender, of the first active room with the id, each once |
| RoomResults.RecipientsInOrder | server/src/room_manager.c:187-204 | and in the order of their member slots |
| RoomTable.CreateKeepsOthers | server/src/room_manager.c:74-98 | creating touches no other client's membership, nor its room's id, name or slot |
| RoomTable.LeaveKeepsOthers | server/src/room_manager.c:151-158 | leaving touches no other client's membership, nor its room's id, name or slot, even with colliding ids |
| RoomTable.JoinKeepsOthers | server/src/room_manager.c:106-133 | joining touches no other client's membership, nor its room's id, name or slot |
| RoomManager.ListingIsWhole | server/src/room_manager.c:228-254 | in any buffer of at least 100 bytes the listing is the header, whole lines with true counts for the active rooms of a slot prefix, and the footer; the prefix ends at the first one that leaves less than the reserve, or at the last slot |
| RoomManager.TinyListingIsCut | server/src/room_manager.c:241-253 | in a smaller, nonempty buffer the unsigned reserve test never stops the scan, and the listing is the whole text of all active rooms cut to what fits |
| Text.DecimalDenotes | server/src/room_manager.c:245-247 | a printed count is all digits, has no leading zero and denotes the number |
| RoomManager.Manager.FindRoom | server/src/room_manager.c:213-226 | the loop finds the first active room with the id |
| RoomManager.Manager.HasClient | server/src/room_manager.c:391-404 | the loop decides membership |
| RoomManager.Manager.AddClient | server/src/room_manager.c:335-367 | the in-place update equals the specification function on this room and leaves the others alone |
| RoomManager.Manager.RemoveClient | server/src/room_manager.c:369-389 | the in-place update equals the specification function on this room and leaves the others alone |
| RoomManager.Manager.CreateRoom | server/src/room_manager.c:58-104 | outcome and new table equal the specification function of the old table |
| RoomManager.Manager.JoinRoom | server/src/room_manager.c:106-133 | outcome and new table equal the specification function of the old table |
| RoomManager.Manager.LeaveRoom | server/src/room_manager.c:135-167 | outcome and new table equal the specification function of the old table, the reset of an emptied room included |
| RoomManager.Manager.BroadcastToRoom | server/src/room_manager.c:169-211 | the sends made, in slot order, are those of the specification function |
| RoomManager.Manager.ListRooms | server/src/room_manager.c:228-254 | the text built by bounded appends equals the specified listing |
| ClientSlots.AddKeepsValid | server/src/client_manager.c:60-129 | accepting keeps both tables in step, fails exactly when all slots are active or no context is granted, and disturbs no active session |
| ClientSlots.AddTakesLowest | server/src/client_manager.c:67-119 | the lowest inactive slot is handed out, with a fresh session and context; a refused context leaves it cleared and empty |
| ClientSlots.RemoveKeepsValid | server/src/client_manager.c:131-160 | removing clears exactly this active slot and its context, keeps both tables in step, and the context counter does not wrap below zero; any other id changes nothing |
| ClientSlots.BroadcastKeepsValid | server/src/client_manager.c:162-190 | a broadcast clears exactly the active non-sender slots whose send failed, keeps the client counter exact and leaves every context in place |
| ClientSlots.EveryRunKeepsBooks | server/src/security_foundation.c:80-131 | in every run the client counter is the number of active sessions, active sessions have contexts, and the context counter is the live contexts plus the replacements, failed allocations included |
| ClientSlots.LeftoverExactlyDropped | server/src/client_manager.c:174-182 | in every run, the slots whose reuse counts as a replacement are exactly those dropped by a failed broadcast send and not handed out since |
| ClientSlots.Manager.AddNewClient | server/src/client_manager.c:60-129 | the loop and updates in place equal the specification function |
| ClientSlots.Manager.Disconnect | server/src/client_manager.c:131-160 | the updates in place equal the specification function |
| ClientSlots.Manager.BroadcastMessage | server/src/client_manager.c:162-190 | the loop equals the specification function, and the result lists the recipients reached, in slot order |
| ClientSlots.ReachedAre | server/src/client_manager.c:172-182 | those are exactly the active clients other than the sender whose send succeeds |
| ClientSlots.ReachedInOrder | server/src/client_manager.c:172-182 | in slot order and each once |
| ChatServer.StepKeepsInv | server/src/chat_protocol.c:211-348 | every step of every thread, the acceptor and the client-list broadcast keeps the counting invariants of rooms and slots |
| Membership.EveryRunKeepsInv | server/src/room_manager.c:58-167 | the counting invariants hold after every interleaving, with colliding ids and disconnects |
| Membership.FallThroughsUnreachable | server/src/room_manager.c:350-366 | in every reachable state neither "no slot found" path can be taken |
| Membership.MembershipIsStable | server/src/room_manager.c:378-385 | while a client does nothing, no run of the others removes it, closes or renames its room or reuses the room's slot, even if ids collide |
| Membership.ConsistentStep | server/src/chat_protocol.c:257-313 | one step of anybody keeps "in use exactly while one handler serves it, and listed only in rooms the session names or that handler is entering" exactly when it is not the copying of a foreign id, a disconnect while listed, or a drop of this client |
| Membership.ConsistentExactlyWhenUndisturbed | server/src/chat_protocol.c:211-348 | from any consistent state, the relation holds throughout a run if and only if the run contains none of these three steps |
| Membership.MemberNamesRoomExactly | server/src/room_manager.c:95-103 | the same for every slot and every run from the empty server with fresh ids, over all connections of the slot |
| Membership.AtMostOneRoom | server/src/chat_protocol.c:226-235 | a consistent client is listed in at most one room |
| Membership.BroadcastStaysInRoom | server/src/room_manager.c:169-211 | a room broadcast never reaches its sender, only active sessions, and among consistent clients only those naming or just entering the room |
| Membership.DeliveredExactly | server/src/chat_protocol.c:120-136 | a chat line or leave announcement goes to exactly the reachable others listed in the first active room with the session's room id, a join announcement to those of the room just entered |
| Membership.SayingReachesRoom | server/src/chat_protocol.c:120-136 | a line typed by a client whose session names a room is sent to exactly the reachable others of that room, and saying it changes nothing |
| Commands.ConnectCommand | server/src/client_manager.c:60-129 | a granted connection gets the lowest inactive slot and a new handler, and after the handshake is in the lobby |
| Commands.CreateCommand | server/src/chat_protocol.c:211-255 | an undisturbed create leaves the room the session names, then ends with the session naming the new room, or with the old room left and still named |
| Commands.JoinCommand | server/src/chat_protocol.c:257-313 | the same for join |
| Commands.LeaveCommand | server/src/chat_protocol.c:315-348 | an undisturbed leave ends in the lobby, with no room named and the named room left |
| Commands.DepartedFromAll | server/src/chat_protocol.c:315-348 | for a consistent client that takes it off every member list |
| Commands.FailedEntryLeavesNameBehind | server/src/chat_protocol.c:272-281 | so after joining a room that does not exist a consistent client is in no room while its session names the old one |
| Commands.RefusedCommands | server/src/chat_protocol.c:27-136 | unfit names and ids, and leave or chat outside a room, change nothing |
| Commands.QuitCommand | server/src/client_session.c:121-142 | quitting frees the slot and its context, ends the handler and leaves the rooms as they are |
| Membership.UndisturbedMeansOneRoom | server/src/chat_protocol.c:211-348 | over every such run without these steps, the client is listed in at most one room and every room broadcast reaching it is another client's, for a room it names or is just entering |
| Leftovers.OrphanForever | server/src/client_session.c:31-48 | with fresh ids, a membership no session names survives every later run and keeps its room open |
| Leftovers.JoinRefused | server/src/room_manager.c:344-348 | every join of such a room by its own slot is refused and changes nothing |
| Leftovers.DisconnectOrphans | server/src/client_manager.c:140-156 | a disconnect while listed in a room leaves such a membership behind if and only if no other thread of the slot is just entering that room |
| Leftovers.DropOrphans | server/src/client_manager.c:174-182 | a drop by a failed send does so if and only if no thread of the slot is just entering that room |
| Leftovers.OrphanReachable | server/src/client_session.c:121-142 | such a membership is reached from the empty server by one client that connects, creates a room and quits |
| Leftovers.OrphanOverhears | server/src/room_manager.c:177-206 | whoever uses the slot later is sent the room's messages without naming the room |
| Leftovers.OverlappingCreations | server/src/room_manager.c:95-103 | whenever two clients are about to create and two slots are left, some schedule leaves the first listed in its own room with a session naming the other |
| Leftovers.TwoCreatorsReachable | server/src/chat_protocol.c:211-255 | that situation is reached from the empty server |
| SlotSharing.SoleStep | server/src/client_manager.c:67-119 | one step keeps "one unfinished handler, owning the session" exactly when it does not give the slot away while a handler of it is unfinished |
| SlotSharing.OneHandlerExactly | server/src/client_manager.c:60-190 | the same over every run from the empty server and every slot; and in such runs no handler ever clears a session opened for a later one |
| SlotSharing.DanglingExactly | server/src/client_manager.c:174-182 | until then, a handler without a session arises exactly by a failed send to its client and ends exactly by its own disconnect |
| SlotSharing.BusyHandOutShares | server/src/client_manager.c:67-119 | giving a busy slot away leaves an older and a newer unfinished handler on a slot in use |
| SlotSharing.OlderHandlerDisconnects | server/src/client_session.c:121-142 | wherever the older handler then stands, its own steps alone lead to a disconnect that clears the newer client's session, context and place in the count, while the newer handler stays where it was |
| SlotSharing.StaleHandlerReachable | server/src/client_manager.c:174-182 | reached from the empty server: the first client is dropped, a second gets its slot and is shaking hands, and the first one's handler is about to clear the second one's session |
| Locks.ServerOrdered | server/src/client_manager.c:67-119 | every handler and acceptor path takes its locks in one strict rank order |
| Locks.EveryRunKeepsInv | server/src/security_foundation.c:93-109 | in every run of any number of threads, locks are exclusive and held in rank order |
| Locks.NoDeadlock | server/src/room_manager.c:177-206 | every unfinished thread can take a step or waits, through a chain of lock holders, for one that can |
| Locks.NoWaitingCycle | utils/src/logger.c:162-162 | no reachable state has a circle of waiting threads |
| Locks.ServerNeverDeadlocks | server/src/security_foundation.c:243-253 | both hold for the acceptor with any number of handlers, new handlers being added as the run goes on |
| Locks.CleanupBlocksExactly | utils/src/logger.c:108-122 | the cleanup breaks the lock order, and a thread running it alone can end up stuck, if and only if the logger is initialised, its sink is a file and its minimum level lets INFO through |
| Locks.CleanupNeverFinishes | utils/src/logger.c:154-162 | in that case it never finishes, whatever the other threads do |
| LinkCipher.AlteredFrameAccepted | client/src/encryption_context.c:125-157 | under one key, a same-length altered frame is accepted iff in each of the 16 lanes the data changes cancel the tag change |
| LinkCipher.SealedFrameOpens | client/src/encryption_context.c:57-123 | an unaltered frame round-trips |
| LinkCipher.SealedBytes | client/src/encryption_context.c:125-131 | the bytes sent, combined with the plaintext, are the key repeated every 32 bytes; the tag follows them |
| LinkCipher.TagGrows | client/src/encryption_context.c:141-148 | the empty message has a zero tag, and a byte appended at index n changes lane n modulo 16 by that byte and no other |
| LinkCipher.ShortTag | client/src/encryption_context.c:141-148 | up to 16 bytes the tag on the wire is the plaintext padded with zeros, whatever the key |
| LinkCipher.SingleByteChangeRejected | server/src/security_foundation.c:387-439 | any change of a single byte is rejected |
| LinkCipher.AfterSealsClosedForm | client/src/encryption_context.c:159-169 | after n messages the rotation counter is n mod 1000, the sequence number n mod 2^32, and every key byte has moved by n/1000 |
| LinkCipher.ServerRecoversExactlyInPhase | server/src/security_foundation.c:405-446 | the server recovers the k-th nonempty message iff (k/1000) mod 256 = 0, and otherwise its output differs from the plaintext in every byte |
| LinkMismatch.AcceptedUnderOtherKey | server/src/security_foundation.c:405-446 | a frame sealed under one key is accepted under another iff the key differences, repeated along the message, cancel in each of the 16 lanes |
| LinkMismatch.AcceptedOutOfPhaseExactly | client/src/encryption_context.c:150-169 | out of phase the server accepts the k-th message iff its length is a multiple of 64, or 32 modulo 64 with a key and shifted key that differ alike in both halves; every byte it then reads is wrong |
| LinkCipher.ComputeTag | client/src/encryption_context.c:141-148 | the accumulating loop computes the lane-wise tag |
| LinkCipher.SealInto | client/src/encryption_context.c:57-86 | stream and tag loops produce the specified frame |
| LinkCipher.OpenFrom | client/src/encryption_context.c:88-123 | length checks, stream and tag comparison accept exactly the specified frames |
| LinkCipher.ClientCipher.Encrypt | client/src/encryption_context.c:57-86 | the frame under the old key, or a refusal that changes nothing; then counter, sequence number and rotation |
| LinkCipher.ClientCipher.Decrypt | client/src/encryption_context.c:88-123 | opens under the current key, which it does not change |
| LinkCipher.ServerCipher.Encrypt | server/src/security_foundation.c:373-403 | the same frames as the client's, with a key that is never written |
| LinkCipher.ServerCipher.Decrypt | server/src/security_foundation.c:405-446 | opens exactly what the client's opens under the same key |
| KeyExchange.CreatePacket | client/src/e2e_encryption.c:307-331 | a created packet carries the given identity and always verifies |
| KeyExchange.VerifyPacket | client/src/e2e_encryption.c:333-357 | decides whether the signature matches |
| KeyExchange.SingleByteChangeNoticed | client/src/e2e_encryption.c:340-352 | one altered signed byte of a verified packet goes unnoticed exactly when it is among the last 16 nickname bytes |
| KeyExchange.SameSignatureExactly | client/src/e2e_encryption.c:322-327 | two signed parts share a signature exactly when they agree in the XOR of each of the 32 columns |
| E2EBytes.PacketSignatureByte | client/src/e2e_encryption.c:318-327 | every byte of a key packet's signature in terms of id, public key and nickname |
| KeyExchange.SerializedLayout | client/src/client.c:323-344 | where the four fields lie in the 144 raw bytes |
| PeerTable.InsertRefines | client/src/e2e_encryption.c:94-135 | adding or updating a peer is the map update, under the table's capacity and signature checks |
| PeerTable.EraseRefines | client/src/e2e_encryption.c:137-155 | removing is the map removal; no entry moves |
| PeerTable.LookupIsMapLookup | client/src/e2e_encryption.c:157-170 | the scan for an active entry answers as the map does |
| PeerTable.EveryRunRefinesTheMap | client/src/e2e_encryption.c:94-170 | over every sequence of operations the table is the map, its ids are distinct, and its used count is the number of distinct ids ever accepted, at most 64 |
| PeerTable.RunsOnlyGrow | client/src/e2e_encryption.c:94-155 | the used count never decreases, and lookups answer from the map after every run |
| PeerTable.FullTableOnlyShrinks | client/src/e2e_encryption.c:94-98 | once 64 ids were accepted, every continuation accepts and updates nothing, known peers included, and loses exactly the entries it removes |
| PeerTable.Table.AddPeer | client/src/e2e_encryption.c:94-135 | the in-place update equals the specification function, success exactly for a verified packet and a table below capacity |
| PeerTable.Table.RemovePeer | client/src/e2e_encryption.c:137-155 | the in-place update equals the specification function |
| PeerTable.Table.FindPeer | client/src/e2e_encryption.c:157-170 | the scan equals the specified lookup |
| E2EBytes.InsertExactly | client/src/e2e_encryption.c:104-131 | a verified packet with a known id overwrites that slot, one with a new id takes the next |
| E2EBytes.EraseWipesKey | client/src/e2e_encryption.c:142-152 | removing disables the entry in place and zeroes its key, and changes no other |
| E2EBytes.PublicKeyByte | client/src/e2e_encryption.c:76-85 | every byte of a public key in terms of private key and id |
| E2EBytes.SecretByte | client/src/e2e_encryption.c:426-433 | every byte of a derived secret |
| E2EBytes.RefusedExactly | client/src/e2e_encryption.c:172-200 | encryption is refused exactly for a recipient without an active entry or a text of 992 bytes or more |
| E2EBytes.PacketMac | client/src/e2e_encryption.c:212-222 | a sent packet names sender and recipient, and every byte of its MAC covers them and the secret |
| E2EBytes.PacketData | client/src/e2e_encryption.c:396-402 | its data differs from text and padding, byte by byte, by the secret repeated every 32 bytes and the byte's index |
| E2EBytes.WrongSecretReads | client/src/e2e_encryption.c:404-410 | deciphering with another secret reads right exactly the bytes at which the secrets agree |
| E2E.SecretsAgreeExactly | client/src/e2e_encryption.c:426-433 | the two derived secrets agree iff the user ids are equal and the private keys agree on bytes 16 to 31 |
| E2E.AcceptedExactly | client/src/e2e_encryption.c:234-305 | between parties holding each other's keys a nonempty message is accepted iff the secrets agree; its padded length is a multiple of 16 in [len, len+16) and at most 992, and what is returned is the prefix of text and padding given by the unpadding rule |
| E2E.UnpaddingRestoresExactly | client/src/e2e_encryption.c:275-295 | the text is shown unchanged iff it has 16 bytes or its first padding byte is zero |
| E2EBytes.StoppedUnpadding | client/src/e2e_encryption.c:279-286 | with a NUL among the last 16 bytes, index 0 apart, everything up to and including the last one is kept |
| E2EBytes.UnstoppedUnpadding | client/src/e2e_encryption.c:279-286 | without one everything up to 17 bytes is kept, beyond that all but the last 16, and that is what is shown |
| E2E.LearnedPeersNeverUnderstand | client/src/client.c:346-366 | if the receiver learned its table from key packets and the two hold each other's real keys, no message is accepted |
| E2E.LearnsTheRealKey | client/src/client.c:346-366 | whatever was received before, a key packet taken while the table has room makes lookup return the sender's real key |
| E2E.ExchangedKeysNeverWork | client/src/e2e_encryption.c:234-305 | so two clients with different ids that exchange key packets hold each other's real keys, and no message from one is accepted by the other |
| E2E.NeverLearnsItself | client/src/client.c:346-366 | over every sequence of received packets a client stores no key under its own id |
| E2E.Unpad | client/src/e2e_encryption.c:275-295 | the backward scan, its unsigned wrap-around included, computes the specified length |
| E2E.Context.EncryptMessage | client/src/e2e_encryption.c:172-232 | equals the specified packet, or the refusals for unknown recipients and long texts |
| E2E.Context.DecryptMessage | client/src/e2e_encryption.c:234-305 | equals the specified outcome: wrong recipient, unknown sender and wrong MAC are refused whatever the length, the result is cut to the caller's buffer |
| E2E.Context.HandleKeyExchange | client/src/client.c:346-366 | its own id is ignored, otherwise the table is updated and success means verified and not full |
| Wire.ScanHexText | client/src/client.c:475-498 | scanning printed hex gives the bytes back, whatever sscanf does on irregular text |
| Wire.ParsePrinted | client/src/client.c:323-344 | printing and parsing a key packet are inverse |
| Wire.RelayedExactlyInPhase | server/src/chat_protocol.c:66-80 | the server relays the sender's key line untouched iff the link key is in phase |
| Wire.KeyReachesReceiver | client/src/main.c:48-54 | through printing, link encryption, server decryption, cleaning, dispatch, relay and parsing the packet arrives unchanged and verified, and the receiver's lookup then returns exactly the sender's key |
| Relay.RecipientsExactly | server/src/chat_protocol.c:66-80 | a key line is sent to exactly the reachable active clients other than the sender, and from inside a room only to those listed in it, which if consistent name it or are just entering it |
| Relay.KeyReachesExactly | server/src/chat_protocol.c:66-80 | a client receives the sender's key line iff the link is in phase and it is among these recipients; with room and another id it then looks up exactly the sender's key |
| Wire.PrintHex | client/src/client.c:323-344 | the printing loop writes the specified text |
| Wire.ParseKeyExchange | client/src/client.c:475-498 | the scanning loop parses or refuses as specified |
| Wire.CleanLine | server/src/chat_protocol.c:108-117 | copying, terminating and cutting gives the specified line |
| WireLines.CleanedExactly | server/src/chat_protocol.c:108-117 | which is what comes before the first NUL or line end, or the first 1023 bytes |
| WireLines.DispatchExactly | server/src/chat_protocol.c:27-101 | what each prefix selects; no line has two of them |
| WireLines.PrintedDigits | client/src/client.c:323-344 | the printed text: two lower-case hexadecimal digits a byte, the high one first |
| WireLines.ScansRegularText | client/src/client.c:475-498 | digits of either case are read as their value |
| Handshake.ServerSession.Perform | server/src/handshake_protocol.c:88-173 | success exactly for a SYN, a successful send and an ACK of the server's own number; phase, nickname, number and the reply sent in every outcome |
| Handshake.PerformClientSide | client/src/handshake_protocol.c:82-144 | success exactly for a SYN-ACK of the client's own number and successful sends, and the packets sent in every outcome, field by field |
| Handshake.EstablishedMeansAgreed | server/src/client_session.c:121-139 | in every composed run, time-outs included: an established server implies the client sent its ACK, both numbers and the nickname (up to 31 bytes) agree, and the chat handled is a prefix of what was sent after the ACK; before that nothing is handled |
| Handshake.EstablishedFrames | client/src/handshake_protocol.c:82-144 | in every such run the three packets themselves: kinds, each side counting on from its own number and acknowledging the other's plus one modulo 2^32, and both names |
| Handshake.NicknameTakenExactly | server/src/handshake_protocol.c:119-122 | an empty or unterminated nickname is ignored, any other taken up to its NUL |
| Handshake.LossFreeRunCompletes | client/src/handshake_protocol.c:82-144 | without faults a run never fails, always has a next handshake step until both sides are done after four, and then exactly three packets were exchanged |
| LogWriter.WriteSegments | utils/src/logger.c:174-256 | the nine guarded stages over one uninitialised buffer emit the first 4095 characters of the concatenated enabled segments, and every write is inside the buffer |
| LogWriter.LogLine | utils/src/logger.c:154-259 | the same for every configuration and message, and nothing below the minimum level or before initialisation |
| LogWriter.LineText | utils/src/logger.c:181-249 | the whole line in terms of configuration and call: every part, its brackets, order and condition |
| LogWriter.CleanLineIsWhole | utils/src/logger.c:254-256 | when the arguments hold no NUL, only what does not fit is lost |
| SecureMemory.TotalIsRoundedUp | client/src/secure_memory.c:29-30 | the 64-bit mask computes the arithmetic round-up to pages |
| SecureMemory.BlockBetweenGuardsExactly | client/src/secure_memory.c:29-54 | the user block ends before the upper guard page iff the size arithmetic does not wrap |
| SecureMemory.WrappedAsksForLittle | client/src/secure_memory.c:29-32 | when it wraps, at most three pages are asked for |
| SecureHeap.HeaderReadsBack | client/src/secure_memory.c:48-53 | all five header fields, stored byte by byte, are read back at their own offsets |
| SecureHeap.AllocateKeepsValid | client/src/secure_memory.c:22-62 | allocating returns the address 4136 bytes into the mapping, or NULL and no change, and keeps the mapped memory the disjoint union of the live blocks, all headers intact |
| SecureHeap.FormattedContents | client/src/secure_memory.c:121-149 | a new block holds its level's pattern in every byte, and the slack behind it is zero |
| SecureHeap.InitialBytes | client/src/secure_memory.c:121-149 | that pattern for every level: 0xAA, the index combined with 0x42, or zeros |
| SecureHeap.StoreReadsBack | client/src/secure_memory.c:22-62 | a byte written in a block is read back, and no other byte of the memory changes |
| SecureHeap.Allocator.Initialize | client/src/secure_memory.c:121-149 | the pattern loop of the maximum level and the memsets of the others fill exactly the block |
| SecureHeap.FreeUnmapsExactly | client/src/secure_memory.c:64-88 | freeing unmaps exactly the region mapped for that block and changes nothing else |
| SecureHeap.DamagedHeaderKept | client/src/secure_memory.c:73-76 | a block whose magic number or canary was overwritten is not unmapped |
| SecureHeap.FreeKeepsValid | client/src/secure_memory.c:64-88 | freeing keeps the union invariant |
| SecureHeap.FreeUndoesAllocate | client/src/secure_memory.c:22-88 | allocating and freeing at once restores the heap byte for byte |
| SecureHeap.WipeKeepsHeaders | client/src/secure_memory.c:91-118 | wiping any part of a live block zeroes exactly that part and spoils no header |
| SecureHeap.MappedIsUnionOfLiveBlocks | client/src/secure_memory.c:22-88 | after every run an address is mapped iff exactly one live block's region holds it |
| SecureHeap.RunsKeepOtherBlocks | client/src/secure_memory.c:22-118 | no run of other allocations, writes, wipes and frees moves, resizes, unmaps or alters a held block |
| SecureHeap.Allocator.AllocateBlock | client/src/secure_memory.c:22-62 | pointer and new heap equal the specification function; zero sizes and failed mappings give NULL, wrapped sizes included |
| SecureHeap.Allocator.Wipe | client/src/secure_memory.c:91-118 | four passes end with zeros in the block and nothing else changed; NULL and empty blocks are refused |
| SecureHeap.Allocator.FreeBlock | client/src/secure_memory.c:64-88 | NULL and damaged headers change nothing, otherwise the named region is wiped and unmapped |

## Left out

- The handlers of `chat_protocol.c` and `client_session.c` are transitions over the shared state, one per critical section, not methods: what matters about them is how they interleave.
- Byte-stream fragmentation: one frame per `recv` is assumed in the wire and handshake models.
- `sscanf("%02x")` on text that is not two hex digits is a parameter of the parser; no theorem depends on it.
- Clocks, `rand`, user id generation and key generation are inputs; `FreshId` is an assumption only where a theorem says "fresh ids".
- The unlocked copy of the static id buffer is one step; that the copier could see a half-written id is not modelled.
- Nicknames, sockets and addresses inside client sessions, the texts of chat lines and announcements, the creation time of a room, `/nick`, `/users`, `/help` and the welcome texts.
- `/e2emsg:` over the wire: such a frame exceeds the 2048-byte link buffer, so the message theorems are about encryption and decryption themselves.
- E2E.Context.DecryptMessage: an authentic packet whose length is 0 or above 1024 is not modelled, because the decryptor then reads and writes outside its buffers.
- Bytes written to the caller's buffer by a failed decryption.
- The key broadcast inside connect, which runs before the connected flag is set and therefore always refuses; the pipeline starts from a connected client.
- `vsnprintf` encoding errors and messages of 2^31 bytes or more in the log writer.
- Page protection itself: guard pages are address ranges here, and a failed `mprotect` or `mlock` only logs.
- SecureHeap.Allocator.AllocateBlock: a wrapped size whose mapping succeeds is not modelled, because the header or the fill then leaves the mapping.
- `client_manager_broadcast_user_list`, whose concatenation has no bound of its own, and `room_manager_get_room_users`.
- Shutdown by thread cancellation, signal handling, debugger detection, hardware capabilities and entropy estimates.

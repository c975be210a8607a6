# FreeRTOS IoT reference firmware: verified core

This project models the parts of the firmware that hold real logic of their own, and proves
what they are relied on for. Libraries below the firmware (littlefs, mbedTLS, PSA, PKCS#11,
lwIP, coreMQTT, coreJSON, the FreeRTOS kernel) appear only as specified or nondeterministic
steps; tasks appear as atomic steps at their lock boundaries.

`dafny verify dfyconfig.toml` checks everything.

| file | subject |
|---|---|
| `Basics.dfy` | types that several files share |
| `LfsCrc.dfy` | the nibble-table CRC-32 of littlefs and what it detects |
| `KvFormat.dfy`, `KvSpec.dfy`, `KvCache.dfy`, `KvStore.dfy` | the key-value store: files, two-map specification, RAM cache, typed front end |
| `MqttTables.dfy`, `MqttSubscriptions.dfy` | the MQTT subscription and callback tables: compaction, fan-out, lock regions |
| `CommandPool.dfy` | the pool of agent commands and the message queue |
| `Reconnect.dfy` | the reconnect loop of the agent task |
| `TlsTransport.dfy`, `CaChain.dfy` | socket ownership of the TLS transport, construction of the CA chain |
| `Base64.dfy`, `LineEditor.dfy`, `Pem.dfy` | PEM printing and reading through the console's line editor |
| `Spki.dfy` | SubjectPublicKeyInfo written backwards, and the PKCS#11 export |
| `CliTokens.dfy` | the command-line tokenizer |
| `BitTricks.dfy` | the portable integer helpers of littlefs |
| `Shadow.dfy` | the delta handler of the shadow demo |

How the pieces are built:

- Code that changes things in place is a class or a method with loops, and is proved against a
  function or relation on the old state; laws are then proved about that function or relation.
- What memory, file system, network and broker answer is an input of the operation, so that its
  contract can say exactly when it succeeds, fails or halts.
- Whole-run results (`AnyRun`, `AnyCalls`, `AnyInterleaving`, `Run`) are methods that call the
  modelled operations in any order, with any arguments and any such answers. Runs that go wrong
  (`CommittedThenLost`, `DanglingRun` and the like) are methods over the same operations.
- A failing `configASSERT` is either proved impossible (the assertion stands in the method body
  with its source line) or is a result of the operation (`halted`).

## Where the code does less than expected

These came out of the proofs. Each is stated for all inputs, with the exact condition.

- A CRC collision inside 33 consecutive bits exists exactly for the generator polynomial
  (`LfsCrc.BurstOf33`).
- `KVStore_getUBase` tests the signed type, so it fails for every key that `KVStore_setUBase`
  accepts (`KvStore.ScalarRoundTrip`).
- A heap value overwritten by one of at most four bytes loses its block; so does a block left by
  a failed read at start-up; nothing else leaks (`KvCache.Store.WriteEntry`, `KvCache.Store.Boot`).
- The results of `lfs_file_sync` and `lfs_file_close` are ignored. So a commit that returns true is
  durable if and only if they worked for every file written, except where an old file was left that
  held the value already (`KvCache.ReportedDurableIff`); any pending value of any store can be lost
  this way (`KvCache.Store.ReportedLoss`, and a complete run in `KvCache.ReportedThenLost`).
- The pending flag is never cleared. This makes retry after a failed commit sound, but until the
  next reboot a later commit can destroy a file that was committed before; this is the only way a
  value that is not set again can be lost (`KvSpec.DurableIff`, `KvCache.CommittedThenLost`).
- A file shorter than its header makes every start-up halt, because the length computed from its
  size wraps around. A write cut inside the header leaves one, and so does a reported success on a
  new key whose close failed (`KvCache.HaltsIff`, `KvCache.StubHalts`, `KvCache.StubLeft`).
- A short read of a default longer than four bytes delivers bytes of the pointer to it
  (`KvStore.DefaultBytes`).
- `KVStore_getString` writes in front of a buffer of no bytes (`KvStore.Front.GetString`).
- Compaction of the subscription table keeps delivery if and only if no callback refers to an
  empty slot inside the packed part (`MqttTables.SubCompactionKeepsDelivery`).
- The first of two tasks that unsubscribe from a shared filter is told that there was nothing to
  remove and its entry stays; the second clears the slot. The callback left behind then gets the
  messages of whatever a compaction puts there (`MqttSubscriptions.DanglingRun`,
  `MqttSubscriptions.MisdeliveringRun`).
- A subscribe can succeed on a slot that is and stays empty: exactly if a second empty slot is
  chosen whose acknowledgement is not a failure and whose quality of service the request does not
  change (`MqttSubscriptions.Manager.SubscribeRegion`); `MqttSubscriptions.EmptySlotRun` gets there.
- The reset of the acknowledgements after a lost connection fills them byte by byte, so they are
  failures only if the type is one byte wide. With wider ones such a subscribe succeeds on an empty
  slot after any reconnect (`MqttSubscriptions.ReconnectThenSubscribe`).
- `Agent_ReleaseCommand` lets the address just behind the pool through
  (`CommandPool.Commands.ReleaseCommand`).
- Two sends can share one notification, so the second command waits for the next one
  (`CommandPool.Commands.SecondCommandWaits`).
- A failing `mbedtls_transport_connect` on a connected context leaves it marked as connected
  without a socket, and with refused arguments it resets a session through a NULL pointer
  (`TlsTransport.Context.Connect`).
- `mbedtls_transport_setrecvcallback` with a NULL callback replaces the notify context before it
  refuses, so that a running notify task can no longer be stopped
  (`TlsTransport.Context.SetRecvCallback`).
- If the broker still has a resumed session, the agent keeps the subscription mutex, and the first
  publish blocks it for ever (`Reconnect.Agent.Pass`).
- `xReadPublicKeyFromPSACrypto` passes byte counts to the error translation, which looks at their
  low seven bits: of the curves with short identifiers exactly those of even length get through, and
  P-384 keys are always refused (`Spki.ReadPublicKey`, `Spki.CurveLengths`, `Spki.P384Refused`).
- After a failed export `xReadPublicKeyFromPSACrypto` writes one byte in front of its buffer
  (`Spki.ReadPublicKey`).
- The reader of PEM text reserves room for the footer in the DER buffer (`Pem.PemRoundTrip`).
- It decodes a line also after refusing it, so the assertion at line 675 of `cli_pki.c` fails if a
  refused line fills the buffer to the last byte; the printed text of any object of 2048 bytes does
  that (`Pem.ReadPem`, `Pem.LabelRoundTrip`).
- The status of the CA chain follows the last certificate, even when earlier ones were accepted
  (`CaChain.ConfigureCAChain`).
- `FreeRTOS_CLIGetParameter` counts from the first word if the line begins with a space
  (`CliTokens.GetParameter`).
- `lfs_alignup` is right if and only if its inner sum does not wrap around
  (`BitTricks.AlignUpIs`); `lfs_npw2` gives 1 at 1 (`BitTricks.Npw2`).
- The arrival order of deltas matters if and only if the newest carries no power state and some
  other asks for a change (`Shadow.OrderFreeIff`).

## Model

| member | source | states |
|---|---|---|
| `LfsCrc.Crc` | source/fs/lfs_port_prv.c:60-81 | for every start value and buffer, the table loop computes the bit-at-a-time reflected CRC-32 |
| `LfsCrc.TableEntry` | source/fs/lfs_port_prv.c:64-70 | every table word is its index shifted four times through the register |
| `LfsCrc.NibbleStepIsFourShifts` | source/fs/lfs_port_prv.c:64-78 | one table look-up does the work of four single-bit steps |
| `LfsCrc.ByteStepIsEightBits` | source/fs/lfs_port_prv.c:74-78 | the two statements of the loop body feed the eight bits of a byte, lowest first |
| `LfsCrc.CrcComposes` | source/fs/lfs_port_prv.c:60-81 | feeding a buffer in two pieces gives the CRC of the whole |
| `LfsCrc.CrcLinear` | source/fs/lfs_port_prv.c:60-81 | the CRC of an xor is the xor of the CRCs, for equal lengths and any start values |
| `LfsCrc.CrcBitsInjectiveInState` | source/fs/lfs_port_prv.c:60-81 | the same data never maps two states to one |
| `LfsCrc.CrcBitsIsPackedShift` | source/fs/lfs_port_prv.c:60-81 | up to 32 bits act like one packed word added before as many shifts |
| `LfsCrc.BurstShows` | source/fs/lfs_port_prv.c:60-81 | a change confined to 32 consecutive bits of a stream of any length always changes the CRC |
| `LfsCrc.FourByteWindowShows` | source/fs/lfs_port_prv.c:60-81 | buffers that differ only inside four consecutive bytes have equal CRCs if and only if they are equal |
| `LfsCrc.BurstOf33` | source/fs/lfs_port_prv.c:60-81 | a change within 33 consecutive bits goes unseen if and only if it is the generator polynomial |
| `LfsCrc.PackGenerator` | source/fs/lfs_port_prv.c:64-70 | the constant of the shift register is the bit-reversed CRC-32 generator |
| `KvFormat.DecodeEncode` | source/kvstore/kvstore_nv_littlefs.c:102-180 | a completely written file reads back as the type and bytes written |
| `KvFormat.EncodeDecode` | source/kvstore/kvstore_nv_littlefs.c:102-180 | a file that reads back is exactly the encoding of its value |
| `KvFormat.CutShortDecodesToNone` | source/kvstore/kvstore_nv_littlefs.c:190-262 | no file that was cut short reads back as a value |
| `KvFormat.WrittenHeader` | source/kvstore/kvstore_nv_littlefs.c:102-180 | the header of a whole or cut file names a type and never fewer bytes than follow |
| `KvFormat.FileLayout` | source/kvstore/kvstore_nv_littlefs.c:40-44 | the bytes of a file one by one: type number, length with its lowest byte first, value |
| `KvSpec.SyncedThroughout` | source/kvstore/kvstore_cache.c:137-309 | over every run of sets, commits with any reported and unreported failures, and reboots, a key without pending change is equal in cache and file |
| `KvSpec.CommittedSurvivesReboot` | source/kvstore/kvstore_cache.c:292-309 | after any history, a commit and a reboot change no answer if and only if each pending value was stored, or its old file stayed and held it already |
| `KvSpec.PendingUntilReboot` | source/kvstore/kvstore_cache.c:292-309 | the flag of a key that is not set again lasts exactly until the next reboot |
| `KvSpec.DurableIff` | source/kvstore/kvstore_cache.c:292-309 | for every run that does not set the key again, its value is in its file throughout if and only if the key is not pending or no commit before the next reboot destroys the file |
| `KvSpec.LiveIsLastSet` | source/kvstore/kvstore_cache.c:195-290 | in every run a read returns the last value set since the last reboot, whatever commits did |
| `KvCache.Store.AllocateDataBuffer` | source/kvstore/kvstore_cache.c:88-101 | inline zeroes up to pointer size, above it a new block of the requested size, or NULL exactly if it cannot be had; other entries and blocks stay |
| `KvCache.Store.ClearDataBuffer` | source/kvstore/kvstore_cache.c:103-117 | exactly the entry's own block is given back |
| `KvCache.Store.ReallocDataBuffer` | source/kvstore/kvstore_cache.c:119-132 | growing gives a fresh buffer and frees the old block, shrinking keeps the buffer; no other block changes |
| `KvCache.Store.CopyIn` | source/kvstore/kvstore_cache.c:51-66 | the bytes land in the block or over the union, as the length says, and nowhere else |
| `KvCache.Store.PrepareEntry` | source/kvstore/kvstore_cache.c:195-235 | the entry can hold the new value, and is pending unless type, length and bytes are unchanged |
| `KvCache.Store.WriteEntry` | source/kvstore/kvstore_cache.c:195-248 | halts if and only if a block is needed and cannot be had; otherwise the representation stays sound, the write is a set of the two-map store, and the blocks lost are exactly those of a heap value shrunk to inline size or left untyped |
| `KvCache.SetRefines` | source/kvstore/kvstore_cache.c:195-248 | replacing one sound entry changes exactly that key of the two-map store |
| `KvCache.LeakAccount` | source/kvstore/kvstore_cache.c:119-132 | which blocks are unreachable after an entry was replaced |
| `KvCache.Store.CopyValue` | source/kvstore/kvstore_cache.c:251-290 | a read gives the value or its longest fitting prefix, always with its full length, and leaves the rest of the buffer |
| `KvCache.Store.WriteValue` | source/kvstore/kvstore_nv_littlefs.c:190-262 | for all answers of open, write, sync, close and remove: what is returned and what the file then holds; only that key's file changes |
| `KvCache.Store.WritePending` | source/kvstore/kvstore_cache.c:297-306 | the loop writes every pending key whatever happens to the others, and reports exactly whether all writes succeeded |
| `KvCache.FileEffect` | source/kvstore/kvstore_nv_littlefs.c:190-262 | for all answers, what can be read back after one write: the new value, the old one or none, exactly as the outcome says |
| `KvCache.AnswerFor` | source/kvstore/kvstore_nv_littlefs.c:190-262 | every outcome of a write in the two-map store comes from some answers |
| `KvCache.OperationFor` | source/kvstore/kvstore_cache.c:137-309 | every event of the two-map store is the event of some operation |
| `KvCache.ReportedDurableIff` | source/kvstore/kvstore_nv_littlefs.c:248-261 | a commit that returned true survives a reboot if and only if sync and close worked for every file written, or left an old file that held the value |
| `KvCache.StubHalts` | source/kvstore/kvstore_nv_littlefs.c:84-100 | a file shorter than a header halts start-up exactly if it can be seen at all |
| `KvCache.StubLeft` | source/kvstore/kvstore_nv_littlefs.c:212-258 | a write cut inside the header, and a reported success on a new key whose close failed, leave such a file |
| `KvCache.HaltsIff` | source/kvstore/kvstore_cache.c:137-163 | with memory and a readable file, start-up halts if and only if the file claims too long a value or is shorter than a header |
| `KvCache.WholeFileHalts` | source/kvstore/kvstore_cache.c:137-163 | a completely written file halts start-up exactly if its value is too big |
| `KvCache.WellBootHalts` | source/kvstore/kvstore_cache.c:137-309 | if all writes and reads go well, the start-up after a commit halts if and only if some value is too big or a key without value has a file that halts it |
| `KvCache.RecommittedEffect` | source/kvstore/kvstore_cache.c:292-309 | what can be read back from the files that a commit leaves is what the two-map store says |
| `KvCache.Store.Commit` | source/kvstore/kvstore_cache.c:292-309 | the commit of the two-map store for all answers: every pending key is written whatever happens to the others, flags stay, and true is returned exactly if every write reported success |
| `KvCache.Store.ReadValue` | source/kvstore/kvstore_nv_littlefs.c:102-180 | an entry gets the file's value or stays without one; it halts exactly on a header, once read, whose length reaches the limit |
| `KvCache.Store.LoadEntry` | source/kvstore/kvstore_cache.c:137-163 | one pass of start-up: exactly when it halts; otherwise the key's live value becomes that of its file, other keys keep theirs |
| `KvCache.Store.LoadAll` | source/kvstore/kvstore_cache.c:141-161 | the loop of start-up: exactly when it halts, what every entry then holds, and that entries without a file stay blank |
| `KvCache.Store.Boot` | source/kvstore/kvstore_cache.c:137-163 | the reboot of the two-map store; it halts if and only if some file makes it, and it leaks nothing |
| `KvCache.Store.AnyRun` | source/kvstore/kvstore_cache.c:137-309 | any operations with any answers end in exactly the state and the files of the two-map run, unless one halts; one does if and only if, on the state and files reached before it, its halting condition holds; cache and files stay in step |
| `KvCache.Store.Do` | source/kvstore/kvstore_cache.c:137-309 | one operation: when it halts, the new state and the new files |
| `KvCache.Store.ReportedLoss` | source/kvstore/kvstore_nv_littlefs.c:248-261 | for every store and pending key, a commit returns true though sync and close left only some bytes: the value is gone, or start-up halts, as it must if the header is cut |
| `KvCache.CommittedThenLost` | source/kvstore/kvstore_nv_littlefs.c:236-258 | set, commit, a second commit that fails while writing, reboot: the value is gone, for every short value and every failing point |
| `KvCache.ReportedThenLost` | source/kvstore/kvstore_nv_littlefs.c:248-261 | a commit returns true though sync and close left only some bytes: the value is gone, and start-up halts exactly if the header is cut |
| `KvStore.ScalarRoundTrip` | source/kvstore/kvstore.c:137-437 | for all states and words, set then get returns the word for UInt32, Int32 and Base, and always fails for UBase |
| `KvStore.ScalarDefault` | source/kvstore/kvstore.c:341-437 | a scalar never set reads as its default |
| `KvStore.ScalarTypes` | source/kvstore/kvstore.c:341-437 | which keys each getter reads: its own type, and for UBase those of Base, as these |
| `KvStore.DefaultBytes` | source/kvstore/kvstore.c:60-78 | a read of a default delivers up to four bytes from the union itself, more from what it points to |
| `KvStore.StringRoundTrip` | source/kvstore/kvstore.c:122-305 | a string just set reads back, cut to leave room for the terminator, with its full length reported |
| `KvStore.Front.ReadEntryOrDefault` | source/kvstore/kvstore.c:46-81 | the stored value if there is one, else the default, cut to the buffer, with the full length |
| `KvStore.Front.SetScalar` | source/kvstore/kvstore.c:137-188 | accepted exactly for keys declared with that type, and then a set of the two-map store |
| `KvStore.Front.GetScalar` | source/kvstore/kvstore.c:341-437 | the word and success flag for every key, including undeclared ones |
| `KvStore.Front.SetString` | source/kvstore/kvstore.c:122-135 | accepted exactly for string keys, with the terminator stored; halts exactly without the block it needs |
| `KvStore.Front.SetBlob` | source/kvstore/kvstore.c:107-120 | accepted exactly for blob keys and non-empty data; halts exactly without the block it needs |
| `KvStore.Front.GetBlob` | source/kvstore/kvstore.c:214-230 | stored or default bytes cut to the buffer; nothing is written for other keys |
| `KvStore.Front.GetString` | source/kvstore/kvstore.c:278-305 | stored or default bytes with a terminator at the end of the buffer, and the length without terminator; a buffer of no bytes is overrun |
| `KvStore.Front.GetSize` | source/kvstore/kvstore.c:190-212 | the length of the stored value, of an unread one, or of the default when nothing is cached |
| `KvStore.Front.RebootThenSize` | source/kvstore/kvstore.c:190-212 | after a reboot the size of a key without a file is that of its default |
| `KvStore.Front.GetStringHeap` | source/kvstore/kvstore.c:307-339 | for every key: exactly when a copy comes back, what it holds, and the length reported, which wraps around on failure |
| `KvStore.Front.CommitAndReboot` | source/kvstore/kvstore_cache.c:137-309 | for all answers: exactly when start-up halts, and otherwise which keys answer as before, as an if-and-only-if |
| `KvStore.Front.WellCommitAndReboot` | source/kvstore/kvstore_cache.c:137-309 | if all goes well the commit returns true and every key answers as before the reboot, which halts exactly if some key cannot be loaded |
| `KvStore.Front.StringSurvivesReboot` | source/kvstore/kvstore.c:122-305 | set, commit, reboot and get with any failures: exactly when it halts; otherwise the text reads back if its own file was written and read well |
| `KvStore.Front.StringSurvives` | source/kvstore/kvstore.c:122-305 | if all goes well, every text below the limits reads back after the reboot, provided no other key halts start-up |
| `KvStore.Front.ScalarSurvivesReboot` | source/kvstore/kvstore.c:137-413 | the same for the scalar types whose getter works |
| `KvStore.Front.ScalarSurvives` | source/kvstore/kvstore.c:137-413 | if all goes well, every scalar reads back after the reboot, provided no other key halts start-up |
| `MqttTables.CompressCallbackList` | source/mqtt_agent/mqtt_agent_task.c:408-467 | in place, the table becomes its used entries in order followed by free ones, and the count is exact |
| `MqttTables.UpdateCallbackRefs` | source/mqtt_agent/mqtt_agent_task.c:326-343 | exactly the references to the old slot move to the new one |
| `MqttTables.CompressSubscriptionList` | source/mqtt_agent/mqtt_agent_task.c:347-404 | in place, the table becomes its used slots in order followed by empty ones, with exact count, and each callback follows its subscription |
| `MqttTables.IncomingPublish` | source/mqtt_agent/mqtt_agent_task.c:683-715 | there is a strictly increasing list of exactly the entries that point at a subscription with a matching filter, and function and context of each of them are invoked once, in that order |
| `MqttTables.DeliveredTo` | source/mqtt_agent/mqtt_agent_task.c:683-715 | a callback on a matching subscription is among those invoked |
| `MqttTables.CallbackCompactionKeepsDelivery` | source/mqtt_agent/mqtt_agent_task.c:408-467 | packing the callback table changes no sequence of invocations, for any match predicate |
| `MqttTables.CompactedDelivers` | source/mqtt_agent/mqtt_agent_task.c:347-404 | what packing the subscription table means for each single callback |
| `MqttTables.SubCompactionKeepsDelivery` | source/mqtt_agent/mqtt_agent_task.c:347-404 | packing the subscription table keeps every sequence of invocations, for every match predicate, if and only if no callback refers to an empty slot inside the packed part |
| `MqttSubscriptions.CountUpdate` | source/mqtt_agent/mqtt_agent_task.c:1492-1540 | how changing one entry changes the number of used ones |
| `MqttSubscriptions.CountPackedTable` | source/mqtt_agent/mqtt_agent_task.c:408-467 | a packed table has as many used entries as before and as its packed part is long |
| `MqttSubscriptions.UseCallback` | source/mqtt_agent/mqtt_agent_task.c:1523-1540 | registering on a free entry keeps the bookkeeping with one more callback |
| `MqttSubscriptions.FreeCallback` | source/mqtt_agent/mqtt_agent_task.c:1745-1757 | clearing a used entry keeps it with one callback less, and the count was positive |
| `MqttSubscriptions.ChangeSub` | source/mqtt_agent/mqtt_agent_task.c:1492-1521 | filling or clearing a slot keeps it with the count adjusted |
| `MqttSubscriptions.PackCallbacks` | source/mqtt_agent/mqtt_agent_task.c:408-467 | so does packing the callbacks, with an unchanged count |
| `MqttSubscriptions.PackSubs` | source/mqtt_agent/mqtt_agent_task.c:347-404 | and packing the subscriptions |
| `MqttSubscriptions.ChosenUnique` | source/mqtt_agent/mqtt_agent_task.c:1428-1463 | the slot that the subscribe search picks is determined by table and topic |
| `MqttSubscriptions.LookupsAre` | source/mqtt_agent/mqtt_agent_task.c:1445-1727 | on a table in order, the lookup of a subscribe accepts exactly an empty slot or a filter that is a prefix of the topic, and that of an unsubscribe exactly the topic itself |
| `MqttSubscriptions.ChosenText` | source/mqtt_agent/mqtt_agent_task.c:1428-1463 | so for the slot that a subscribe chooses and for a table without one |
| `MqttSubscriptions.EqualLengthsApart` | source/mqtt_agent/mqtt_agent_task.c:1445-1445 | a slot that holds one topic is never chosen for another of the same length |
| `MqttSubscriptions.SharedSlot` | source/mqtt_agent/mqtt_agent_task.c:1445-1445 | two topics can share a slot exactly if its filter is a prefix of both, as "a" is of "ab" and "ac" |
| `MqttSubscriptions.SlotAfterIs` | source/mqtt_agent/mqtt_agent_task.c:1446-1521 | after a subscribe the slot is empty or its filter is a prefix of the topic, and a differing quality of service became 1 |
| `MqttSubscriptions.ChosenAt` | source/mqtt_agent/mqtt_agent_task.c:1428-1463 | while slot 0 is free, the first later slot that is free or holds a prefix is chosen |
| `MqttSubscriptions.Manager.constructor` | source/mqtt_agent/mqtt_agent_task.c:771-791 | the initial tables satisfy the bookkeeping |
| `MqttSubscriptions.Manager.Reset` | source/mqtt_agent/mqtt_agent_task.c:739-767 | all tables empty, counts zero, bookkeeping kept |
| `MqttSubscriptions.Manager.FindSlot` | source/mqtt_agent/mqtt_agent_task.c:1423-1463 | the first slot with a prefix filter (any second empty slot passes for one) or else the only empty slot, with its new quality of service and acknowledgement; none exactly for a full table without prefix; the check at line 1437 holds |
| `MqttSubscriptions.Manager.FindCallback` | source/mqtt_agent/mqtt_agent_task.c:1465-1490 | an equal entry, or the first free one if there is no equal one; none exactly for a full table |
| `MqttSubscriptions.Manager.FillSlot` | source/mqtt_agent/mqtt_agent_task.c:1492-1521 | an empty slot gets a copy of the topic, or stays empty exactly without memory; other slots stay |
| `MqttSubscriptions.Manager.SubscribeRegion` | source/mqtt_agent/mqtt_agent_task.c:1420-1542 | succeeds if and only if there is a slot, a callback entry and memory for a needed copy, all seen from before the call; the new tables exactly; it ends on a slot that stayed empty or whose filter text is a prefix of the topic; the slot stays empty if and only if it was empty and no copy was needed; bookkeeping kept |
| `MqttSubscriptions.Manager.SubscribeThenPublish` | source/mqtt_agent/mqtt_agent_task.c:683-1542 | after an accepted subscribe, a publish that the slot's filter matches invokes the new callback |
| `MqttSubscriptions.Manager.UnsubscribeFirst` | source/mqtt_agent/mqtt_agent_task.c:1672-1694 | succeeds exactly if the topic itself is stored, and lowers only the reference count of the first slot that holds it |
| `MqttSubscriptions.Manager.RemoveCallback` | source/mqtt_agent/mqtt_agent_task.c:1738-1762 | removes the first equal entry, if any, and packs the rest in order; the check at line 1753 holds |
| `MqttSubscriptions.Manager.UnsubscribeSecond` | source/mqtt_agent/mqtt_agent_task.c:1715-1786 | for any status and count carried over: succeeds if and only if a slot with this very topic and zero count exists and the caller's entry refers to it; then removes the entry and, at the last one, the subscription, and touches no slot with another topic; index MAX is never used and the check at line 1776 holds |
| `MqttSubscriptions.Manager.CompactSubscriptions` | source/mqtt_agent/mqtt_agent_task.c:587-598 | compaction with unchanged counts; bookkeeping kept |
| `MqttSubscriptions.Manager.AnyInterleaving` | source/mqtt_agent/mqtt_agent_task.c:739-1786 | for any sequence of regions with any arguments: each returns what it should and leaves subscriptions, callbacks, acknowledgements and reference counts as it should, given the tables left by those before it; at every point counts equal the used entries, a filter is NULL iff its length is 0, free callbacks have no function, references stay in the table |
| `MqttSubscriptions.Manager.Do` | source/mqtt_agent/mqtt_agent_task.c:739-1786 | one region: its status and its effect on all four tables |
| `MqttSubscriptions.Leave` | source/mqtt_agent/mqtt_agent_task.c:1672-1786 | both regions of an unsubscribe in a row: only the last of several tasks removes its entry |
| `MqttSubscriptions.DanglingRun` | source/mqtt_agent/mqtt_agent_task.c:1420-1786 | two tasks subscribe to one filter and leave: a callback is left on an empty slot inside the packed part |
| `MqttSubscriptions.MisdeliveringRun` | source/mqtt_agent/mqtt_agent_task.c:347-1786 | the compaction after that changes what some publish invokes |
| `MqttSubscriptions.EmptySlotRun` | source/mqtt_agent/mqtt_agent_task.c:1337-1786 | one of two tasks on a filter unsubscribes twice while the other still waits for its acknowledgement; after that arrives, a subscribe succeeds on a slot that stays empty |
| `MqttSubscriptions.FilledIsFailure` | source/mqtt_agent/mqtt_agent_task.c:1223-1226 | filling an acknowledgement byte by byte with the failure code makes it a failure if and only if it is one byte wide |
| `MqttSubscriptions.Manager.ClearAcks` | source/mqtt_agent/mqtt_agent_task.c:1223-1226 | all acknowledgements become what the byte-wise fill makes; the bookkeeping is kept |
| `MqttSubscriptions.ReconnectThenSubscribe` | source/mqtt_agent/mqtt_agent_task.c:1223-1542 | after any reconnect, for every width: exactly when a subscribe onto an empty slot succeeds and exactly when the slot then has a filter |
| `CommandPool.Room` | source/mqtt_agent/freertos_command_pool.c:61-123 | by pigeonhole both queues have room while anyone holds a command |
| `CommandPool.TakenOnce` | source/mqtt_agent/freertos_command_pool.c:79-96 | the head of a queue is in no other place |
| `CommandPool.ReleasedConserves` | source/mqtt_agent/freertos_command_pool.c:100-123 | a release by the holder keeps every slot in exactly one place |
| `CommandPool.Commands.InitializePool` | source/mqtt_agent/freertos_command_pool.c:61-75 | the first call puts every slot into the free queue once; later calls change nothing |
| `CommandPool.Commands.GetCommand` | source/mqtt_agent/freertos_command_pool.c:79-96 | a command nobody else has, or NULL exactly if none is free |
| `CommandPool.Commands.ReleaseCommand` | source/mqtt_agent/freertos_command_pool.c:100-123 | exactly which pointers are taken back; one released by its holder always is, and the pool is conserved |
| `CommandPool.Commands.Send` | source/mqtt_agent/mqtt_agent_task.c:486-507 | sending a held command never overflows the queue and appends it |
| `CommandPool.Commands.Receive` | source/mqtt_agent/mqtt_agent_task.c:511-539 | the oldest command, unless a socket event takes priority, which leaves the queue alone |
| `CommandPool.Commands.AnyRun` | source/mqtt_agent/mqtt_agent_task.c:486-539 | any steps of callers that release and send only what they hold do exactly what they say: each slot stays in one place, no send or release fails, and the commands received are a prefix of those sent |
| `CommandPool.Commands.Do` | source/mqtt_agent/mqtt_agent_task.c:486-539 | one step moves exactly the command it names, or the first of a queue |
| `CommandPool.Commands.SecondCommandWaits` | source/mqtt_agent/mqtt_agent_task.c:511-539 | two sends, one notification: the second receive gets nothing though a command is queued |
| `Reconnect.Agent.constructor` | source/mqtt_agent/mqtt_agent_task.c:771-791 | the loop starts with the mutex owned and a clean session wanted |
| `Reconnect.Agent.Resubscribe` | source/mqtt_agent/mqtt_agent_task.c:587-634 | called only with the mutex owned, it always gives it back |
| `Reconnect.Agent.CommandLoop` | source/mqtt_agent/mqtt_agent_task.c:668-715 | runs only with the connected bit set and the transport up; a publish gets the task stuck if and only if it owns the mutex already |
| `Reconnect.Agent.StartSession` | source/mqtt_agent/mqtt_agent_task.c:1131-1184 | when a session is established; it then leaves the mutex with the agent if and only if an earlier session was resumed and the broker still had it |
| `Reconnect.Agent.Pass` | source/mqtt_agent/mqtt_agent_task.c:1077-1248 | gets stuck if and only if an earlier session is resumed, the broker still had it and a publish arrives; otherwise ends with the mutex owned, the connected bit clear, the transport down, and a clean session wanted exactly before the first success |
| `Reconnect.Agent.Run` | source/mqtt_agent/mqtt_agent_task.c:1077-1248 | the head condition holds at every loop head of every run and the tables are reset exactly once; the task gets stuck if and only if it reaches a pass that sticks, and otherwise stops only where an answer makes it |
| `TlsTransport.Context.constructor` | source/crypto/mbedtls_transport.c:462-499 | a new context owns no socket |
| `TlsTransport.Context.ConnectSocket` | source/crypto/mbedtls_transport.c:1065-1225 | success if and only if the name resolves and some address connects before the stack runs out of sockets; then that socket is stored and all others were closed |
| `TlsTransport.Context.Connect` | source/crypto/mbedtls_transport.c:1229-1401 | exactly when it succeeds; success means connected with a socket that is watched if there is a callback; failure closes it and, from a usable context, leaves a usable one if and only if it was not connected; a NULL session is reset exactly for refused arguments |
| `TlsTransport.Context.Configure` | source/crypto/mbedtls_transport.c:830-1063 | exactly when it succeeds; a connection is closed first, whatever the arguments |
| `TlsTransport.Context.Disconnect` | source/crypto/mbedtls_transport.c:1544-1597 | no socket open, no watcher, not connected |
| `TlsTransport.Context.Transfer` | source/crypto/mbedtls_transport.c:1601-1728 | the result for every answer: the bytes, 0 for a retry, -1 for a closed or reset connection, the error itself otherwise; it is negative if and only if the context was connected and the answer is an error or a close; only a close gives up the socket |
| `TlsTransport.Context.SetRecvCallback` | source/crypto/mbedtls_transport.c:1458-1515 | exactly when it succeeds; on a connected context the watcher then watches the stored handle, even one that is not valid; and exactly when a running task is orphaned |
| `TlsTransport.Context.Free` | source/crypto/mbedtls_transport.c:503-542 | nothing stays open or watched |
| `TlsTransport.Context.AnyCalls` | source/crypto/mbedtls_transport.c:830-1728 | any calls with any answers do exactly what they say, and the open sockets are always exactly the stored handle; a sound context stays so if no call spoils it |
| `TlsTransport.SoundStep` | source/crypto/mbedtls_transport.c:830-1728 | exactly two calls spoil a context: a connect that fails on a connected one, and a NULL callback while a notify task runs |
| `TlsTransport.SoundThroughout` | source/crypto/mbedtls_transport.c:830-1728 | over every run, connected implies a socket and no task watches a closed one, at every point, if and only if no call spoils the context |
| `TlsTransport.CallbackLasts` | source/crypto/mbedtls_transport.c:1458-1515 | a callback that was set stays set through every run without a NULL callback |
| `TlsTransport.CallbackThenConnect` | source/crypto/mbedtls_transport.c:1383-1515 | so whatever happens in between, a connect that succeeds has its socket watched |
| `TlsTransport.Context.AnyRun` | source/crypto/mbedtls_transport.c:462-1728 | a whole life of a context leaks no socket; each close is of an open socket |
| `CaChain.Append` | source/crypto/mbedtls_transport.c:721-827 | the chain grows by one node at its end, in order |
| `CaChain.LoadChain` | source/crypto/mbedtls_transport.c:738-815 | the loop: where it stops, the last error, the chain and the fate of every heap node |
| `CaChain.ConfigureCAChain` | source/crypto/mbedtls_transport.c:721-827 | for all answers: processing stops exactly at the first allocation failure; the chain holds, in order and linked, exactly the certificates before it whose read error and profile flags are both 0; each heap node is linked once or freed once; success, lack of memory and lack of a valid certificate each if and only if read errors, flags and memory say so |
| `Base64.DecodeEncode` | source/cli/cli_pki.c:118-169 | decoding inverts encoding for every byte string |
| `Base64.DecodedLength` | source/cli/cli_pki.c:660-684 | a decoded line has at most three bytes for every four characters, so it cannot overrun the buffer |
| `Base64.SymbolIs` | source/cli/cli_pki.c:144-150 | the alphabet of Table 1 of RFC 4648 |
| `Base64.GroupIs` | source/cli/cli_pki.c:144-150 | three bytes become the four digits to base 64 of the same number |
| `Base64.PaddedIs` | source/cli/cli_pki.c:144-150 | one or two bytes become a group filled up with zero bits, with padding |
| `Pem.EncodeInto` | source/cli/cli_pki.c:144-150 | the text fits if and only if it leaves room for a terminator |
| `Pem.PrintLine` | source/cli/cli_pki.c:133-157 | one data line with its line end, within the line buffer |
| `Pem.PrintDer` | source/cli/cli_pki.c:121-169 | header, the data lines in order and footer, for every DER string |
| `Pem.DataLineLengths` | source/cli/cli_pki.c:118-169 | all data lines but the last have 64 characters, and their number follows from the length |
| `Pem.ReadPem` | source/cli/cli_pki.c:567-709 | with any decoder that inverts the encoder within its room, writes at most three bytes for four characters and takes no text that starts with a hyphen, the in-place reader computes the line-by-line specification for every input; the check at line 675 fails exactly if a refused line, which is decoded all the same, fills the buffer |
| `Pem.HeaderNeeded` | source/cli/cli_pki.c:614-638 | the reader goes on exactly if the first line has at most 64 characters, begins with the words of section 3 of RFC 7468 and has five hyphens behind them |
| `Pem.FooterEnds` | source/cli/cli_pki.c:639-658 | a line with the closing words ends the reading, well exactly if five hyphens follow |
| `Pem.StrictDecoder` | source/cli/cli_pki.c:664-672 | the strict decoder of section 4 of RFC 4648, limited to its room, is such a decoder |
| `Pem.ReadDataLines` | source/cli/cli_pki.c:600-690 | from any point reached, the remaining lines read back, halt the reader or are refused, by one condition on the lengths |
| `Pem.PemRoundTrip` | source/cli/cli_pki.c:567-709 | printed text reads back as the same DER if and only if DER and footer stay below the buffer size; an object of exactly the buffer size halts the reader, all other longer ones are refused, none is cut |
| `Pem.ConsoleRoundTrip` | source/cli/cli_pki.c:118-709 | the same when the printed characters pass through the line editor |
| `Pem.LabelRoundTrip` | source/cli/cli_pki.c:118-709 | the same for text printed under any label of at most 48 characters: the exact size limit, and the halt at 2048 bytes |
| `LineEditor.ReadLine` | source/logging/cli_uart_drv.c:340-447 | for every stream the in-place loop computes the editor fold; a positive result is below 128, terminated and holds no line feed, carriage return, NUL, backspace, DEL or ctrl-C; no write leaves the buffer |
| `LineEditor.EditedLine` | source/logging/cli_uart_drv.c:340-447 | a finished line is never empty, fits, and holds no character the editor acts on |
| `LineEditor.EditPlain` | source/logging/cli_uart_drv.c:340-447 | plain characters are taken as they come |
| `LineEditor.EraseUndoes` | source/logging/cli_uart_drv.c:393-417 | a character typed and erased, with backspace or with DEL, leaves no trace |
| `LineEditor.EraseOnEmpty` | source/logging/cli_uart_drv.c:393-417 | on an empty line there is nothing to erase |
| `LineEditor.EndCharacters` | source/logging/cli_uart_drv.c:371-392 | line feed, carriage return and NUL each end a line that is not empty and are skipped on one that is |
| `LineEditor.PlainIs` | source/logging/cli_uart_drv.c:371-430 | all other characters are stored |
| `LineEditor.InterruptClears` | source/logging/cli_uart_drv.c:340-447 | ctrl-C forgets the line so far |
| `LineEditor.LinesOfJoined` | source/logging/cli_uart_drv.c:340-447 | text with CR LF line ends comes back line by line |
| `Spki.ReadTlvOf` | source/crypto/pki/PkiObjectPsa.c:140-349 | a tag-length-value encoding after section 8.1 of X.690 parses back, whatever follows it |
| `Spki.LengthOctetsAre` | source/crypto/pki/PkiObjectPsa.c:171-186 | length octets after section 8.1.3 of X.690: short form below 128, else their number and the length, highest octet first, without leading zeros |
| `Spki.IdentifiersAre` | source/crypto/pki/psa_util.c:76-179 | the object identifiers of the algorithms and curves, arc by arc |
| `Spki.RsaIdentifier` | source/crypto/pki/PkiObjectPsa.c:258-303 | the identifier of every RSA key, octet by octet |
| `Spki.WriteKeyBits` | source/crypto/pki/PkiObjectPsa.c:156-203 | the end of the buffer is the BIT STRING of the key, written backwards; write position is buffer end minus bytes written |
| `Spki.WriteAlgorithm` | source/crypto/pki/PkiObjectPsa.c:214-303 | the AlgorithmIdentifier in front of it; exactly when it is refused |
| `Spki.CloseSequence` | source/crypto/pki/PkiObjectPsa.c:305-349 | length and tag of the outer SEQUENCE; refused only without room |
| `Spki.ReadPublicKey` | source/crypto/pki/PkiObjectPsa.c:66-369 | delivers the SubjectPublicKeyInfo of section 2 of RFC 5480 if and only if the key is exported, its curve has an identifier, it fits and no byte count is mistaken for an error code; for every supported key type one byte is written in front of the buffer if and only if the buffer was allocated and the export failed |
| `Spki.ParsePublicKeyInfo` | source/crypto/pki/PkiObjectPsa.c:140-349 | the result parses back to algorithm, parameters and key |
| `Spki.KeyIsSuffix` | source/crypto/pki/PkiObjectPsa.c:770-781 | its last bytes are the raw key, as the key-pair generator assumes |
| `Spki.P256AndRsaDelivered` | source/crypto/pki/psa_util.c:333-560 | every P-256 and RSA key that fits is delivered |
| `Spki.CountsTakenForErrors` | source/crypto/pki/psa_util.c:333-560 | which byte counts below 128 the error translation takes for an error |
| `Spki.CurveLengths` | source/crypto/pki/psa_util.c:333-560 | of all curves with identifiers of at most eleven bytes exactly those of even length get through |
| `Spki.FiveByteCurvesRefused` | source/crypto/pki/psa_util.c:333-560 | no key on a curve with a five-byte identifier is |
| `Spki.P384Refused` | source/crypto/pki/psa_util.c:333-560 | in particular no P-384 key |
| `Spki.ExportPublicKey` | source/crypto/pki/PkiObjectPkcs11.c:87-139 | the fixed header, the point and one zero byte |
| `Spki.ExportsAgree` | source/crypto/pki/PkiObjectPkcs11.c:87-139 | for every 65-byte point its first 91 bytes equal the PSA export |
| `CliTokens.CountIsWords` | source/cli/cli_main.c:311-335 | as many words end as begin |
| `CliTokens.GetNumberOfArgs` | source/cli/cli_main.c:311-335 | the argument count is the number of words of the line |
| `CliTokens.MatchesFirstWord` | source/cli/cli_main.c:129-151 | a command matches exactly the lines that begin with it as their first word |
| `CliTokens.FindMatchingCommand` | source/cli/cli_main.c:129-151 | the first registered command equal to the first word, none exactly if there is none |
| `CliTokens.StartsTail` | source/cli/cli_main.c:156-194 | where a tokenizer that goes on after a word finds the rest |
| `CliTokens.NextToken` | source/cli/cli_main.c:172-184 | one strtok_r step: the next word is cut out, the text behind it is untouched |
| `CliTokens.SplitLine` | source/cli/cli_main.c:156-194 | the argument vector reads as the words of the line; the checks at lines 180 and 184 hold |
| `CliTokens.ProcessCommand` | source/cli/cli_main.c:156-194 | for every line: the command is the first word, or none and the line stays as it was |
| `CliTokens.GetParameter` | source/cli/cli_main.c:198-257 | position and length of the wanted word, for every line and number |
| `BitTricks.AlignDownIs` | source/fs/lfs_config.h:94-98 | the greatest multiple not above |
| `BitTricks.AlignUpIs` | source/fs/lfs_config.h:100-104 | the least multiple not below, if and only if the sum does not wrap |
| `BitTricks.LeastMultiple` | source/fs/lfs_config.h:100-104 | no other multiple is closer |
| `BitTricks.Npw2` | source/fs/lfs_config.h:107-130 | the exponent of the least power of two not below, for all words from 2 on; the results at 0 and 1 |
| `BitTricks.Ctz` | source/fs/lfs_config.h:133-140 | the exact number of trailing zeros of every non-zero word |
| `BitTricks.CountSplit` | source/fs/lfs_config.h:143-152 | the bit count of a word is the sum over its parts |
| `BitTricks.PopcIs` | source/fs/lfs_config.h:143-152 | the folded sums equal the recursive bit count |
| `BitTricks.Popc` | source/fs/lfs_config.h:143-152 | the number of ones of every word |
| `Shadow.Device.HandleDelta` | source/aws_demos/shadow_device_task.c:390-506 | only a newer version changes anything; the power state follows the message if it carries one |
| `Shadow.NewestDecides` | source/aws_demos/shadow_device_task.c:390-506 | after any messages in any order and number, version, power state and LED are those of the newest |
| `Shadow.OrderIrrelevant` | source/aws_demos/shadow_device_task.c:390-506 | two arrival orders of the same messages end alike |
| `Shadow.OrderMatters` | source/aws_demos/shadow_device_task.c:390-506 | if the newest carries no power state and another message asks for a change, two orders of the same messages end differently |
| `Shadow.OrderFreeIff` | source/aws_demos/shadow_device_task.c:390-506 | all arrival orders, with any repetition, end alike if and only if the newest carries a power state or no message asks for a change |
| `Shadow.VersionsIncrease` | source/aws_demos/shadow_device_task.c:390-506 | versions never fall along a run, and an unchanged version means an unchanged state |

## Left out

- KvCache.Store.Boot: start-up is modelled for files that the store itself wrote, whole or cut short; the limit KVSTORE_VAL_MAX_LEN is a parameter, because kvstore_config_plat.h is not part of this model.
- KvCache.Store.Commit: what the medium holds after a failed sync and close is taken as the old file, or any part of what was written; power loss in the middle of a commit counts as such a failure.
- MqttSubscriptions.Manager.SubscribeRegion: reference counts are unbounded and only changed as written; that they are exact, and that a filter has one slot, is false of the code and not claimed. The argument checks before the mutex is taken are left out.
- Reconnect.Agent.Pass: back-off times are left out.
- TlsTransport.Context.Connect: error codes are merged into success and failure; socket options and TLS handshake are one answer.
- TlsTransport.Context.constructor: the notify context is taken as NULL after allocation, which the source does not set itself.
- TlsTransport.Context.SetRecvCallback: a NULL context, through which the source would write, is left out.
- MqttSubscriptions.Manager.CompactSubscriptions: the acknowledgement and reference-count arrays do not move with the slots, so nothing is claimed about them.
- Reconnect.Agent.Resubscribe: the subscribe command in prvHandleResubscribe is unreachable as written, so only its other branch is modelled.
- CaChain.ConfigureCAChain: one certificate per object; the profile check is an answer, and error codes other than the allocation failure are merged.
- Spki.ReadPublicKey: the library's export is an answer; the numeric error codes of mbedTLS are its published values, without those of the optional HMAC_DRBG.
- CliTokens.FindMatchingCommand: the registered commands are a sequence, not a linked list; names are non-empty and free of spaces.
- Pem.ReadPem: when the lines run out the reader waits; memory for its buffer is available. Which texts that the encoder does not produce the library decoder takes, such as trailing blanks or non-zero pad bits, is left open.
- BitTricks.Npw2: the compiler built-ins that replace the portable forms are not modelled.
- Shadow.Device.HandleDelta: JSON parsing is reduced to what it finds.
- The key-value store is sequential; its setters do not take the mutex. KVStore_getBlobHeap and the key-name lookups only repeat easier members.
- `mbedtls_ssl_send` is not claimed to preserve the stream: it sends again from the start after a partial send.
- UART threads, HAL, flash driver, logging, boot code, OTA, device defender, motion sensor, heap and task commands: input and output plumbing or easy members.

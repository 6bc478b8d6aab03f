# sepigs, verified

What a proxy does between its sockets is bookkeeping: bytes to be framed, generations of configuration to be switched
while connections still hold the old ones, caches and address pools that must not outgrow themselves. This is where
sepigs is intricate, and this is what is modelled here in Dafny 4.11, with proofs of what each part keeps over every
input or every run.

`dafny verify dfyconfig.toml` checks all of it.

## How it is built

- Code that changes state step by step is a class or a method with the source's fields and loops. Every such method is
  proved against a function on values: `State() == F(old(State()))`. The theorems are about those functions, over every
  input or every run.
- A JavaScript `Map` whose order matters is an `OrderedMap`: a list of distinct keys and a map.
- Time, random draws and the outcomes of calls into components, sockets and timers are parameters. Where a call may
  fail, the model lets it fail in every way.
- Cryptography is the datatype `Crypto` of functions. `Sound` says of them that opening undoes sealing and that a seal
  adds 16 bytes. The frame format is that of SIP004.
- Handles whose `release` is idempotent are tokens in a map (`Handles`): a token is there until its release first runs.

| file | part of sepigs |
|---|---|
| `BufferQueue`, `Nonce`, `ShadowsocksFraming`, `ShadowsocksReceiver`, `ShadowsocksTcpStream` | Shadowsocks AEAD TCP stream |
| `ReloadTransaction`, `ReloadExecutor`, `ReloadAtomicity` | transactional reload |
| `RoutingRuntime`, `RoutingSafety` | router and policy pair |
| `ReloadRouting`, `ReloadOutbound` | the executor driving the routing pair and the outbound registry |
| `OutboundRegistry`, `RegistrySafety` | outbound generations and references |
| `DnsCache`, `DnsRecency`, `CacheCarryover`, `DnsStore`, `DnsResolver`, `DnsAnswer` | DNS caches, generations and queries |
| `FakeIp`, `FakeIpSafety`, `FakeIpService`, `FakeIpAddress` | fake-IP allocator |
| `OutboundDiff` | rename detection |
| `SocksText`, `SocksAddress` | SOCKS addresses and UDP packets |
| `DnsMessage` | DNS answers and queries |
| `Turns`, `RoutingPolicy`, `OpenTcp` | policy selection and opening connections |
| `Common`, `Handles`, `OrderedMaps` | shared types |

## What the code does that its names do not say

Each of these is proved, with the exact condition under which the expected behaviour holds where one is named.

- Fake-IP exhaustion is not least-recently-used. A full probe touches every record in address order, so the victim is
  the record at the cursor, and the cursor does not move: every further new domain gets the same address, each taking
  it from the one before (`FullProbe`, `ExhaustedPoolSharesOneAddress`).
- `reverse(assign(d))` at one instant is `d` if and only if `d` already had a live address or `ttlSeconds` is positive
  (`ReverseUndoesAssign`).
- A DNS entry just stored can be the one evicted, on a tie of the clock (`StoredEntrySurvives`, exactly unless
  `PushedOutAtOnce`).
- A failure with a blank message leaves the executor before its rollback, with components on different generations
  (`RejectedKeepsCommits`, `BlankReasonSplitsComponents`). A commit that fails after taking effect is not rolled back
  (`RolledBackIsCleanExactlyWhen`).
- Only prepared components are cleaned up, so a prepare that failed after it began the routing transaction would leave
  that transaction open (`ReadersSeeWholePairs`). The component contract allows it; the router's and the policy's
  adapters do not do it, as both are synchronous and nothing in them throws once the transaction has begun, and with
  them none stays open (`ReloadIsAllOrNothing`).
- A reload that fails does not use up its number, so the next one brings the same ids. Readers of the routing pair do
  not notice: no theorem on what they get needs new ids. But a pair can then drain on the handle of a reader that kept
  the pair rolled back before it (`RetryDrainsOnOldHandle`), which new ids exclude (`RoutingIsSafe`). And a reload of
  the outbounds tried again is refused, its generation existing already, exactly while a reference on the generation
  rolled back is still held (`RetryIsRefusedExactlyWhen`).
- Committing one routing component again is harmless exactly until the pair is published, or if no new policy is staged
  and the active pair itself drains already (`CommitAgainIsHarmlessExactlyWhen`); after that it leaves the active pair
  in `draining` (`CommittingTwiceLeavesActiveDraining`).
- Undoing a switch of the outbound generation throws exactly if some step took the old generation out: the release of
  its last reference, or a retirement while it had none (`RestorableExactlyWhen`; `ReleaseCanPreventRestore` is an
  instance). Until then it can be restored, with or without a reference. In a reload the registry then keeps the new
  generation while the routing pair goes back, exactly if connections have taken the old generation out before the
  outbound is asked to roll back, and a rollback of the router or the policy takes effect (`ApartExactlyWhen`); a DNS
  commit that comes too late does it (`LateDnsComesApart`).
- `openTcp` gives up early, with candidates untried and the failure unrecorded, exactly when giving a reference back
  retires a generation one of whose outbounds rejects `stop()` (`GivesUpExactlyWhen`, `RejectedStopEndsLoop`).
- A retirement stops nothing twice exactly if the objects are all different and new (`StoppedOnceExactlyWhen`). The
  engine files its objects by tag, so one object under two tags does not come from it.
- A domain destination with an empty name encodes, and does not decode (`SocksAddresses.RoundTrip`).
- A host with an empty label, such as one ending in a dot, makes a DNS query whose name ends early
  (`QueryIsOneQuestion`). A label of 257 letters, whose length byte says 1, can make one that does not
  (`WrappedLabelCanPass`).
- A load balancer offers an outbound that is listed twice only once if it goes first (`LoadBalanceIsPermutation`).

## Model

| member | source | states |
|---|---|---|
| `BufferQueues.BufferQueue.Push` | src/utils/bufferQueue.ts:8-12 | a pushed chunk is appended to the unread bytes; empty chunks are not kept |
| `BufferQueues.BufferQueue.Read` | src/utils/bufferQueue.ts:14-33 | takes exactly the first bytes off the front, or throws and changes nothing when there are too few |
| `BufferQueues.BufferQueue.ReadAcross` | src/utils/bufferQueue.ts:22-32 | the copy loop gathers the right bytes over any number of chunks |
| `Nonces.IncrementNonce` | src/protocol/shadowsocks.ts:265-272 | the in-place carry loop leaves the buffer incremented |
| `Nonces.IncrementAddsOne` | src/protocol/shadowsocks.ts:265-272 | incrementing adds one to the little-endian value, modulo 256 to the buffer's length |
| `Nonces.NonceValue` | src/protocol/shadowsocks.ts:160-170 | the k-th nonce has value k modulo 2^96 |
| `Nonces.NoncesDiffer` | src/protocol/shadowsocks.ts:160-170 | any two of the first 2^96 nonces differ |
| `Nonces.NoncesRepeat` | src/protocol/shadowsocks.ts:160-170 | and the period is exactly 2^96 |
| `ShadowsocksFraming.PartsFlatten` | src/protocol/shadowsocks.ts:100-109 | cutting prefix and writes into frames loses, repeats and reorders nothing |
| `ShadowsocksFraming.FragmentationIndependent` | src/protocol/shadowsocks.ts:118-158 | the receiver's state after any list of chunks depends only on their concatenation |
| `ShadowsocksFraming.RoundTrip` | src/protocol/shadowsocks.ts:100-158 | for all writes and all ways of cutting the wire, the receiver pushes exactly the prefix and the writes, and expects the sender's next nonce |
| `ShadowsocksFraming.EveryCompleteFrameIsOut` | src/protocol/shadowsocks.ts:118-158 | after any beginning of the wire exactly the frames that have arrived whole are out, and the nonce is 2i or, between length and payload, 2i + 1 |
| `ShadowsocksFraming.CutIsFull` | src/protocol/shadowsocks.ts:209-224 | every frame of a write but the last carries 0x3fff bytes, which none exceeds |
| `ShadowsocksReceivers.OnlyGenuinePartsArePushed` | src/protocol/shadowsocks.ts:118-158 | whatever bytes come, in whatever chunks: behind the salt stand frames whose blocks open under the nonces 0, 1, 2, ...; exactly what these opened to has been pushed; the receiver waits exactly while the next block is incomplete, and is destroyed exactly if it is complete and does not open |
| `ShadowsocksReceivers.ForgedBlockDestroys` | src/protocol/shadowsocks.ts:149-157 | a chunk that completes a block which does not open destroys the stream; nothing of it is pushed, nor of anything later |
| `ShadowsocksReceivers.DestroyedStays` | src/protocol/shadowsocks.ts:155-157 | a destroyed stream takes no notice of further chunks |
| `ShadowsocksTcpStreams.ShadowsocksTcpStream.constructor` | src/protocol/shadowsocks.ts:68-88 | a new stream has sent nothing but the salt, if asked to, and awaits a salt |
| `ShadowsocksTcpStreams.ShadowsocksTcpStream.SendSalt` | src/protocol/shadowsocks.ts:172-187 | the salt goes out once, before anything sealed |
| `ShadowsocksTcpStreams.ShadowsocksTcpStream.Write` | src/protocol/shadowsocks.ts:100-109 | a write extends what was sent to the wire form of all writes so far |
| `ShadowsocksTcpStreams.ShadowsocksTcpStream.EncryptTcpPayload` | src/protocol/shadowsocks.ts:209-224 | the offset loop seals the cut of the payload, two nonces a frame |
| `ShadowsocksTcpStreams.ShadowsocksTcpStream.HandleEncryptedData` | src/protocol/shadowsocks.ts:118-158 | one chunk moves the object as `Feed` moves the receiver |
| `ShadowsocksTcpStreams.ShadowsocksTcpStream.OpenFrames` | src/protocol/shadowsocks.ts:129-157 | the frame loop goes on as far as the bytes allow |
| `ShadowsocksTcpStreams.ShadowsocksTcpStream.OpenLength` | src/protocol/shadowsocks.ts:130-141 | the length block is opened under the next nonce, or the stream destroyed |
| `ShadowsocksTcpStreams.ShadowsocksTcpStream.OpenPayload` | src/protocol/shadowsocks.ts:143-156 | the payload block is opened under the next nonce and pushed unless empty, or the stream destroyed |
| `ReloadTransactions.ReloadTransactionModel.Transition` | src/reload/generation.ts:55-63 | moves only along the table, and otherwise throws and changes nothing |
| `ReloadTransactions.ReloadTransactionModel.Fail` | src/reload/generation.ts:65-78 | a blank reason or a terminal state throws and changes nothing; preparing, prepared and committing go to rolling back, every other state to failed, with the time of it |
| `ReloadTransactions.HistoryRises` | src/reload/generation.ts:10-21 | every legal history rises to a terminal state, and nothing commits after rolling back has begun |
| `ReloadTransactions.HistoriesAre` | src/reload/generation.ts:10-78 | the legal histories outright: a beginning of the way to committed, and perhaps, from preparing on, a rollback, or a failure |
| `ReloadTransactions.FailFollowsTable` | src/reload/generation.ts:10-78 | failing moves along the table too, but for failing before parsing has begun |
| `ReloadExecutors.ReloadExecutor.Execute` | src/reload/executor.ts:96-131 | every run has exactly the expected trace, state, errors and lists; success holds exactly when committed; it throws exactly when rejected |
| `ReloadExecutors.ReloadExecutor.Perform` | src/reload/executor.ts:331-340 | a throwing call is recorded, and the first forward failure is the primary one |
| `ReloadExecutors.ReloadExecutor.RunPrepare` | src/reload/executor.ts:150-173 | prepares in order up to the first failure |
| `ReloadExecutors.ReloadExecutor.RunHealthChecks` | src/reload/executor.ts:175-194 | checks the prepared in order up to the first failure |
| `ReloadExecutors.ReloadExecutor.RunCommit` | src/reload/executor.ts:196-221 | commits in order up to the first failure, which is not filed as committed |
| `ReloadExecutors.ReloadExecutor.RunRollback` | src/reload/executor.ts:223-251 | rolls back the committed, or before any commit the prepared, in reverse, going on past errors |
| `ReloadExecutors.ReloadExecutor.RunReversed` | src/reload/executor.ts:253-275 | the reverse loop calls every entry once |
| `ReloadExecutors.PrimaryFailureMeans` | src/reload/executor.ts:331-353 | the primary failure is a forward call that threw, and nothing is rolled back before the prepare stage |
| `ReloadAtomicity.LiveAtTheEnd` | src/reload/executor.ts:96-131 | which components are live on the new generation after any run whatever |
| `ReloadAtomicity.CommittedMeansAllNew` | src/reload/executor.ts:196-221 | committed means every component is live on the new generation, and holds exactly when no forward call failed |
| `ReloadAtomicity.AbortedMeansAllOld` | src/reload/executor.ts:223-251 | failed, or rolled back without rollback error, means every component is live on the old one |
| `ReloadAtomicity.RolledBackIsCleanExactlyWhen` | src/reload/executor.ts:223-228 | a clean rollback restores everything if and only if the failed commit had no effect |
| `ReloadAtomicity.NoRollbackErrorIsSeen` | src/reload/executor.ts:331-340 | a caller sees in componentErrors whether the rollback was clean |
| `ReloadAtomicity.RejectedKeepsCommits` | src/reload/generation.ts:65-67 | with a blank reason exactly the effective commits stay |
| `ReloadAtomicity.BlankReasonSplitsComponents` | src/reload/generation.ts:65-67 | a run that leaves one component new and one old |
| `ReloadAtomicity.CallLaws` | src/reload/executor.ts:150-275 | a call is made exactly when it may be: commits only after all are prepared and healthy, rollbacks only of the prepared or committed, cleanups of exactly the prepared |
| `ReloadAtomicity.NoCallTwice` | src/reload/executor.ts:150-275 | no call is made twice, so there is exactly one cleanup per prepared component |
| `ReloadAtomicity.CallsOutright` | src/reload/executor.ts:150-275 | the same by what the earlier calls did: after a failed commit those are rolled back whose commits returned, after an earlier failure those whose prepares did, none after a blank reason |
| `ReloadAtomicity.OnlyPrimaryThrows` | src/reload/executor.ts:331-340 | the failure a run goes by is the only call before the rollback that throws |
| `ReloadAtomicity.ErrorsAreExact` | src/reload/executor.ts:331-340 | componentErrors has one entry for each call that threw, in order, with its stage, component and message |
| `RoutingRuntimes.RoutingGenerationRuntime.AcquireHandle` | src/router/generation.ts:43-62 | hands out the active pair and counts it |
| `RoutingRuntimes.RoutingGenerationRuntime.ReleaseHandle` | src/router/generation.ts:50-60 | counts once, and drops a drained pair with its last handle |
| `RoutingRuntimes.RoutingGenerationRuntime.BeginTransaction` | src/router/generation.ts:64-74 | opens a transaction on the pair in force, or throws |
| `RoutingRuntimes.RoutingGenerationRuntime.Stage` | src/router/generation.ts:76-82 | stages a router or a policy, and nothing else |
| `RoutingRuntimes.RoutingGenerationRuntime.CommitComponent` | src/router/generation.ts:84-110 | publishes the pair once every expected part has committed, or throws and changes nothing |
| `RoutingRuntimes.RoutingGenerationRuntime.RollbackTransaction` | src/router/generation.ts:112-122 | puts the old pair back |
| `RoutingRuntimes.RoutingGenerationRuntime.CleanupTransaction` | src/router/generation.ts:124-132 | forgets the transaction, and drops its old pair if unused |
| `RoutingRuntimes.RoutingGenerationRuntime.Replace` | src/router/generation.ts:138-143 | replaces the pair outside a transaction |
| `RoutingSafety.RoutingIsSafe` | src/router/generation.ts:43-143 | over every run: usage counts are the outstanding handles; readers get the whole old or the whole new pair; outside a transaction a pair drains only while a handle to a pair of its ids is out, and to that very pair if all ids were new |
| `RoutingSafety.StepKeeps` | src/router/generation.ts:43-143 | every operation keeps the invariant behind it, whatever the ids |
| `RoutingSafety.StepKeepsCoherent` | src/router/generation.ts:43-143 | with new ids no key comes to name two pairs |
| `RoutingSafety.ActiveChangesOnlyAt` | src/router/generation.ts:84-122 | the pair in force changes only at the commit that completes the expected set, at a rollback of a published transaction and at a replacement; a commit that throws changes nothing |
| `RoutingSafety.CompletingCommitPublishes` | src/router/generation.ts:95-109 | the commit that completes the set publishes what was staged and the rest of the old pair; with a policy staged its manager is a new one, which no known pair has, and without one the old one |
| `RoutingSafety.DrainingBegins` | src/router/generation.ts:106-143 | the pair replaced begins to drain, at a legacy replacement only while in use, and no other does |
| `RoutingSafety.DrainingEnds` | src/router/generation.ts:50-132 | a pair stops draining with the last handle to a pair of its ids, at a cleanup that finds none, or when it is put back |
| `RoutingSafety.ReadersGetActive` | src/router/generation.ts:43-62 | a reader gets the pair in force; taking and releasing handles changes no pair and no transaction |
| `RoutingSafety.RollbackRestores` | src/router/generation.ts:112-122 | any number of rollbacks leaves the old pair in force |
| `RoutingSafety.CommitAgainIsHarmlessExactlyWhen` | src/router/generation.ts:95-110 | outside a rollback, committing again changes nothing if and only if the pair is not published, or no manager is made and the active pair itself drains already |
| `RoutingSafety.CommittingTwiceLeavesActiveDraining` | src/router/generation.ts:84-110 | an instance: a second commit after publication files the active pair as draining |
| `RoutingSafety.RetryDrainsOnOldHandle` | src/router/generation.ts:84-132 | an instance: a transaction tried again with the same ids makes its pair drain on a handle to the pair rolled back before |
| `ReloadRoutings.ReadersSeeWholePairs` | src/reload/adapters/routerRuntimeAdapter.ts:39-103 | at every moment of every executor run, with readers in between: the pair in force and every handle taken are the whole old or the whole new pair, the new one, with a new manager if the policy changed, exactly when all routing commits and no rollback took effect; when the transaction is open; a pair drains only while a handle of its ids is out |
| `ReloadRoutings.ReloadIsAllOrNothing` | src/reload/executor.ts:96-131 | at the end: new pair if committed, old pair if failed or cleanly rolled back, and no transaction left open if the router's and the policy's cleanups take effect and their failed prepares have none |
| `ReloadRoutings.CallsAreInTurn` | src/reload/executor.ts:150-275 | the executor keeps the discipline the routing transaction needs: stages in order, no commit twice, commits only when all are prepared |
| `ReloadRoutings.TraceIsOrdered` | src/reload/executor.ts:96-131 | the stages of every run follow one another |
| `ReloadRoutings.CommitStands` | src/reload/adapters/routerRuntimeAdapter.ts:87-91 | a routing commit in turn is accepted, and publishes exactly when it is the last one expected |
| `ReloadRoutings.BeginStands` | src/reload/adapters/routerRuntimeAdapter.ts:54-55 | whichever of router and policy prepares first opens the transaction, and each stages its own part |
| `ReloadRoutings.EveryChangeIsCovered` | src/reload/runtimeIntegration.ts:188-218 | the results on reloads hold for every set of changed parts, from every runtime without an open transaction, whatever the ids; new ids keep pairs apart |
| `ReloadRoutings.SetupIsInOrder` | src/reload/runtimeIntegration.ts:188-218 | each changed part has its place, router before policy before outbound |
| `ReloadOutbounds.RegistryAndPairAgree` | src/reload/adapters/outboundRuntimeAdapter.ts:153-199 | at every moment of a reload of outbounds with router or policy, the new pair is never in force without the new generation, and the old pair is with the new generation if and only if the router or the policy is rolled back and the outbound, having committed, is not |
| `ReloadOutbounds.ApartExactlyWhen` | src/reload/adapters/outboundRuntimeAdapter.ts:183-199 | when the outbound's rollback fails only because its restore is refused, they come apart if and only if the router or the policy is rolled back and connections had taken the old generation out before the outbound was asked, or it was not asked, which a failed commit without effect excludes |
| `ReloadOutbounds.RestoreIsRefusedExactlyWhen` | src/outbound/runtimeRegistry.ts:160-169 | the restore of a rollback is refused if and only if connections have taken the old generation out by then |
| `ReloadOutbounds.LateDnsComesApart` | src/reload/adapters/outboundRuntimeAdapter.ts:183-191 | the input: router, outbound and DNS change, the only old connection ends, and the DNS commit comes too late |
| `ReloadOutbounds.OneConnectionExists` | src/outbound/runtimeRegistry.ts:88-113 | and a registry it starts from |
| `ReloadOutbounds.RegistryFollows` | src/reload/adapters/outboundRuntimeAdapter.ts:153-199 | the registry has the new generation in force exactly from the outbound's commit to its rollback, whatever connections do, beside a routing transaction or not |
| `ReloadOutbounds.OldIsThereExactlyWhen` | src/outbound/runtimeRegistry.ts:115-193 | through a reload the registry keeps its invariant, and before the cleanups the old generation is there if and only if connections have not taken it out |
| `ReloadOutbounds.OutboundRollsBackFirst` | src/reload/executor.ts:223-251 | where the router or policy is rolled back, a committed outbound was asked before |
| `ReloadOutbounds.RetryIsRefusedExactlyWhen` | src/reload/runtimeIntegration.ts:90-171 | over two reloads of one number: once the first is undone and cleaned up, the second one's outbound switch is refused as existing already if and only if a reference on the generation of the first is still held |
| `ReloadOutbounds.PlanIsValid` | src/reload/runtimeIntegration.ts:199-213 | the component list puts the outbound behind router and policy, and in the routing transaction if there is one |
| `OutboundRegistries.OutboundRuntimeRegistry.AcquireOutboundRef` | src/outbound/runtimeRegistry.ts:88-113 | a new reference on the outbound of a tag, counted in both counters |
| `OutboundRegistries.OutboundRuntimeRegistry.ReleaseOutboundRef` | src/outbound/runtimeRegistry.ts:115-132 | counts once, and retires its generation if that was the last and it is not active; throws exactly if that stops an outbound that rejects |
| `OutboundRegistries.OutboundRuntimeRegistry.SwitchGeneration` | src/outbound/runtimeRegistry.ts:134-158 | the candidate becomes active and the old one draining, or it throws and nothing changes |
| `OutboundRegistries.OutboundRuntimeRegistry.RestoreGeneration` | src/outbound/runtimeRegistry.ts:160-169 | the old one becomes active again, or it throws and nothing changes |
| `OutboundRegistries.OutboundRuntimeRegistry.RetireIfUnused` | src/outbound/runtimeRegistry.ts:176-193 | drops a generation that is neither active nor referenced and stops all its outbounds; throws exactly if one rejects |
| `OutboundRegistries.OutboundRuntimeRegistry.MarkGenerationDraining` | src/outbound/runtimeRegistry.ts:171-174 | marks a generation that is not active, or throws |
| `OutboundRegistries.ValidateRuntimeEntries` | src/outbound/runtimeRegistry.ts:258-274 | the loop over the tags, with the error of the first that does not fit |
| `RegistrySafety.RegistryIsSafe` | src/outbound/runtimeRegistry.ts:88-193 | over every run: one active record; reference counts are the sums of the tag counts and the numbers of unreleased references; each of those is on the outbound its generation has under its tag, not stopped; none is stopped twice |
| `RegistrySafety.SumOfTags` | src/outbound/generation.ts:77-89 | a generation's counter equals the sum over its tags and the number of its references |
| `RegistrySafety.AcquireGivesOwn` | src/outbound/runtimeRegistry.ts:88-113 | a reference is given exactly if the generation has an outbound of that tag: a new one, to that very outbound |
| `RegistrySafety.StepMeans` | src/outbound/runtimeRegistry.ts:134-193 | who is in force after each step; a generation's outbounds never change, a new one has the candidate's and the next sequence number, and one that goes has all its outbounds stopped, and no others |
| `RegistrySafety.ReferencesAre` | src/outbound/runtimeRegistry.ts:115-132 | a release ends the one reference, and no other step ends any |
| `RegistrySafety.GoneExactlyWhen` | src/outbound/runtimeRegistry.ts:115-193 | a step takes a generation out if and only if it is not active and the step gives back its last reference or retires it unused; only a switch brings one in |
| `RegistrySafety.RestorableExactlyWhen` | src/outbound/runtimeRegistry.ts:160-169 | after any run, restoring a generation succeeds if and only if no step of the run took it out for good |
| `RegistrySafety.RestoreKeepsOneActiveExactlyWhen` | src/outbound/runtimeRegistry.ts:160-169 | a restore leaves one active record if and only if it is from the active generation or to it |
| `RegistrySafety.HeldGenerationCanBeRestored` | src/outbound/runtimeRegistry.ts:160-169 | in particular a referenced generation can be restored after any steps |
| `RegistrySafety.ReleaseCanPreventRestore` | src/outbound/runtimeRegistry.ts:115-132 | an instance: releasing the last reference after the switch makes the restore throw |
| `RegistrySafety.ValidEntriesAreExact` | src/outbound/runtimeRegistry.ts:258-274 | validation passes exactly when the objects are for exactly the generation's tags, each of its kind |
| `RegistrySafety.FirstMisfitDecides` | src/outbound/runtimeRegistry.ts:258-274 | the first tag that does not fit decides the error |
| `RegistrySafety.SwitchIsRefusedExactlyWhen` | src/outbound/runtimeRegistry.ts:134-141 | a switch is refused exactly if the id is taken or the objects are not those described |
| `RegistrySafety.StoppedOnceExactlyWhen` | src/outbound/runtimeRegistry.ts:186-192 | a retirement stops nothing twice if and only if its objects differ from one another and from those stopped before |
| `RegistrySafety.SharedObjectIsStoppedTwice` | src/outbound/runtimeRegistry.ts:186-192 | an instance: one object under two tags |
| `DnsCaches.DNSGeneration.ReadPositive` | src/dns/generation.ts:165-177 | a live entry is found, touched and moved to the end; an expired one deleted |
| `DnsCaches.DNSGeneration.ReadNegative` | src/dns/generation.ts:179-191 | the same for negative entries |
| `DnsCaches.DNSGeneration.WritePositive` | src/dns/generation.ts:193-202 | the entry replaces both entries of its host, and the cache is trimmed |
| `DnsCaches.DNSGeneration.WriteNegative` | src/dns/generation.ts:204-213 | the same for negative entries |
| `DnsCaches.DNSGeneration.TrimCache` | src/dns/generation.ts:247-264 | the merging loop ends, and leaves the trimmed cache |
| `DnsCaches.DropFirst` | src/dns/generation.ts:247-264 | each key being its entry's host, every turn of the loop deletes exactly the first entry |
| `DnsRecency.TrimKeepsNewest` | src/dns/generation.ts:247-264 | trimming cuts a beginning off the merged recency list |
| `DnsRecency.EvictsOldest` | src/dns/generation.ts:247-264 | every evicted entry was last used no later than every kept one |
| `DnsRecency.PutIsForgetAndAppend` | src/dns/generation.ts:193-213 | storing moves the host to the end of the one list |
| `DnsRecency.GetIsLruGet` | src/dns/generation.ts:165-191 | looking up is looking up in the one list |
| `DnsRecency.RunStaysBounded` | src/dns/generation.ts:165-213 | over every run, whatever the clock does: no host in both maps, and never more than maxEntries; in order of use if the clock never goes back |
| `DnsRecency.TwoMapsAreOneLru` | src/dns/generation.ts:165-264 | with an advancing clock the two maps are one least-recently-used list, after every run |
| `DnsRecency.StoredEntrySurvives` | src/dns/generation.ts:193-213 | the stored entry is kept if and only if it is not pushed out at once by a tie |
| `CacheCarryovers.ApplyCarryover` | src/dns/cacheCarryover.ts:91-97 | the loop stores the planned entries one by one |
| `CacheCarryovers.PlanAddsUp` | src/dns/cacheCarryover.ts:34-89 | carried plus dropped is the old total, carried fits the new limit, and nothing is carried unless the resolvers agree and fake-IP is off |
| `CacheCarryovers.PlanCopies` | src/dns/cacheCarryover.ts:34-89 | every planned entry copies a live, insensitive, real entry, expiring no later; positive ones have room first |
| `CacheCarryovers.PlanTakes` | src/dns/cacheCarryover.ts:54-89 | every eligible entry is planned if there is room: positive ones are left out only once the limit is reached, the oldest first; negative ones if not asked for or beyond the limit, the last first; all in order, with the times the new settings give them |
| `CacheCarryovers.FreshCandidateHoldsPlan` | src/dns/cacheCarryover.ts:91-97 | a fresh candidate ends up holding exactly the planned entries in order: nothing is trimmed |
| `CacheCarryovers.EveryHitWasAHit` | src/dns/cacheCarryover.ts:20-97 | after any lookups and stores in the new cache, but of the host itself, every hit there is a hit in the old one with the same data |
| `CacheCarryovers.EntryStaysOverRun` | src/dns/generation.ts:165-213 | operations that do not store a host change nothing of its entry but the time of use, or take it out |
| `DnsStores.DNSGenerationStore.Acquire` | src/dns/generationStore.ts:32-45 | a query on the active generation, counted there |
| `DnsStores.DNSGenerationStore.Release` | src/dns/generationStore.ts:36-43 | ends that query and drops generations no longer needed |
| `DnsStores.DNSGenerationStore.Switch` | src/dns/generationStore.ts:47-54 | the candidate is stored and active, the old one draining |
| `DnsStores.DNSGenerationStore.RestoreOld` | src/dns/generationStore.ts:61-68 | the old one is stored and active again, the candidate draining |
| `DnsStores.DNSGenerationStore.ReleaseAllDrained` | src/dns/generationStore.ts:70-78 | the deleting pass removes exactly the drained generations without queries |
| `DnsResolvers.HeldGenerationsStay` | src/dns/generationStore.ts:32-78 | over all interleavings: held generations are stored, the active one is, all others stored are draining, and counts are exact |
| `DnsResolvers.OnlyOwnGenerationChanges` | src/dns/resolver.ts:77-194 | a step changes no generation's contents but those of the one its query holds, and a landing lookup's generation is still held |
| `DnsResolvers.AnswersComeFromOwnGeneration` | src/dns/resolver.ts:77-108 | after any run that leaves a generation alone, a lookup in it gives the answer, and leaves it as, it would have before |
| `DnsResolvers.EveryStepReaches` | src/dns/generationStore.ts:32-78 | every enabled step from a reached state reaches the next: the results leave no run out |
| `DnsResolvers.LastQueryDropsGeneration` | src/dns/generationStore.ts:70-78 | a drained generation leaves the store with its last query, and no sooner |
| `DnsAnswers.LookAnswers` | src/dns/resolver.ts:84-105 | a query is answered with the static address of its host, or else a live positive entry's address, or else a live negative entry's error, and otherwise waits for a lookup; the caches asked are touched as that says |
| `DnsAnswers.LookerIsAnswered` | src/dns/resolver.ts:77-108 | the query that looked gets that answer, and no other query anything |
| `DnsAnswers.WaitersAreAnswered` | src/dns/resolver.ts:110-194 | a lookup that lands answers every query waiting for its host in its generation, and no other: with its address, else the fallback address, else the error |
| `DnsAnswers.LandingIsCached` | src/dns/resolver.ts:122-194 | it stores one entry with this data and lifetime, the answer's cut to the configured one, or nothing; the rest of the cache stays if there is room, and the limit holds |
| `DnsAnswers.StepMeans` | src/dns/generationStore.ts:32-68 | queries begin on the generation in force, which only a switch or a restore changes, to the one named |
| `DnsAnswers.HostsIgnoreCase` | src/dns/generation.ts:165-202 | hosts are the same exactly if they differ in the case of ASCII letters at most |
| `FakeIpAddresses.AddressRoundTrip` | src/dns/fakeIpPool.ts:3-13 | the dotted text of a 32-bit value reads as that value, and no other value has it |
| `FakeIpAddresses.NumberRoundTrip` | src/dns/fakeIpPool.ts:3-13 | the dotted text of any four octets is the text of the value it reads as |
| `FakeIpAddresses.PoolOfText` | src/dns/fakeIpPool.ts:20-35 | the text of an address and a prefix length makes the pool of that network, or is refused with the same error |
| `FakeIpAddresses.AssignedIsContained` | src/dns/fakeIpPool.ts:48-51 | from every reachable state, the pool contains the text of every address assigned, and the store has the domain under the address it reads as |
| `FakeIps.RangeIsInside` | src/dns/fakeIpPool.ts:20-35 | a range is accepted exactly for prefixes 1 to 30 and sizes from 1, and lies strictly between network and broadcast address without 32-bit wrap |
| `FakeIps.AtIsOffset` | src/dns/fakeIpPool.ts:37-51 | every index denotes an address of the pool, as far from the first |
| `FakeIps.VisitKeeps` | src/dns/fakeIpStore.ts:67-86 | a lookup keeps the two maps inverse, moves a live record to the end and deletes only an expired one |
| `FakeIps.TrimDropsOldest` | src/dns/fakeIpStore.ts:37-52 | trimming takes out the oldest records, as many as are too many |
| `FakeIps.ProbeKeeps` | src/dns/fakeIpPool.ts:37-46 | probing drops expired records only, and ends at a free address or having found all live |
| `FakeIpSafety.NeverLargerThanPool` | src/dns/fakeIpStore.ts:37-52 | pigeonhole: the store never outgrows the pool |
| `FakeIpSafety.AssignKeepsInvariant` | src/dns/fakeIp.ts:15-34 | assigning never fails, keeps the maps inverse and inside the pool, and gives the domain the address returned |
| `FakeIpSafety.ReverseUndoesAssign` | src/dns/fakeIp.ts:15-38 | reverse gives the lower-cased domain back if and only if it had a live address or records live for some time |
| `FakeIpSafety.AssignKeepsOthers` | src/dns/fakeIp.ts:15-34 | every other live record survives but the one victim whose address is given away |
| `FakeIpSafety.LiveDomainKeepsAddress` | src/dns/fakeIp.ts:15-20 | a domain with a live address is given that address again, and no record changes |
| `FakeIpSafety.NewRecordLives` | src/dns/fakeIp.ts:31 | any other gets a record that lives for ttlSeconds seconds, and no longer |
| `FakeIpSafety.FirstFreeIsGiven` | src/dns/fakeIpPool.ts:37-46 | it is the first address from the cursor on without a live record, and the cursor moves behind it; with all taken, the one at the cursor |
| `FakeIpSafety.FreeAddressSparesAll` | src/dns/fakeIp.ts:21-31 | so no live record is lost as long as an address is free |
| `FakeIpSafety.ReverseKeepsInvariant` | src/dns/fakeIp.ts:36-38 | reverse keeps the invariant, and finds exactly live records |
| `FakeIpSafety.FullProbe` | src/dns/fakeIpStore.ts:25-35 | a full failing probe leaves the cursor where it was and the store in address order from it, so the victim is the record at the cursor |
| `FakeIpSafety.ExhaustedAssign` | src/dns/fakeIp.ts:21-30 | at exhaustion the new domain gets the address at the cursor, and nothing else changes hands |
| `FakeIpSafety.ExhaustedPoolSharesOneAddress` | src/dns/fakeIp.ts:21-30 | every further new domain, at any times while no record expires, gets that same address |
| `FakeIpSafety.RangeMakesConfig` | src/dns/fakeIp.ts:9-13 | every accepted range makes a configuration the service results hold for |
| `FakeIpServices.FakeIpPool.Next` | src/dns/fakeIpPool.ts:37-46 | the probing loop over the mutable store is `Probe` |
| `FakeIpServices.FakeIpStore.Set` | src/dns/fakeIpStore.ts:37-52 | a new record replaces those of its domain and address, and the trim loop does nothing |
| `FakeIpServices.FakeIpStore.EvictOldest` | src/dns/fakeIpStore.ts:59-65 | removes and returns the first record in order |
| `FakeIpServices.FakeIpService.AssignDomain` | src/dns/fakeIp.ts:15-34 | the object's assign is the function above, and never throws |
| `FakeIpServices.FakeIpService.ReverseAddress` | src/dns/fakeIp.ts:36-38 | the object's reverse is the function above |
| `OutboundDiffs.DiffOutboundConfigs` | src/outbound/generationBuilder.ts:66-95 | the loops compute the diff |
| `OutboundDiffs.DiffPartitions` | src/outbound/generationBuilder.ts:122-130 | removed tags and rename sources are, each once, the tags the candidate lacks; added tags and rename targets the new ones |
| `OutboundDiffs.RenamesAreServed` | src/outbound/generationBuilder.ts:71-95 | for all tags: removed configurations are given added ones that are the same but for the tag, first come, first served |
| `OutboundDiffs.LeftoversKeepOrder` | src/outbound/generationBuilder.ts:122-130 | what is left over is listed in order |
| `OutboundDiffs.GreedyPairs` | src/outbound/generationBuilder.ts:79-95 | renames pair removed with added configurations equal but for the tag, none twice |
| `OutboundDiffs.GreedyLeavesNone` | src/outbound/generationBuilder.ts:79-95 | no alike pair is left unpaired |
| `OutboundDiffs.GreedyIsMaximum` | src/outbound/generationBuilder.ts:79-95 | no pairing of removed with added configurations is larger |
| `SocksTexts.Ipv6ToBytes` | src/protocol/address.ts:93-113 | writes the eight groups of the text big-endian, or throws |
| `SocksTexts.DecimalReads` | src/protocol/address.ts:39 | the decimal text of a number is its digits without a leading zero |
| `SocksTexts.CompressedReads` | src/protocol/address.ts:99-105 | any groups around a double colon, eight at most, read as themselves with zeros between, in every spelling |
| `SocksTexts.FullReads` | src/protocol/address.ts:99-105 | text without a double colon is read if and only if it has eight groups |
| `SocksTexts.Ipv6TextsAccepted` | src/protocol/address.ts:93-126 | exactly those texts are read |
| `SocksTexts.Ipv6TextReads` | src/protocol/address.ts:69-76 | the text decoding writes reads back as the same groups |
| `SocksAddresses.EncodeSocksAddress` | src/protocol/address.ts:5-25 | encodes the address a destination names and its port, or throws the error for naming none |
| `SocksAddresses.DecodeSocksAddress` | src/protocol/address.ts:27-82 | decodes the address at an offset, or throws the error of its branch |
| `SocksAddresses.EncodedIs` | src/protocol/address.ts:5-25 | the bytes written: type 1 and four octets, 4 and eight words, or 3, a length and the name; then the port, high byte first |
| `SocksAddresses.RoundTrip` | src/protocol/address.ts:5-82 | an encoded destination decodes, among any bytes, to the same address and port, at its exact length, if and only if its name is not empty |
| `SocksAddresses.ReencodingGivesBytesBack` | src/protocol/address.ts:5-82 | encoding what was decoded gives the same bytes if and only if `net.isIP` agrees with the type byte and a name survives being text |
| `SocksAddresses.TextNamesAddress` | src/protocol/address.ts:27-82 | the text written for an address names that address |
| `SocksAddresses.CutAddressIsRefused` | src/protocol/address.ts:27-82 | a cut address never decodes; which cuts are reported as truncation |
| `SocksAddresses.ParseSocksUdpPacket` | src/inbound/socks5Udp.ts:8-16 | parses a packet, or throws the error of its branch |
| `SocksAddresses.ReadAddress` | src/inbound/socks5Udp.ts:20-25 | the second address reader |
| `SocksAddresses.EncodeSocksUdpPacket` | src/inbound/socks5Udp.ts:18 | three zero bytes, the address and the payload |
| `SocksAddresses.UdpParserAgreesWithDecoder` | src/inbound/socks5Udp.ts:8-25 | a packet is taken exactly when its header is zero and the stream decoder takes its address, with the same destination |
| `SocksAddresses.UdpRoundTrip` | src/inbound/socks5Udp.ts:8-18 | packets round-trip destination and payload |
| `DnsMessages.SkipDnsName` | src/dns/resolver.ts:337-351 | the loop ends where the name ends, on any bytes |
| `DnsMessages.DecodeDnsAResponse` | src/dns/resolver.ts:302-335 | ends on any bytes and reads none outside the message; computes `DecodeA` |
| `DnsMessages.ResponseIsRead` | src/dns/resolver.ts:302-335 | for every response with plain or compressed names: the first A record's address and time to live, a second at least, or failure exactly when there is none |
| `DnsMessages.NameIsSkipped` | src/dns/resolver.ts:337-351 | every plain or compressed name is skipped whole |
| `DnsMessages.AnswerIsInMessage` | src/dns/resolver.ts:302-335 | on any bytes, an answer given stands in the message behind the header |
| `DnsMessages.MoreBytesSameAnswer` | src/dns/resolver.ts:302-351 | what is read of a beginning of a message is read of the whole of it, unless it was an error that says there are too few bytes |
| `DnsMessages.FirstAIsFirst` | src/dns/resolver.ts:311-333 | what the first A record is |
| `DnsMessages.QueryIsOneQuestion` | src/dns/resolver.ts:279-300 | a query's question is one name and four bytes if all labels have 1 to 191 bytes, and not if the first label that has not is no longer than 256 bytes, or has a length byte that is no length |
| `DnsMessages.QueryIsMessage` | src/dns/resolver.ts:279-300 | with plain labels a query is the message with its identifier, recursion wanted, and one question, for the host's address in the Internet class |
| `DnsMessages.AnswerBelongsExactlyWhen` | src/dns/resolver.ts:306-309 | a message is taken for an answer to a query exactly if its first two bytes are the query's |
| `DnsMessages.WrappedLabelCanPass` | src/dns/resolver.ts:279-300 | a host of one label of 257 letters whose query reads as one question all the same |
| `RoutingPolicies.RoutingPolicyManager.Select` | src/router/policy.ts:72-87 | the candidates of a tag, and the turn of a round-robin policy moved on |
| `RoutingPolicies.RoutingPolicyManager.PickLoadBalanceFirst` | src/router/policy.ts:142-153 | the choice of the strategy |
| `RoutingPolicies.RoutingPolicyManager.Reload` | src/router/policy.ts:63-70 | replaces the policies, and keeps every health record and turn |
| `RoutingPolicies.LaterPolicyStays` | src/router/policy.ts:64 | of several policies with one tag the last stays |
| `RoutingPolicies.RoutingPolicyManager.Hear` | src/router/policy.ts:72-101 | any sequence of selections and reports |
| `RoutingPolicies.RoutingPolicyManager.RecordSuccess` | src/router/policy.ts:89-95 | one health record changes |
| `RoutingPolicies.RoutingPolicyManager.RecordFailure` | src/router/policy.ts:97-101 | one health record changes |
| `RoutingPolicies.SelectIsPermutation` | src/router/policy.ts:72-140 | for distinct outbounds, a permutation of them with the healthy ones first |
| `RoutingPolicies.FailoverIsPermutation` | src/router/policy.ts:123-127 | the same for failover, duplicates included |
| `RoutingPolicies.LoadBalanceIsPermutation` | src/router/policy.ts:129-140 | every outbound as often as listed, the first once |
| `RoutingPolicies.FailoverKeepsOrder` | src/router/policy.ts:123-127 | failover lists every place of the policy once, healthy ones first, both kinds in the order of the policy |
| `RoutingPolicies.LoadBalanceKeepsOrder` | src/router/policy.ts:129-140 | behind its first a load balancer lists all places of other outbounds, in the same order |
| `RoutingPolicies.GoesFirst` | src/router/policy.ts:72-153 | a tag without a policy stands for itself; in a load balancer the first is drawn evenly by place, or has the least latency, or is the next in turn |
| `RoutingPolicies.FastestIsLeftmostMinimum` | src/router/policy.ts:143-145 | the least-latency choice is the leftmost of the fastest |
| `RoutingPolicies.RoundRobinIsFair` | src/router/policy.ts:150-152 | over any run with a steady pool of n, k selections put each outbound first k/n times, rounded down or up |
| `RoutingPolicies.HealthIsHistory` | src/router/policy.ts:89-101 | over every run a health record counts the failures since the last success, those it started with included, and keeps the last of them |
| `RoutingPolicies.HealthyExactlyWhen` | src/router/policy.ts:159-168 | so an outbound is healthy exactly when it failed fewer times since its last success than tolerated, or not at all, or last failed long enough ago |
| `RoutingPolicies.AverageStaysInRange` | src/router/policy.ts:89-95 | the latency average never leaves the range of what was recorded |
| `RoutingPolicies.LatencyIsHistory` | src/router/policy.ts:89-95 | over every run the latency average is the first latency, and then four parts of what it was to one part of each new one; successes are counted |
| `Turns.FallsAreEven` | src/router/policy.ts:150-152 | a counter modulo n falls on every place evenly |
| `OpenTcps.OpenTcp` | src/core/engine.ts:434-493 | the loop over registry and policy objects, with others acting on both while it waits, is an opening, and the policy manager hears its history |
| `OpenTcps.TryAll` | src/core/engine.ts:443-487 | the loop over the candidates, up to the first that connects or the first exception that leaves the handler |
| `OpenTcps.TryOne` | src/core/engine.ts:444-486 | one candidate: reference, connect, and the release on failure, which may throw |
| `OpenTcps.OthersAct` | src/core/engine.ts:456 | while the loop waits, others acquire, release, switch, restore, drain and retire |
| `OpenTcps.BoundReference.Release` | src/core/engine.ts:631-650 | releases the first time it is called, and does nothing afterwards |
| `OpenTcps.OpeningExists` | src/core/engine.ts:434-493 | there is an opening for every registry, list of candidates and behaviour of the others |
| `OpenTcps.FailsOnlyAfterAll` | src/core/engine.ts:443-487 | candidates are tried in order; unless a release threw, opening fails only after each outbound was tried once |
| `OpenTcps.GivesUpExactlyWhen` | src/core/engine.ts:473-476 | the loop ends early without a connection if and only if an attempt fails to connect with the last reference to a generation switched away, one of whose outbounds rejects its stop |
| `OpenTcps.ConnectsExactlyWhen` | src/core/engine.ts:443-472 | an attempt is on the outbound of its tag in the generation in force, or else the engine's own, and connects exactly if that does; opening succeeds if and only if one tried does, and that one is the last tried |
| `OpenTcps.AloneNeverGivesUp` | src/core/engine.ts:443-487 | with nobody else at the registry it never does |
| `OpenTcps.RejectedStopEndsLoop` | src/core/engine.ts:473-476 | a world in which it does, whatever candidates follow |
| `OpenTcps.ReferencesAreSettled` | src/core/engine.ts:444-475 | whatever others do meanwhile: every reference taken is given back, but the connection's, which is held on the outbound that connected |
| `OpenTcps.RegistryIsAsBefore` | src/core/engine.ts:434-493 | in a registry nobody else touches, a failed opening, or a closed connection, leaves only the next number changed |
| `OpenTcps.JudgedOnce` | src/core/engine.ts:447-480 | the record of every distinct outbound tried has its one outcome added, none if the release threw, and that of one not tried is as it was |

## Left out

- Sockets, servers, timers, files and logging; persistence of the fake-IP store, whose records could lie in another range.
- Cryptography and key derivation: GCM, ChaCha20-Poly1305, HKDF and the password hash are the functions of `Crypto`.
- Time limits and aborts of component calls: such a call is one that throws.
- The adapters between the executor and its components, but for what the router, policy and outbound adapters do to the routing runtime and the outbound one to the registry; the executor is proved against the component contract for any components.
- Overlapping reload transactions, and a legacy reload inside one: nothing in the code serialises them.
- `toLowerCase` outside ASCII.
- One fake-IP call happens at one instant, and so does one `select`.
- Positive and negative DNS entries share one datatype, whose data is the address or the error.
- Static IP literals, the transports and the choice of server in `resolve`: a lookup lands with an answer, or fails.
- `markDraining` and `shutdown` of the DNS store, `stopAll` and `snapshot` of the outbound registry, and the snapshots of the policy manager.
- Uniqueness of registry sequence numbers after a restore, which the code does not have.
- Object identity of routing pairs, which are told apart by their parts, and of registry and DNS generations, which are by their ids.
- The `modified`, `typeChanged`, target, secret and policy-reference lists of the outbound diff; equality of JSON without the tag is equality of the settings.
- `net.isIP`, `Number` and UTF-8 are the functions of `Runtime`; of them only that `Number` reads plain decimals is assumed, and only where a lemma says so.
- Labels of DNS queries outside ASCII, whose length and bytes the code counts differently.
- The limit of 2^53 on JavaScript integers, and the rounding of the latency average, which is over the reals.
- RegistrySafety.RegistryIsSafe: restores are from the active generation, and the objects of a candidate are new to the registry, as the reload makes them.
- RoutingSafety.RoutingIsSafe: one transaction at a time, and no component committed after publication or a rollback; `ReloadRoutings` proves that the executor keeps this order. That a drained pair's own handle is out is stated for new ids only.
- ReloadAtomicity.AbortedMeansAllOld: takes the contract that a failed commit has no effect; `RolledBackIsCleanExactlyWhen` shows it is needed.
- OpenTcps.OpenTcp: the routing handle around the loop, the fake-IP lookup before it and an engine without a registry are not modelled, and neither is which of several rejected stops the caller sees.
- OpenTcps.JudgedOnce: for an outbound that others do not report on meanwhile; what they report is part of the history the policy manager hears.
- ReloadOutbounds.RegistryAndPairAgree: stopping a candidate's outbounds that never came into the registry, and the switch that a commit takes back when the routing runtime refuses it, are left out.
- ReloadOutbounds.RetryIsRefusedExactlyWhen: takes the first reload's cleanup of the outbound to have had its effect; without it an unused generation stays, and refuses the next one, until something retires it.
- DnsResolvers.OnlyOwnGenerationChanges: switches bring new ids; DNS commits last, so the id of a reload that is rolled back never came into the store.
- DnsMessages.QueryIsOneQuestion: says nothing of a first odd label whose length byte wraps to 1 to 191: the parser then takes its letters for lengths, and `WrappedLabelCanPass` shows that it can get through.
- FakeIpAddresses.AddressRoundTrip: masking and shifting are written as division and remainder; elsewhere an address is named by its value.

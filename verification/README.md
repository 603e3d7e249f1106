# Verified model of the consumer side of cross-chain validation

A consumer chain borrows its validator set from a provider chain and sends slash requests and rewards back. This
project models that consumer module in Dafny and proves what it keeps over whole runs, following ICS-028 Cross-Chain
Validation (sections "Validator Set Update", "Consumer Initiated Slashing", "Reward Distribution") over an ordered
channel of ICS-004.

The store is a class with its fields (`Keeper.Keeper`); each handler updates the fields in place and is proved against
a function on the abstract state (`ConsumerSpec`, `Genesis`). `Chain` puts that state into a system with the ordered
channel, acknowledgements, block time, the consensus engine and ghost histories, and defines legal runs; the theorems
about every reachable state are in `ThrottleRun`, `ReplicationRun`, `RestartRun` and `ProgressRun`. The last says
outright what each step does, so that the invariants cannot hold of a chain that does nothing. Rewards (`Coins`,
`Allocation`, `Ledger`) have a run machine of their own. The codec modules go from varints to whole messages, against
a grammar of well-formed fields that is defined independently of the parser. `Denoms` covers denomination traces,
`StoreKeys` and `Ordering` the store's key order, `Valset` lists of validator updates.

## Assumptions

- A validator's public key string and its consensus address determine each other, so one key stands for both; the
  order of addresses is a parameter of its own where a store is iterated (`StoreKeys.ByAddress`).
- Update powers are not negative. An initial set has distinct keys and positive powers. The provider never removes
  the last validator: CometBFT also refuses a list that leaves its set empty.
- The set in effect at an upgrade and the one of the block after it may differ (`Chain.Origin`).
- A sent packet gets at most one acknowledgement, on an open channel, and the provider answers with V1, handled,
  bounced, or a non-empty error (or the packet times out). A handler that returns an error or panics leaves no trace.
- A consumer of this version enqueues slash packets only; matured packets stand in its queue when they come from a
  genesis or from an older version. Runs allow them at any time, which covers both.
- Slash requests come inside a block or at its beginning, before the consumer module's own turn
  (app/consumer/app.go:446-461). Rewards are transmitted in any block; `Ledger` says in which.
- IBC transfers a voucher under the full denomination that the voucher hashes.
- Heights are signed 64-bit numbers that advance by 1, and block time never decreases.
- Runs start from the genesis of a new chain or of a standalone chain that changes over; restarts have their own
  theorems. Parameters are valid, with at least one historical entry; `ReplicationRun.WindowNeedsAnEntry` says what
  happens with none.
- At the changeover the standalone keeper names exactly the validators of the set last handed to the engine.
- Whether IBC accepts a packet or a transfer, whether closing a channel succeeds, which client is created, whether a
  string is a channel identifier, and the hash of a denomination are parameters.
- A buffer is shorter than 2^63 bytes, as a Go slice is.
- In runs the pending packet index does not wrap around; the keeper's methods and `StoreKeys.AppendedComesLast` say
  exactly what happens when it does.

## Where the code does not do what one may expect

- A restart clears the downtime flags of every validator in the exported set, because importing creates those
  validators anew (`Genesis.RestartKeeps`).
- A restart forgets the slash record. If the chain is waiting for a reply on an open channel, and only then, a legal run
  after the restart can drop a packet from the queue that was never sent (`RestartRun.RestartLosesPacket`), and can
  make the bounce handler panic (`RestartRun.RestartPanicsInRun`). In every other case order, single flight and
  transmission hold in all runs that follow (`RestartRun.RestartedChainGoesOn`). Any record, also a bounced one, loses
  its retry delay (`RestartRun.ThrottleSurvivesRestart`, `Genesis.RestartSends`). `RestartRun.RestartIsUnsafe` gives a
  run that gets there.
- A restart forgets pending updates. After the block of the changeover some can be pending, and then the set handed
  over is no longer the one the provider means (`RestartRun.RestartLosesPendingUpdates`).
- A restart forgets that the chain was standalone, so infractions from before the changeover go to the provider
  (`RestartRun.RestartForgetsStandalone`).
- A denomination whose segments are all port and channel pairs is printed with a slash behind it (`Denoms.PrintParsed`).
- A native denomination of two segments, the second a channel identifier, is not recognised after its hop
  (`Denoms.HopIsUndone`).
- With zero historical entries nothing is pruned (`ReplicationRun.WindowNeedsAnEntry`), whatever the comment on the
  loop suggests. Valid parameters exclude zero (x/ccv/types/params.go:146), so only a genesis that was not validated
  gets there.
- Before the transmission channel is known, provider denominations are allowed unhashed (`Denoms.VoucherIsHashed`).

## Model

| member | source | states |
|---|---|---|
| ThrottleRun.SingleFlight | x/ccv/consumer/keeper/relay.go:153-241 | In every reachable state with an open channel, the unacknowledged slash packets number one if a record waits for a reply and none otherwise; a record means that the head of the queue is that very slash packet. |
| ThrottleRun.BounceFindsRecord | x/ccv/consumer/keeper/throttle_retry.go:71-79 | In every reachable state no acknowledgement, in whatever order acknowledgements arrive, reaches the panic of the bounce handler. |
| ThrottleRun.FifoConservation | x/ccv/consumer/keeper/keeper.go:474-573 | In every reachable state all packets ever enqueued are the retired ones followed by the live queue, in order: none lost, duplicated or overtaken, also when a send fails midway or packets are enqueued while waiting. |
| ThrottleRun.RetirementCause | x/ccv/consumer/keeper/relay.go:194-241 | A packet leaves the queue only at the end of a block, then being a matured packet that went out on the channel in that very step, or by the acknowledgement (V1 or handled) of that very slash packet; every other step retires nothing. |
| ThrottleRun.TransmissionsInOrder | x/ccv/consumer/keeper/relay.go:153-203 | Over a whole run transmissions go in the order of enqueueing, and every retired packet was transmitted. |
| ThrottleRun.RetrySpacing | x/ccv/consumer/keeper/throttle_retry.go:48-69 | Between a transmission of a slash packet and the next one of the same packet its bounce was processed, and block time advanced by strictly more than the retry delay in force at the second. |
| ThrottleRun.DowntimeAccounting | x/ccv/consumer/keeper/relay.go:101-126 | Per validator and run, downtime requests enqueued minus clears of a set flag is 0 or 1, and 1 exactly when the flag is set. |
| ProgressRun.SendsExactly | x/ccv/consumer/keeper/relay.go:153-203 | At the end of a block something goes out if and only if the channel is open and established, a packet waits, IBC accepts the first attempt, and there is no record, or a bounced one with block time beyond send time plus delay; which packets go out, under which positions and at what time, and the only reasons to stop. |
| ProgressRun.SendingLeaves | x/ccv/consumer/keeper/relay.go:181-202 | What sending leaves: matured packets that went out are gone, a slash packet that went out heads the queue with a waiting record of the block's time, and otherwise the record is as before. |
| ProgressRun.AcknowledgesExactly | x/ccv/consumer/keeper/relay.go:208-269 | In every reachable state an acknowledgement takes its packet out of flight if and only if it is one result byte for a matured packet, byte 1, 2 or 3 for a slash packet, or an error on an established channel that can be closed; any other one changes nothing. |
| ProgressRun.AcknowledgementsDo | x/ccv/consumer/keeper/relay.go:219-264 | What these do: a bounce ends the wait and keeps packet and send time, V1 and handled retire the head and clear the record, a matured packet's reply changes nothing, an error closes the channel. |
| ProgressRun.ReceivesExactly | x/ccv/consumer/keeper/relay.go:28-98 | A validator set packet is received if and only if its data are valid and its channel is the first or the established one; then the receipt, the id of the next height, and the flags of exactly the validators it acknowledges fall; otherwise nothing changes. |
| ProgressRun.QueuesExactly | x/ccv/consumer/keeper/validators.go:135-173 | In every reachable state a request is queued if and only if its kind is specified, a provider-derived set governs its height, and it is no downtime request of a validator with one outstanding; the queued packet in full. |
| ProgressRun.FlagsFallExactly | x/ccv/consumer/keeper/validators.go:54-68 | At the end of a block the flags of exactly those validators fall that were absent from the set and are in it now. |
| ProgressRun.ReturnsExactly | x/ccv/consumer/module.go:190-217 | The list a block returns: nothing without pending changes, otherwise exactly the pending updates that do not remove an absent validator, in canonical order; at the changeover the initial set and zero powers for exactly the other standalone validators. |
| ConsumerSpec.SendPrefix | x/ccv/consumer/keeper/relay.go:161-200 | The number of packets sent: all attempts before it accepted, only the last a slash packet, and stopped by the end of the queue, by a refusal or by a slash packet. |
| ConsumerSpec.SendPrefixUnique | x/ccv/consumer/keeper/relay.go:161-200 | Those four facts determine that number. |
| Keeper.Keeper.SendPackets | x/ccv/consumer/keeper/relay.go:153-203 | The store after the sending loop: sent matured packets gone, a sent slash packet still at the head with a fresh record, and exactly which packets were sent. |
| Keeper.Keeper.SendFront | x/ccv/consumer/keeper/relay.go:160-201 | The loop itself: what is sent, the indexes to delete, the record. |
| Keeper.Keeper.PacketSendingPermitted | x/ccv/consumer/keeper/throttle_retry.go:48-60 | The three cases: true without a record, false while a reply is awaited, and otherwise true exactly if block time exceeds send time plus delay. |
| Keeper.Keeper.UpdateSlashRecordOnBounce | x/ccv/consumer/keeper/throttle_retry.go:71-79 | Clears only the waiting flag; reports the missing record on which the code panics. |
| Keeper.Keeper.OnAcknowledgementPacket | x/ccv/consumer/keeper/relay.go:208-269 | Exactly which acknowledgements succeed and which reach the panic, by byte, packet and channel; what each does to record and queue; which channels are closed. |
| Keeper.Keeper.QueueSlashPacket | x/ccv/consumer/keeper/relay.go:101-126 | Stores the request under the next index and sets the flag, unless a downtime request of the validator is outstanding; it is the last of the queue as long as the index has not wrapped around. |
| Keeper.Keeper.AppendPendingPacket | x/ccv/consumer/keeper/keeper.go:474-483 | The packet is stored under the stored index, which is incremented and wraps around; it is the last of the queue unless the index has wrapped around while packets wait. |
| Keeper.Keeper.GetAllPendingPacketsWithIdx | x/ccv/consumer/keeper/keeper.go:517-538 | Store iteration yields the live queue in order, each packet with its index. |
| Keeper.Keeper.DeletePendingDataPackets | x/ccv/consumer/keeper/keeper.go:541-546 | Removes what is stored under any given indexes; the leading ones leave the rest of the queue. |
| Keeper.Keeper.DeleteHeadOfPendingPackets | x/ccv/consumer/keeper/keeper.go:486-494 | Removes the head, or nothing from an empty queue. |
| Keeper.QueueStoreEntries | x/ccv/consumer/keeper/keeper.go:562-573 | The stored entries of a queue: exactly the keys of a contiguous index interval, each holding its packet. |
| Keeper.QueueStoreIteration | x/ccv/consumer/keeper/keeper.go:517-538 | Iterating these entries goes through the indexes in order. |
| Keeper.QueueStoreTail | x/ccv/consumer/keeper/keeper.go:486-494 | Deleting the first key leaves the entries of the tail. |
| StoreKeys.BigEndianOrder | x/ccv/consumer/types/keys.go:271-275 | Byte order of fixed-width big-endian numbers is numeric order. |
| StoreKeys.KeyFamiliesKeepOrder | x/ccv/consumer/types/keys.go:271-299 | Under their prefixes, queue and height keys are ordered as their numbers, which can be read back. |
| StoreKeys.HistoricalKeyOrder | x/ccv/consumer/types/keys.go:259-263 | Historical keys keep the order of heights exactly among heights of one sign; negative ones come last. |
| StoreKeys.AppendedComesLast | x/ccv/consumer/keeper/keeper.go:474-483 | A packet stored under an index is last in iteration exactly if all live indexes are smaller: first-in first-out until the uint64 index wraps. |
| StoreKeys.AscendingKeys | x/ccv/consumer/keeper/keeper.go:517-538 | A store iterator: every key once, in ascending byte order. |
| StoreKeys.AscendingHeights | x/ccv/consumer/keeper/keeper.go:367-383 | The height map is listed in numeric order of heights. |
| StoreKeys.AscendingByAddress | x/ccv/consumer/keeper/keeper.go:458-470 | Iterating over what is stored under addresses lists it in the byte order of the addresses. |
| ReplicationRun.ReplicationFollowsProvider | x/ccv/consumer/keeper/relay.go:58-68 | After every block the cross-chain set is the initial set with every update of every packet received applied in order, although only accumulated lists are applied; in the block of the changeover the updates stay pending for one block. |
| ReplicationRun.ShadowSetAgrees | x/ccv/consumer/keeper/validators.go:26-78 | In every run every list handed to the consensus engine is acceptable to it (no key twice, removals only of present validators), and the set in effect two blocks later is the stored one. |
| ReplicationRun.ChangeoverPipeline | x/ccv/consumer/keeper/changeover.go:10-59 | The sets in effect are known for every height from the first block of the run to two blocks ahead. At every such height and every earlier one the changeover is reported complete exactly if a provider-derived set is in effect there; that set is the stored one of two blocks before, and otherwise it is the standalone set; the changeover branch runs once, and only on a formerly standalone chain. |
| ReplicationRun.InfractionsFollowTheSet | x/ccv/consumer/keeper/validators.go:135-173 | Whatever height a request names, also one before the upgrade, it goes to the standalone keeper exactly if the standalone set governed there. |
| ReplicationRun.JailQueryFollowsTheSet | x/ccv/consumer/keeper/validators.go:98-108 | The jail query asks the standalone keeper exactly if the standalone set is in effect at the current height, inside a block and at its beginning. |
| ReplicationRun.HeightMapMeaning | x/ccv/consumer/module.go:173-176 | The id stored for a height is that of the last packet received in an earlier block, or 0. |
| ReplicationRun.RequestCarriesLastId | x/ccv/consumer/keeper/validators.go:135-173 | A slash request for height k carries the id of the last packet received before block k, whether it comes inside a block or at its beginning, and also for the negative heights asked about near genesis. |
| ReplicationRun.HeightMapFrozen | x/ccv/consumer/module.go:173-176 | However a run goes on, entries up to the current height never change. |
| ReplicationRun.HeightMapMonotone | x/ccv/consumer/keeper/relay.go:70-73 | If the provider numbers its packets in increasing order, the map is monotone. |
| ReplicationRun.HistoryIsWindow | x/ccv/consumer/keeper/validators.go:252-312 | In every reachable state the stored heights are one interval ending at the current height, each holding the set at the end of the block before. |
| ReplicationRun.WindowExact | x/ccv/consumer/keeper/validators.go:252-312 | With n >= 1 entries kept, tracking at height H leaves exactly max(previous lowest, H-n+1) to H: contiguous and at most n, which justifies stopping at the first missing entry. |
| ReplicationRun.WindowNeedsAnEntry | x/ccv/consumer/keeper/validators.go:263-285 | The window ends at the current height exactly if n >= 1; with n = 0 nothing is pruned at all. |
| Valset.AccumulateChanges | x/ccv/types/utils.go:24-51 | The merged list holds exactly the updates that are the last for their key, neighbours with decreasing powers, or equal powers and decreasing keys, whatever order the map iterates in. |
| Valset.CanonicalMeans | x/ccv/types/utils.go:36-49 | The merged list, said without maps and orders: neighbours have decreasing powers, or equal powers and decreasing keys, and its members are exactly the updates written last. |
| Valset.CanonicalUnique | x/ccv/types/utils.go:36-49 | That order leaves only one list with these entries. |
| Valset.AccumulatedByLastWrite | x/ccv/types/utils.go:24-51 | Lists with the same last writes accumulate to the same list. |
| Valset.AccumulateInBatches | x/ccv/types/utils.go:24-51 | Accumulating in two steps equals accumulating once, as exact list equality. |
| Valset.AccumulatedRefinesInOrder | x/ccv/consumer/keeper/relay.go:58-68 | Applying the accumulated list gives the same powers as applying both lists one after the other. |
| Valset.EngineFollowsStore | x/ccv/consumer/keeper/validators.go:26-78 | The forwarded list of a list without duplicate keys is acceptable to an engine that has the stored set and takes it to the new stored set. |
| Valset.ChangeoverReplacesSet | x/ccv/consumer/keeper/changeover.go:34-53 | The changeover list is acceptable to an engine with the standalone set and replaces that set by the initial one. |
| Valset.CreatedAbsent | x/ccv/consumer/keeper/validators.go:54-68 | For a list without duplicate keys the created validators are those with positive power that were absent. |
| Valset.AppliedExactly | x/ccv/consumer/keeper/validators.go:26-78 | After a list is applied a validator is present with exactly the power it was given last, if positive, or its old one if it was given none. |
| Valset.ForwardedExactly | x/ccv/consumer/keeper/validators.go:26-78 | What is forwarded to the engine is exactly the list without removals of absent validators. |
| Valset.ForwardedInOrder | x/ccv/consumer/keeper/validators.go:26-78 | It keeps the canonical order. |
| Valset.RetiredMembers | x/ccv/consumer/keeper/changeover.go:45-53 | The updates appended at a changeover are zero powers for exactly the standalone validators that the initial set does not name. |
| Valset.RetiredInOrder | x/ccv/consumer/keeper/changeover.go:45-53 | They come in the order in which the standalone module lists its validators. |
| Keeper.Keeper.OnRecvVSCPacket | x/ccv/consumer/keeper/relay.go:28-98 | Exactly when a packet is processed, rejected or panics; then the channel, the pending changes, the id of the next height, and the flags of exactly the acknowledged validators cleared. |
| Keeper.Keeper.ApplyCCValidatorChanges | x/ccv/consumer/keeper/validators.go:26-78 | The stored set, the cleared flags of created validators, and the forwarded list. |
| Keeper.Keeper.ChangeoverToConsumer | x/ccv/consumer/keeper/changeover.go:30-59 | The initial set stored, the returned list with zero powers for the other standalone validators, the mark removed. |
| Keeper.RetireStandalone | x/ccv/consumer/keeper/changeover.go:36-53 | The two loops over the flags append exactly the standalone validators that the initial set does not name. |
| Keeper.Keeper.TrackHistoricalInfo | x/ccv/consumer/keeper/validators.go:252-312 | The pruning loop and the new entry. |
| Keeper.Keeper.SlashWithInfractionReason | x/ccv/consumer/keeper/validators.go:135-173 | Which keeper is asked, the state after it, and exactly what is stored under which index. |
| Keeper.Keeper.IsValidatorJailed | x/ccv/consumer/keeper/validators.go:98-108 | The outstanding flag once the changeover is complete, and the standalone answer before. |
| Keeper.Keeper.BeginBlock | x/ccv/consumer/module.go:162-184 | The height map carried over to the next height, and the window. |
| Keeper.Keeper.EndBlock | x/ccv/consumer/module.go:190-217 | The order in which changeover, sending and flushing compose, and the list returned. |
| RestartRun.RunningChainRestarts | x/ccv/consumer/keeper/genesis.go:157-211 | For every reachable state: exporting, importing and exporting again gives the same, but for the downtime flags of validators in the set; equal exactly if there are none or no channel. |
| RestartRun.RestartHandsOverSet | x/ccv/consumer/keeper/genesis.go:24-154 | The list given to a new engine on restart is acceptable and is the set that the chain had stored. |
| RestartRun.RestartLosesPendingUpdates | x/ccv/consumer/keeper/genesis.go:157-211 | Between blocks the set handed over is the initial one with every received update applied exactly if nothing is pending or what is pending changes nothing; before the block of the changeover it is empty; nothing stays pending. |
| RestartRun.RestartForgetsStandalone | x/ccv/consumer/keeper/genesis.go:157-211 | After a restart every slash request goes to the provider and the changeover counts as complete at every height; before it exactly where the changeover is complete. |
| Genesis.RestartKeeps | x/ccv/consumer/keeper/genesis.go:113-154 | Everything a restart keeps and everything it forgets: the slash record, pending changes and changeover marks are gone, and the flags of re-created validators are cleared. |
| Genesis.RestartRoundTrip | x/ccv/consumer/keeper/genesis.go:157-211 | Second export equals the first exactly if no validator of the set has an outstanding flag, or there is no channel. |
| Genesis.ExportValidates | x/ccv/consumer/types/genesis.go:82-174 | An enabled chain can be exported exactly if a channel comes with a client. The export is valid exactly if there is no client, so that it is the default one, or the set is not empty, the parameters are valid, the client is named and no matured packet waits without a channel. |
| Genesis.ValidatesExactly | x/ccv/consumer/types/genesis.go:82-174 | Which documents pass, as an if-and-only-if with every field: a disabled one; an initial genesis with valid provider states, or with a valid connection in their place; a restart genesis with a client and, without a channel, no flags, last transmission or matured packets. |
| Genesis.NewChainStarts | x/ccv/consumer/keeper/genesis.go:31-106 | The whole state after the genesis of a new chain, changeover included: parameters, client, id 0 for the first height, and exactly the positive powers of the initial set, or that set kept for later. |
| Genesis.ExportedExactly | x/ccv/consumer/keeper/genesis.go:157-211 | When an export exists and what it holds, field by field: validators, heights and flags exactly, each list in strict order; defaults for a chain that is disabled or without client and channel. |
| Genesis.RestartSends | x/ccv/consumer/keeper/genesis.go:113-147 | At a given time the export and import change what is sent exactly if packets wait on a channel and the record, waiting or within its retry delay, forbids sending. |
| Genesis.RestartResends | x/ccv/consumer/keeper/genesis.go:157-211 | Over all times and answers of IBC, what is sent is the same after a restart exactly if there is no record, no channel or no packet. |
| Genesis.RestartPanics | x/ccv/consumer/keeper/throttle_retry.go:71-79 | After a restart an acknowledgement reaches the panic of the bounce handler exactly if it is the bounce of a slash packet. |
| RestartRun.ThrottleSurvivesRestart | x/ccv/consumer/keeper/genesis.go:157-211 | On a running chain the throttle survives a restart exactly if there is no slash record. |
| RestartRun.RestartKeepsInvariant | x/ccv/consumer/keeper/genesis.go:157-211 | After a restart the order of the queue and its single flight hold exactly if no reply was awaited on an open channel, and all that the throttle relies on, retry spacing included, exactly if there was no record; the order of past transmissions and the account of downtime flags hold in any case. |
| RestartRun.RestartedChainGoesOn | x/ccv/consumer/keeper/genesis.go:113-147 | Restarted while no reply is awaited on an open channel, a chain conserves its queue in order, retires only what it transmitted, has at most one slash packet in flight, never panics and accounts for downtime requests, in every legal run that follows; without a record retries stay spaced too. |
| RestartRun.BouncePanicsAfterRestart | x/ccv/consumer/keeper/throttle_retry.go:71-79 | Some acknowledgement of a packet in flight makes the bounce handler panic after a restart exactly if the chain was waiting for a reply; without the restart there is none. |
| RestartRun.RestartLosesPacket | x/ccv/consumer/keeper/relay.go:194-232 | A restart between blocks can be followed by a legal run that retires a packet never transmitted if and only if a reply was awaited on an open channel. |
| RestartRun.HeldBackIsLost | x/ccv/consumer/keeper/relay.go:194-232 | The run that loses it: a request joins the queue, the packet in flight is sent again, and both its replies arrive. |
| RestartRun.RestartPanicsInRun | x/ccv/consumer/keeper/throttle_retry.go:71-79 | A restart between blocks can be followed by a legal run in which the bounce handler panics if and only if a reply was awaited on an open channel. |
| RestartRun.FlightIsReachable | x/ccv/consumer/keeper/relay.go:153-203 | A concrete run of five steps from a new chain that ends with a slash packet in flight and another behind it. |
| RestartRun.RestartIsUnsafe | x/ccv/consumer/keeper/genesis.go:157-211 | So there is a reachable chain that, restarted, meets the panic and loses a packet that was never sent. |
| Keeper.Keeper.InitGenesis | x/ccv/consumer/keeper/genesis.go:24-154 | The state, the stored packets and the updates returned for each kind of genesis; the panics on a missing client and on a channel that cannot be opened. |
| Keeper.Keeper.ImportRestart | x/ccv/consumer/keeper/genesis.go:113-147 | Channel, flags, packets in order under successive indexes, heights and client restored by the loops. |
| Keeper.Keeper.ExportGenesis | x/ccv/consumer/keeper/genesis.go:157-211 | The exported document, validators and flags in the order of their addresses and heights in numeric order. |
| Allocation.Distribution.AllocateTokens | x/ccv/democracy/distribution/module.go:86-150 | Each bonded validator accrues the reward of its own tokens and no other validator accrues anything; the fees leave the account, and rewards and pool increase add up to the fees exactly, per denomination; nothing ever goes negative. |
| Allocation.RewardsOfEach | x/ccv/democracy/distribution/module.go:128-138 | With distinct names, what a validator is allocated is the reward of its own tokens, and nothing if it is not bonded. |
| Allocation.RewardsAddUp | x/ccv/democracy/distribution/module.go:128-138 | The total that leaves the representatives' part is the sum of these rewards. |
| Allocation.RewardsWithinShare | x/ccv/democracy/distribution/module.go:128-138 | Rewards never exceed the representatives' part, so what remains is never negative. |
| Allocation.PoolExcessBounded | x/ccv/democracy/distribution/module.go:128-146 | With all bonded tokens held by n validators, the pool gets at least the tax, and less than n*(fees*(1-tax)+1) smallest units more. |
| Allocation.RewardBounds | x/ccv/democracy/distribution/module.go:131-135 | The two truncations of one reward, each less than one unit. |
| Allocation.CancelFactor | x/ccv/democracy/distribution/module.go:132 | The quotient of two scaled integers is the plain truncated quotient. |
| Ledger.LedgerConservation | x/ccv/consumer/keeper/distribution.go:23-158 | In every run and denomination: collected = with the collector + redistributed + waiting + in transit + delivered; redistributed is the sum of the rounded-down fractions of each block's fees, refunds never being split again; attempts are at least the period apart. |
| Ledger.AttemptsExactly | x/ccv/consumer/keeper/distribution.go:23-47 | In every run an attempt is made at the end of a block if and only if the period has passed since the last one, and it leaves the block's height behind. |
| Ledger.ConsumerPartExact | x/ccv/consumer/keeper/distribution.go:62-65 | The rounded product followed by truncation is floor(fees*fraction), never more than the fees. |
| Ledger.OwedExactly | x/ccv/consumer/keeper/distribution.go:121-158 | One transfer of the whole balance for each allowed denomination that has one, in the order of the list, each once. |
| Ledger.OwedCount | x/ccv/consumer/keeper/distribution.go:121-158 | As many transfers as allowed denominations with a balance. |
| Ledger.OwedConserves | x/ccv/consumer/keeper/distribution.go:121-158 | A successful attempt turns the whole balance of every allowed denomination into transfers of the same amount and touches no other. |
| Ledger.RewardKeeper.EndBlockRD | x/ccv/consumer/keeper/distribution.go:23-47 | Split, then an attempt exactly if the period has passed; everything owed is sent, or nothing moves beyond the split; either way the height of the attempt is kept. |
| Ledger.RewardKeeper.SendRewardsToProvider | x/ccv/consumer/keeper/distribution.go:102-178 | Success exactly if the channel is not open, or the memo is fine and as many transfers are accepted as allowed denominations have a balance; then what is owed is under way and those balances are zero. |
| Ledger.RewardKeeper.DistributeRewardsInternally | x/ccv/consumer/keeper/distribution.go:52-90 | The collected fees split without remainder. |
| Ledger.RewardKeeper.GetEstimatedNextFeeDistribution | x/ccv/consumer/keeper/distribution.go:251-279 | The estimate is what the next split does with the fees collected so far, and adds up to them. |
| Varint.EncodeVarintWire | x/ccv/types/wire.pb.go:1012-1022 | Writes exactly the varint so that it ends at the offset, and no other byte. |
| Varint.SovWireIsLength | x/ccv/types/wire.pb.go:1188-1190 | The length computed from the number of bits is the length of the varint (section "Base 128 Varints" of Protocol Buffers Encoding). |
| Varint.DecodeUint64 | x/ccv/types/wire.pb.go:1194-1215 | Reading an encoded number gives it back, for every 64-bit number and wherever it stands. |
| Varint.DecodeIsUint64 | x/ccv/types/wire.pb.go:1194-1215 | Whatever is read fits 64 bits: ten bytes at most, one bit of the tenth. |
| Varint.DecodeMoved | x/ccv/types/wire.pb.go:1200-1215 | A varint reads the same wherever its bytes stand; what follows does not matter. |
| Varint.EncodedBits | x/ccv/types/wire.pb.go:1012-1022 | The varint of a number byte by byte: its j-th seven bits, the top bit set on all but the last byte, and no byte too many. |
| Varint.DecodedLength | x/ccv/types/wire.pb.go:1200-1215 | Reading ends behind the first byte with a clear top bit, the tenth at the latest. |
| Varint.DecodedBits | x/ccv/types/wire.pb.go:1200-1215 | Each byte read holds the next seven bits of the value, the tenth byte only its last one. |
| Varint.DecodeFails | x/ccv/types/wire.pb.go:1200-1215 | It overflows exactly on ten bytes with the top bit set, and hits the end exactly on fewer with nothing behind; it fails in no other way. |
| Varint.ReadVarint | x/ccv/types/wire.pb.go:1200-1215 | The reading loop computes that value and next index, or the overflow or end-of-buffer error. |
| SkipWire.SkipsExactlyOneField | x/ccv/types/wire.pb.go:2032-2109 | Skipping ends inside the buffer at n if and only if the first n bytes are one well-formed field: varint, eight or four bytes, a length with as many bytes, or a balanced group of such fields. |
| SkipWire.SkipField | x/ccv/types/wire.pb.go:2032-2109 | At a well-formed field, at any depth, skipping goes on right behind it. |
| SkipWire.SkippedBlocks | x/ccv/types/wire.pb.go:2035-2100 | What is passed inside open groups is the rest of their fields and their end marks. |
| SkipWire.SkipFrom | x/ccv/types/wire.pb.go:2032-2109 | The index strictly increases. |
| SkipWire.SkipWire | x/ccv/types/wire.pb.go:2032-2109 | The loop with its depth counter, never reading beyond the buffer. |
| WireFields.ParseIsMeaning | x/ccv/types/wire.pb.go:1194-1328 | A byte string parses into given fields if and only if it is a sequence of well-formed fields and groups, with positive numbers, the right wire type where the number is known and nested messages that can be parsed, that mean these fields. |
| WireFields.NextField | x/ccv/types/wire.pb.go:1199-1322 | One round of the parsing loop: key checks, payload, unknown fields skipped, and each error. |
| WireFields.ToInt32Is | x/ccv/types/wire.pb.go:1215-1216 | A field number is the one signed 32-bit number that differs from the key by a multiple of 2^32. |
| WireEncoding.FieldsRoundTrip | x/ccv/types/wire.pb.go:667-701 | Parsing written fields gives them back, in order. |
| WireEncoding.UnknownFieldsAreTransparent | x/ccv/types/wire.pb.go:1308-1321 | Well-formed fields or groups with unknown numbers between any two fields leave the parsed message unchanged. |
| WireEncoding.FieldLength | x/ccv/types/wire.pb.go:1023-1045 | The size of a field as the size methods compute it. |
| WireEncoding.PutBytes | x/ccv/types/wire.pb.go:674-681 | Payload, length and key written backwards: exactly the encoded field, no other byte. |
| WireEncoding.PutNumber | x/ccv/types/wire.pb.go:682-686 | Number and key written backwards: exactly the encoded field, no other byte. |
| WireMessages.ValsetChangeRoundTrip | x/ccv/types/wire.pb.go:652-701 | An encoded validator set change whose updates can be parsed in turn parses into its fields, which merge into the message itself, for all lists, strings and ids. |
| WireMessages.ValsetChangeBytes | x/ccv/types/wire.pb.go:667-701 | The encoded message byte by byte: updates under 0x0a with their lengths, the id under 0x10 unless it is zero, acknowledgements under 0x1a. |
| WireMessages.UpdatesRoundTrip | x/ccv/types/wire.pb.go:1225-1258 | With any codec for single updates that gives back what it encodes, the parsed message holds the updates themselves, in order, with the id and the acknowledgements. |
| WireMessages.ValidatorSetChangePacketData.Size | x/ccv/types/wire.pb.go:1023-1045 | The size is the number of encoded bytes. |
| WireMessages.ValidatorSetChangePacketData.MarshalToSizedBuffer | x/ccv/types/wire.pb.go:667-701 | Writes exactly the encoded bytes at the end of the buffer and leaves the rest. |
| WireMessages.ValidatorSetChangePacketData.Marshal | x/ccv/types/wire.pb.go:652-660 | The whole buffer is the encoded message. |
| WireMessages.ValidatorSetChangePacketData.Unmarshal | x/ccv/types/wire.pb.go:1194-1328 | Merges exactly the parsed fields into the message: elements appended, the last number kept; or the first error, that of a nested update included. |
| WireMessages.ValsetChangeTakes | x/ccv/types/wire.pb.go:1225-1304 | What one more parsed field does to the message. |
| WireMessages.MaturedRoundTrip | x/ccv/types/wire.pb.go:703-729 | The same round trip for a matured packet. |
| WireMessages.MaturedBytes | x/ccv/types/wire.pb.go:718-729 | The encoded message: the id under 0x8, or nothing for zero. |
| WireMessages.VSCMaturedPacketData.Size | x/ccv/types/wire.pb.go:1047-1057 | The size is the number of encoded bytes. |
| WireMessages.VSCMaturedPacketData.MarshalToSizedBuffer | x/ccv/types/wire.pb.go:718-729 | Writes exactly the encoded bytes at the end of the buffer. |
| WireMessages.VSCMaturedPacketData.Unmarshal | x/ccv/types/wire.pb.go:1329-1397 | Merges exactly the parsed fields, or the parse error. |
| WireMessages.HandshakeRoundTrip | x/ccv/types/wire.pb.go:853-888 | The same round trip for handshake metadata. |
| WireMessages.HandshakeBytes | x/ccv/types/wire.pb.go:868-888 | The encoded message: address under 0xa and version under 0x12, each left out if empty. |
| WireMessages.HandshakeMetadata.Size | x/ccv/types/wire.pb.go:1115-1130 | The size is the number of encoded bytes. |
| WireMessages.HandshakeMetadata.MarshalToSizedBuffer | x/ccv/types/wire.pb.go:868-888 | Writes exactly the encoded bytes at the end of the buffer. |
| WireMessages.HandshakeMetadata.Unmarshal | x/ccv/types/wire.pb.go:1658-1771 | Merges exactly the parsed fields, the last string of a number counting, or the parse error. |
| Denoms.PrintParsed | x/ccv/types/denom_helpers.go:66-146 | Printing a parsed denomination gives it back, with a slash behind it exactly if all segments, at least four, are consumed as port and channel pairs. |
| Denoms.PrefixIsUndone | x/ccv/provider/ibc_middleware.go:323-340 | A denomination prefixed by the packet's source end comes back as the provider knows it, a native one unchanged. |
| Denoms.HopIsUndone | x/ccv/provider/ibc_middleware.go:323-351 | Sent under the full denomination that its voucher hashes, a reward denomination is recognised on the provider if and only if it is not of two segments with a channel identifier second. |
| Denoms.VoucherIsHashed | x/ccv/consumer/keeper/distribution.go:182-206 | A provider denomination is allowed by the hash of the prefixed denomination exactly if the transmission channel is a channel identifier, and otherwise, as before the handshake, as the prefixed denomination itself. |
| Denoms.OtherwisePrefixed | x/ccv/provider/ibc_middleware.go:341-350 | A denomination without the source prefix gets the destination end in front and is known by the hash of that, with a slash behind it if it is of pairs only; under a channel that is no identifier, by the prefixed name itself. |
| Denoms.VouchersDistinct | x/ccv/consumer/keeper/distribution.go:193-203 | With a hash without collisions, vouchers coincide exactly for equal denominations and, when hashed, for one of pairs only and the same with a slash behind it. |
| Denoms.PathIsLongestRun | x/ccv/types/denom_helpers.go:121-139 | The path is the one run of pairs, each with a channel identifier second, behind which no such pair follows; two segments or fewer are never a path. |
| Denoms.ExtractPathAndBaseFromFullDenom | x/ccv/types/denom_helpers.go:117-146 | The loop joins that run as the path and the rest as the base. |
| Denoms.ParseDenomTrace | x/ccv/types/denom_helpers.go:66-81 | The early return for a denomination without slash agrees with the general case. |
| Denoms.AllowedRewardDenoms | x/ccv/consumer/keeper/distribution.go:182-206 | Native denominations as they are, then the vouchers of the provider's, in order. |

## Left out

- WireMessages.ValidatorSetChangePacketData.Unmarshal: an update is kept as its byte string and its own codec is a parameter, because that message's code is not part of this model; nothing is stated about a message left half filled by an error, which callers discard.
- Keeper.Keeper.AppendPendingPacket: once the index has wrapped around while packets wait, the raw store and what was appended are described, but the store is no longer claimed to iterate as a queue; this goes for every method that appends.
- Keeper.Keeper.OnRecvVSCPacket: an address in a slash acknowledgement is either decoded or not; bech32 itself is not modelled.
- Keeper.Keeper.BeginBlock: the check for a closed channel only logs and is not modelled.
- Keeper.Keeper.OnAcknowledgementPacket: the JSON of the acknowledged packet is taken as decoded.
- Keeper.Keeper.EndBlock: the reward step of the same block is in `Ledger`, as it shares no store entries with the rest.
- Allocation.Distribution.AllocateTokens: the community tax and the bonded validators are arguments; that the bonded tokens sum to at most the total is the staking module's promise.
- Ledger.LedgerConservation: the redistribution account counts all coins credited to it, not what the allocation takes out later.
- The hook after a validator is bonded, events, logging, queries and the historical header besides the validator set.
- The provider's handling of slash packets and rewards: the provider is an environment that answers.
- The remaining generated codecs, which repeat the same pattern.
- Parameter validators, handshake checks, store migrations, command line, application wiring: single branches or code of other modules.
- Deriving a consensus address from a public key, sha256 and bech32: taken as injective.

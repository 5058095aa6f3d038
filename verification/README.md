# Sovereign node: parallel execution, erasure grid, packets and committees

A Dafny model of the node's hardest components, with the properties they are built for proved over
every input, every schedule and every reachable state. `dafny verify dfyconfig.toml` checks it.

## What is modelled

**The three execution engines** (`crates/consensus/src/parallel.rs`). `Transfers.Serial` is plain
one-at-a-time execution and copies the engines' own step: nonce check, balance check, debit and nonce
increment on the sender's copy, credit on the recipient's copy, sender stored before recipient, then
the simulated slot writes. The engines are methods over a `WitnessDatabase` object, and each is tied to
`Serial`:

* *Wave* splits the block by first fit (`Waves`, `FirstFit`), runs each wave from a snapshot and merges
  (`WaveEngine`). The comment in the code calls a wave collision-free. `WaveClashes` proves when that is
  so: an Ok run is serial execution in wave order if and only if no transfer changes an account that a
  later one of its wave touches. Declaring the two accounts a transfer writes is enough, and then errors
  are serial errors too (`WaveRefinement`). Wave order is not index order: `SenderOrder.WaveAgreesIff` says
  on which of the blocks that run in index order the wave run is Ok and ends in the same state, whatever the
  access lists declare. `WaveCounterexamples` has a block for each way to differ.
* *Pevm* is a state machine (`Pevm`) whose steps are one thread's atomic read, one join, and the end of
  a round. `PevmEngine.Execute` is the engine's loops with the threads' reads falling anywhere they can;
  it is proved to produce only runs of the machine. `PevmConvergence` has progress and convergence,
  `PevmTheorem` has serializability and the invariant of the multi-version store; `PevmJoins.JoinDefersIff`
  says in terms of the declared reads when a join defers its transfer. The code never
  validates a committed transfer again, so an Ok run can lose an update, and a thread that reads early
  fails the whole call (`PevmCounterexamples`); and a run can give up after 20 rounds on a block that is
  merely busy (`PevmStallExamples`). All three are stated exactly. A run is serial if and only if
  its commit order has no lost update. Over all schedules, `PevmExact.PevmAgreesIff` names the blocks on
  which none of them can happen: every transfer is admitted on the initial database (`PevmErrors`);
  whoever changes an account that a higher index touches is listed before it and can never have to wait
  (`PevmSafeBlocks`); and no plan of rounds holds a transfer back in all 20 of them (`PevmStalls`).
* *Grevm* is Wave with a witness trace (`Grevm`); `GrevmTrace` says of every Ok run exactly when the trace
  is sound, and `GrevmCounterexamples` has a run whose trace is not.

`Accounting` carries the ledger behind all three: nonces, balances modulo the machine widths, the last
writer of each slot, and the total, to which only transfers from an account to itself add.

**The erasure grid and the sampling loop** (`crates/network/src/das.rs`). The buffer is an array, the
field is the 256-element field of the Reed-Solomon library (reduction polynomial x^8 + x^4 + x^3 + x^2 + 1; that
it is a field is proved in `Gf256Field`), and a code is any parity matrix over it. The bottom rows of the grid are only encoded as parts of columns; that
they are codewords nevertheless, which `verify_chunk` relies on, is `Grid.EveryRowIsCodeword`; which wrong
byte it notices is `GridBytes.WrongByteInGrid`. The generator of the sampling loop keeps to odd rows and even
columns, so its pseudo-random phase never reaches three quarters of the grid (`SamplingCells`).

**Packets and blobs** (`crates/consensus/src/based_mesh.rs`, codecs of `crates/consensus/src/stateless.rs`).
SCALE codecs as functions, with round trips in front of any following bytes, canonicity,
truncation, and known bytes of each kind (`KnownBytes`). The blob guard admits 4096*31 bytes although element 0 holds the length and only 4095
elements hold payload; `Blob.AdmittedButLost` is a packet that is packed and cannot be unpacked, and the
round trip is proved exactly up to 4095*31 bytes.

**Committees** (`crates/consensus/src/subset_election.rs`, `crates/consensus/src/sync_committee.rs`). The
elected set without any order, when the iteration order of the hash set can matter, stability under a
change of the pool, what an accepted intent is backed by, and when two acceptances must share a voter.

## Conventions

* Arithmetic is that of the release profile: `u64` nonces and expiry times wrap, and the 256-bit `+=`
  wraps in every profile. `usize` is 64 bits.
* Databases are compared by lookup: a missing account is the default account, a missing slot is zero.
* A hash map or set that the code iterates is visited in an arbitrary order; no result depends on it
  unless a contract says so.
* Hash functions, the KZG commitment of a blob, DID resolution, signature checks, the registry's contents
  and the result of constructing a Reed-Solomon code are parameters. A poisoned registry lock is a parameter that is `None`.
* In a thread's result the simulated writes are left out where they are a function of the transfer alone.

## Model

| member | source | states |
|---|---|---|
| `Transfers.ApplyLookups` | crates/consensus/src/parallel.rs:165-216 | one transfer changes the sender, the recipient and the declared write slots as the engines do, and no other lookup; on a self-transfer the credited copy overwrites the debited one |
| `Transfers.SerialConcat` | crates/consensus/src/parallel.rs:154-218 | executing two lists one after the other is executing their concatenation, the first error included |
| `State.MissingAccount` | crates/consensus/src/stateless.rs:60-72 | an account that is not stored has no balance, nonce, code or hash |
| `Ordering.ApplyCommutes` | crates/consensus/src/parallel.rs:165-216 | two transfers that share no account and no written slot may be swapped: same acceptance, same database |
| `Ordering.OrderTheorem` | crates/consensus/src/parallel.rs:83-110 | order theorem: two orders of the same transfers that agree on every interfering pair both succeed with one database or both fail |
| `Accounting.SerialPosts` | crates/consensus/src/parallel.rs:165-178 | after any successful run each account is its initial value plus the totals of sends, debits and credits, modulo the machine widths |
| `Accounting.AccountsConfluent` | crates/consensus/src/parallel.rs:165-178 | any two orders of the same transfers that both succeed leave every account the same |
| `Accounting.NonceDiscipline` | crates/consensus/src/parallel.rs:166-175 | every transfer of a successful run carries the nonce its sender has reached, so a sender's nonces are consecutive and used once |
| `Accounting.SerialSlots` | crates/consensus/src/parallel.rs:181-189 | after a successful run a slot holds the value of its last writer, or its initial value if nobody wrote it |
| `Accounting.LastWriteStays` | crates/consensus/src/parallel.rs:181-189 | the last writer of a slot leaves the slot's own key plus one more than its index, wrapping |
| `Accounting.OrdersAgreeIffLastWritersAgree` | crates/consensus/src/parallel.rs:181-189 | two successful orders of the same transfers end in the same state exactly when every slot has the same last writer in both |
| `Accounting.ApplyConserves` | crates/consensus/src/parallel.rs:169-178 | a transfer to another account keeps the total, one to itself adds its value, and short of a total of 2^256 the credit does not wrap |
| `Accounting.SerialConserves` | crates/consensus/src/parallel.rs:169-178 | a successful run adds to the total exactly the values of its self-transfers, and every balance is the exact integer ledger |
| `Accounting.TotalKeptIff` | crates/consensus/src/parallel.rs:169-178 | short of a wrap, a successful run keeps the total if and only if all its self-transfers have the value 0 |
| `Waves.AnySlotIn` | crates/consensus/src/parallel.rs:89-110 | the slot loops find a conflict exactly when some declared slot is in the wave's map |
| `Waves.ExtendSlots` | crates/consensus/src/parallel.rs:119-124 | merging declared slots into the wave's map gives the union of the slots |
| `Waves.AccumulatedConflict` | crates/consensus/src/parallel.rs:83-110 | testing against the wave's accumulated sets is testing against each of its members |
| `Waves.ConflictsMeans` | crates/consensus/src/parallel.rs:83-110 | the conflict test, spelled out: some address or slot is written by one of the two and read or written by the other |
| `Waves.ConflictsWithSets` | crates/consensus/src/parallel.rs:83-110 | the inner test answers whether the transfer conflicts with some member of the wave |
| `Waves.FillWave` | crates/consensus/src/parallel.rs:71-127 | one pass of the outer loop takes, in list order, exactly the unprocessed transfers that conflict with nothing taken before them |
| `Waves.PartitionWaves` | crates/consensus/src/parallel.rs:67-131 | the partition loop ends for distinct indices and returns the first-fit waves |
| `FirstFit.PartitionTerminatesIffDistinct` | crates/consensus/src/parallel.rs:69-79 | the loop on `processed.len() < access_lists.len()` can end if and only if no index is repeated |
| `FirstFit.WavesCover` | crates/consensus/src/parallel.rs:71-128 | every transfer is placed exactly once |
| `FirstFit.WaveIsSound` | crates/consensus/src/parallel.rs:78-126 | no wave is empty, no two transfers of a wave conflict, and a wave keeps list order |
| `FirstFit.FirstFreeWave` | crates/consensus/src/parallel.rs:78-126 | every wave before a transfer's own holds an earlier-listed transfer it conflicts with |
| `FirstFit.WaveCount` | crates/consensus/src/parallel.rs:67-131 | the number of waves is at most one more than the number of earlier-listed conflicts of some transfer |
| `WaveEngine.SimulateWrites` | crates/consensus/src/parallel.rs:180-189 | the slot loops write `slot + tx_index + 1`, wrapping, to exactly the declared slots |
| `WaveEngine.RunThread` | crates/consensus/src/parallel.rs:163-198 | on the snapshot's accounts, a wrong nonce is an error before a short balance is; otherwise the sender is debited with its nonce one higher, and the recipient's own snapshot copy credited |
| `WaveEngine.JoinHandles` | crates/consensus/src/parallel.rs:202-205 | joining in order gives all results or the first error |
| `WaveEngine.MergeResult` | crates/consensus/src/parallel.rs:209-216 | merging inserts the sender, then the recipient, then the slots |
| `WaveEngine.ExecuteWave` | crates/consensus/src/parallel.rs:154-217 | a wave is merged whole, or leaves the database as it was and reports the first error |
| `WaveEngine.Execute` | crates/consensus/src/parallel.rs:147-221 | the wave engine computes the specified run of the first-fit waves |
| `WaveRefinement.WaveIsSerial` | crates/consensus/src/parallel.rs:158-217 | a wave in which no transfer changes an account that a later one touches is, run from a snapshot, the wave run one transfer at a time, errors included |
| `WaveRefinement.WavesIndependent` | crates/consensus/src/parallel.rs:155-157 | with declared footprints no two transfers of a wave interfere |
| `WaveRefinement.WavesNoClash` | crates/consensus/src/parallel.rs:155-157 | with declared footprints no transfer of a wave changes an account that a later one of the wave touches |
| `WaveRefinement.WavesAreSerial` | crates/consensus/src/parallel.rs:152-220 | wave refinement, for waves without clashes: Ok is serial execution of the concatenated waves; on an error the database is serial execution of exactly the merged waves and serial execution fails with that error in the next one |
| `WaveClashes.WavePosts` | crates/consensus/src/parallel.rs:158-216 | after a merge each account is the snapshot's with the contribution of the last transfer to touch it, and no other |
| `WaveClashes.WaveSerialIff` | crates/consensus/src/parallel.rs:158-217 | merging a wave from its snapshot is running it serially if and only if no transfer of it changes an account that a later one touches |
| `WaveClashes.RanSeriallyIff` | crates/consensus/src/parallel.rs:152-220 | an Ok run of any waves is serial execution of their concatenation if and only if no wave clashes |
| `WaveClashes.SerialStateNoClash` | crates/consensus/src/parallel.rs:158-217 | an Ok run of any waves that ends where some serial order of their transfers ends had no clash |
| `WaveClashes.WaveRunSerialIff` | crates/consensus/src/parallel.rs:147-221 | an Ok run of a block, whatever its access lists declare, is serial in wave order if and only if none of its first-fit waves clashes |
| `WaveClashes.WaveRunOkAndSerialIff` | crates/consensus/src/parallel.rs:147-221 | the wave run of a block is Ok and serial in wave order if and only if no wave clashes and serial execution in wave order succeeds |
| `WaveRefinement.AnyOrderInsideWaves` | crates/consensus/src/parallel.rs:158-217 | any order inside each wave has the same outcome |
| `WaveRefinement.WavesComputeIndexOrder` | crates/consensus/src/parallel.rs:83-218 | with declared footprints, when the waves keep index order on conflicting pairs, the wave engine is serial execution in index order, failures included |
| `WaveRefinement.WavesVersusIndexOrder` | crates/consensus/src/parallel.rs:83-218 | without clashes, when both succeed, the wave run and serial execution in index order agree on every account, and on the whole state if and only if each slot has the same last writer |
| `SenderOrder.ReorderedOkIff` | crates/consensus/src/parallel.rs:165-175 | given that one order of the transfers succeeds, another succeeds if and only if it keeps every sender's own transfers in that order, pairs of self-transfers aside, and each transfer is covered by its sender's first balance and the ledger before it |
| `SenderOrder.FundedIsCovered` | crates/consensus/src/parallel.rs:173-175 | senders that can pay for all they send without any credit are covered in every order |
| `SenderOrder.WavesOkIff` | crates/consensus/src/parallel.rs:112-126 | without clashes, and given that index order succeeds, the wave run is Ok if and only if the waves keep every sender's own transfers in index order, pairs of self-transfers aside, and cover each transfer |
| `SenderOrder.WaveAgreesIff` | crates/consensus/src/parallel.rs:147-221 | the wave engine against index order, whatever the access lists declare: on a block that index order runs, the wave run is Ok and ends in the same state if and only if no wave clashes, each sender's order is kept, each transfer is covered, and each slot keeps its last writer |
| `WaveRefinement.WavesConserve` | crates/consensus/src/parallel.rs:169-217 | without clashes, on Ok and on Err the total grows by the self-transfers of the merged waves only, and every balance is the exact ledger of the merged waves, so no credit wraps |
| `WaveRefinement.WaveNonces` | crates/consensus/src/parallel.rs:166-175 | without clashes, in wave order of an Ok run each transfer carries the nonce its sender has reached |
| `WaveRefinement.FinalNonces` | crates/consensus/src/parallel.rs:166-210 | without clashes, after an Ok run each account's nonce is its initial one plus the number of transfers it sent to others |
| `WaveCounterexamples.WaveOrderIsNotIndexOrder` | crates/consensus/src/parallel.rs:112-126 | a block whose waves overtake a deferred transfer: both runs succeed and end with different slots |
| `WaveCounterexamples.DeferredNonceFails` | crates/consensus/src/parallel.rs:112-126 | a declared block whose waves run a sender's second transfer before its deferred first one: the wave run fails where index order succeeds |
| `WaveCounterexamples.DeferredCreditFails` | crates/consensus/src/parallel.rs:112-126 | a declared block whose waves run a transfer before the deferred credit that pays for it: the wave run fails where index order succeeds |
| `WaveCounterexamples.UndeclaredFootprintFails` | crates/consensus/src/parallel.rs:83-110 | without declared footprints two transfers of one sender share a wave and the run fails where serial execution succeeds |
| `Grevm.RunTracedThread` | crates/consensus/src/parallel.rs:526-566 | the traced thread computes what the wave thread does and records what it read and wrote |
| `Grevm.ExecuteTracedWave` | crates/consensus/src/parallel.rs:521-586 | a traced wave is merged whole with its records, or leaves the database as it was |
| `Grevm.Execute` | crates/consensus/src/parallel.rs:511-591 | Grevm has the result and the database of the wave engine on every input, and its trace records the merged waves |
| `GrevmTrace.SerialTraceFaithful` | crates/consensus/src/parallel.rs:529-557 | the trace of a serial run explains every read and the final state exactly when nobody pays themselves |
| `GrevmTrace.WaveTraceIff` | crates/consensus/src/parallel.rs:521-586 | the records of one wave explain its merge if and only if the wave is replayable: no self-transfer, no transfer behind one whose sender it touches, and the last before a transfer to touch its sender pays nothing |
| `GrevmTrace.NonceDriftRun` | crates/consensus/src/parallel.rs:516-590 | a replayed nonce that is off at the start of a wave makes the rest of the trace unsound: it is read, or stays off to the end |
| `GrevmTrace.GrevmTraceSound` | crates/consensus/src/parallel.rs:516-590 | trace soundness: on every Ok run every READ agrees with the WRITEs before it and replaying the WRITEs gives the final state, if and only if every wave is replayable, whatever the access lists declare |
| `GrevmTrace.TraceSoundWithoutClashes` | crates/consensus/src/parallel.rs:516-590 | so without clashes the trace is sound if and only if no transfer goes from an account to itself |
| `GrevmCounterexamples.TraceContradictsItself` | crates/consensus/src/parallel.rs:526-566 | an Ok run without self-transfers whose trace is unsound: an account is paid and pays in one wave |
| `GrevmCounterexamples.LostCreditIsTraced` | crates/consensus/src/parallel.rs:568-586 | a clashing wave that loses a credit and whose trace is sound all the same |
| `Mvcc.ScanBack` | crates/consensus/src/parallel.rs:252-256 | the reverse scan finds the last version whose writer is below the reader |
| `Mvcc.PutVersion` | crates/consensus/src/parallel.rs:277-283 | `position`, then overwrite or push and sort, is the specified insertion |
| `Mvcc.MvccState.ReadAccountVersion` | crates/consensus/src/parallel.rs:250-259 | reads the latest lower version, else the backing account under the version `usize::MAX` |
| `Mvcc.MvccState.ReadStorageVersion` | crates/consensus/src/parallel.rs:261-274 | reads the latest lower version, else the backing slot or zero |
| `Mvcc.MvccState.WriteAccountVersion` | crates/consensus/src/parallel.rs:276-284 | puts one version in one account's list and changes nothing else |
| `Mvcc.MvccState.WriteStorageVersion` | crates/consensus/src/parallel.rs:286-294 | puts one version in one slot's list and changes nothing else |
| `Mvcc.MvccState.ClearTransaction` | crates/consensus/src/parallel.rs:296-303 | removes exactly the versions of one transaction, from every list |
| `Mvcc.ClearRemoves` | crates/consensus/src/parallel.rs:296-303 | clearing removes from every list the versions of one transaction and no others |
| `Mvcc.LatestBelowSorted` | crates/consensus/src/parallel.rs:250-258 | in a sorted list the reverse scan returns the greatest writer below the reader |
| `Mvcc.PutTwice` | crates/consensus/src/parallel.rs:276-284 | a second write by one transaction, as on a self-transfer, replaces its first |
| `CommitLog.VisibleIsGreatest` | crates/consensus/src/parallel.rs:250-258 | what a reader sees in a history is written by the greatest committed writer below it, or is the backing value |
| `CommitLog.VersionsOnlyRise` | crates/consensus/src/parallel.rs:416-432 | commits only raise the version a reader sees, and an equal version means an equal account |
| `CommitLog.SlotVersionsOnlyRise` | crates/consensus/src/parallel.rs:425-432 | the same for slots |
| `CommitLog.StoreHoldsLog` | crates/consensus/src/parallel.rs:276-284 | after any history each account's list is strictly sorted, has exactly the committed writers, and reads as the history says |
| `CommitLog.StoreHoldsSlots` | crates/consensus/src/parallel.rs:286-294 | the same for each slot |
| `Pevm.EqualVersionsEqualAccounts` | crates/consensus/src/parallel.rs:416-424 | equal versions at two moments of a run mean equal accounts: validating versions validates values |
| `Pevm.EqualVersionsEqualSlots` | crates/consensus/src/parallel.rs:425-432 | equal slot versions at two moments of a run mean equal values |
| `Pevm.ValidatedRead` | crates/consensus/src/parallel.rs:416-441 | a result that validates is what reading at the moment of the commit would have given |
| `Pevm.ClearWritesIsIdle` | crates/consensus/src/parallel.rs:435-437 | `clear_writes` on a transfer that has not committed changes nothing |
| `Pevm.ReachableInv` | crates/consensus/src/parallel.rs:330-462 | in every reachable state the log holds exactly the executed transfers, each accepted on what it saw, and determines the store |
| `PevmConvergence.DeferredIsBlocked` | crates/consensus/src/parallel.rs:416-437 | a deferred transfer names its blocker: committed in this round, of lower index, listed before it, and the writer it would now read from, of greater index than any writer it could have read before the round |
| `PevmConvergence.EveryRoundCommits` | crates/consensus/src/parallel.rs:410-457 | a round that began with a transfer pending ends with at least one more commit |
| `PevmConvergence.FailureNeedsChain` | crates/consensus/src/parallel.rs:459-461 | for any block: "failed to converge" needs a chain of 21 transfers, increasing in index and in list order, each writing what the next one reads; the exact condition is `PevmStalls.StallsIff` |
| `PevmConvergence.ChainIncreases` | crates/consensus/src/parallel.rs:459-461 | the indices of a dependency chain are strictly increasing, so its transfers are distinct |
| `PevmConvergence.SmallBlocksConverge` | crates/consensus/src/parallel.rs:328-462 | a block of at most 20 transfers never fails to converge, under any schedule |
| `PevmSchedules.StaleRead` | crates/consensus/src/parallel.rs:416-432 | a thread that read after some commits fails validation once a later commit of lower index has hidden what it read |
| `PevmJoins.StaleIffOutdated` | crates/consensus/src/parallel.rs:416-432 | validation fails if and only if a lower index has, since the read, overwritten the sender, the recipient, an address in `read_addresses` or a slot in `read_slots` |
| `PevmJoins.JoinDefersIff` | crates/consensus/src/parallel.rs:410-447 | in every reachable state, joining a thread that ran without error defers its transfer and commits nothing if and only if what it declared to read is outdated in that sense, and otherwise commits it |
| `PevmStalls.FailureIsStall` | crates/consensus/src/parallel.rs:328-462 | every run of any block that fails to converge follows a plan, rounds for transfers, under which each is held back in every round before its own, and some in all 20: the block is stallable |
| `PevmStalls.StallableFails` | crates/consensus/src/parallel.rs:328-462 | conversely every such plan can be run: a stallable block of admitted transfers that runs in index order has a schedule that fails to converge |
| `PevmStalls.StallsIff` | crates/consensus/src/parallel.rs:328-462 | on a block of admitted transfers that runs in index order, some schedule fails to converge if and only if the block is stallable, a condition on the block alone |
| `PevmStalls.EachHoldsBackAllLater` | crates/consensus/src/parallel.rs:459-461 | more than 20 transfers in ascending order are stallable when each writes something that all later ones read |
| `PevmStalls.CommonLocationStalls` | crates/consensus/src/parallel.rs:459-461 | more than 20 transfers in ascending order that all write and read one account or one slot are stallable |
| `PevmStalls.FewDelayersConverge` | crates/consensus/src/parallel.rs:459-461 | a block none of whose transfers can be delayed by 20 others is not stallable |
| `PevmStallExamples.SharedRecipientStalls` | crates/consensus/src/parallel.rs:459-461 | 21 payments to one recipient, declared and admitted, that serial execution runs, and a schedule that fails to converge |
| `PevmStallExamples.SafeButStalls` | crates/consensus/src/parallel.rs:459-461 | 21 transfers that share one slot and no account: the block is safe, and a schedule fails to converge |
| `PevmStallExamples.DeclaredReadsStall` | crates/consensus/src/parallel.rs:358-363 | 21 transfers that write nothing in common and are tied by declared reads only: serial execution runs them, and a schedule fails to converge |
| `PevmSerial.LogIsSerial` | crates/consensus/src/parallel.rs:438-445 | without a lost update the commit log, read at each index, is the state of the serial prefix |
| `PevmSerial.LateIsMissed` | crates/consensus/src/parallel.rs:336-338 | what a late commit contributes is missing from the account every higher reader sees |
| `PevmSerial.LostUpdateShows` | crates/consensus/src/parallel.rs:336-338 | a lost update shows: the account ends different from serial execution |
| `PevmSerial.SerialMeansNoLostUpdate` | crates/consensus/src/parallel.rs:438-445 | if the final accounts are the serial ones, no update was lost |
| `PevmTheorem.SlotsAreSerial` | crates/consensus/src/parallel.rs:442-444 | slots are never lost: each ends with the value of its writer of greatest index |
| `PevmTheorem.PevmSerializable` | crates/consensus/src/parallel.rs:328-475 | serializability: for every schedule with an Ok outcome the final database is serial execution in ascending index, which meets no error, if and only if no lower index committed under a higher one that had touched an account it changes |
| `PevmTheorem.PevmConserves` | crates/consensus/src/parallel.rs:383-385 | an Ok run that lost no update adds to the total its self-transfers only, and every balance is the exact integer ledger |
| `PevmTheorem.MvccInvariant` | crates/consensus/src/parallel.rs:249-304 | in every reachable state the version lists of each account and each slot are strictly sorted and exactly the committed writes, and a read returns the greatest committed writer below the reader, else the backing value |
| `PevmSafeBlocks.ReachableInListOrder` | crates/consensus/src/parallel.rs:410-453 | commits happen round by round, and inside a round in list order |
| `PevmSafeBlocks.SafeBlocksAreSerial` | crates/consensus/src/parallel.rs:328-475 | a condition on the block alone under which every Ok run, whatever the schedule, is serial execution in ascending index |
| `PevmErrors.AdmittedEverywhere` | crates/consensus/src/parallel.rs:376-381 | on a block that runs in index order, a transfer admitted on the initial database is admitted on every commit history |
| `PevmErrors.PevmRejectsIff` | crates/consensus/src/parallel.rs:448-451 | on a block that runs in index order, some schedule ends in a nonce or balance error if and only if some transfer would be rejected on the initial database |
| `PevmExact.UnsafeLosesUpdate` | crates/consensus/src/parallel.rs:328-462 | on an unsafe block of admitted transfers there is an Ok schedule that loses an update |
| `PevmExact.SafeBlockIff` | crates/consensus/src/parallel.rs:328-475 | on a block of admitted transfers that runs in index order, every Ok run under every schedule ends in the serial state if and only if the block is safe |
| `PevmExact.PevmAgreesIff` | crates/consensus/src/parallel.rs:320-478 | on a block that runs in index order, every run that ends, under every schedule, is Ok and ends in the serial state if and only if every transfer is admitted on the initial database, the block is safe, and it is not stallable |
| `PevmCounterexamples.OkButNotSerial` | crates/consensus/src/parallel.rs:336-338 | a block and a schedule whose Ok run loses a credit that serial execution keeps |
| `PevmCounterexamples.ErrButSerialSucceeds` | crates/consensus/src/parallel.rs:448-451 | a block and a schedule that end in a nonce error although serial execution succeeds |
| `PevmEngine.TakeThreadSnapshot` | crates/consensus/src/parallel.rs:342-399 | a thread's critical section reads the sender, the recipient, every declared address and every declared slot, no more; its error is the nonce's before the balance's |
| `PevmEngine.FindConflict` | crates/consensus/src/parallel.rs:416-433 | the validation loops find a conflict exactly when some version read is not the version there is now |
| `PevmEngine.CommitWrites` | crates/consensus/src/parallel.rs:440-444 | the writes of a commit: sender, then recipient, then every declared slot |
| `PevmEngine.JoinThread` | crates/consensus/src/parallel.rs:410-453 | joining a thread is an error, a deferral or a commit, with the whole new state stated |
| `PevmEngine.LetThreadsRun` | crates/consensus/src/parallel.rs:335-406 | between two joins any pending threads may take their snapshots, in any order |
| `PevmEngine.AwaitThread` | crates/consensus/src/parallel.rs:410-411 | a join waits for the thread: if it has not yet read, it reads now |
| `PevmEngine.RunRound` | crates/consensus/src/parallel.rs:330-453 | a round of the engine is a sequence of steps of the state machine |
| `PevmEngine.FinalizeAccounts` | crates/consensus/src/parallel.rs:466-470 | each account with a version gets its last one, the others stay |
| `PevmEngine.FinalizeStorage` | crates/consensus/src/parallel.rs:471-475 | each slot with a version gets its last one, the others stay |
| `PevmEngine.Execute` | crates/consensus/src/parallel.rs:320-478 | whatever the threads do, the outcome is that of a schedule: on an error the database is untouched, on Ok it is the finalized store |
| `ErasureGrids.CellsDisjoint` | crates/network/src/das.rs:35-46 | two cells of the grid never overlap in the flat buffer |
| `ErasureGrids.CellsTile` | crates/network/src/das.rs:35-46 | every byte of the buffer lies in a cell of the grid |
| `ErasureGrids.PutCell` | crates/network/src/das.rs:71-73 | writing at a cell's offset changes the head of that cell and no other cell |
| `ErasureGrids.FillData` | crates/network/src/das.rs:66-74 | the data quadrant holds the input's chunks row by row, zero-padded, and the rest is zero |
| `ErasureGrids.EncodeLine` | crates/network/src/das.rs:80-103 | one row or column is replaced by its encoding and no cell off it changes |
| `ErasureGrids.EncodeLines` | crates/network/src/das.rs:80-103 | a pass encodes every line up to the bound and leaves the other lines alone |
| `ErasureGrids.BothPassesEncode` | crates/network/src/das.rs:78-105 | after both passes the data quadrant is still the input and the top rows and all columns are codewords |
| `Grid.ErasureGrid.Chunk` | crates/network/src/das.rs:35-39 | the slice at a grid coordinate is that cell |
| `Grid.ErasureGrid.SetChunk` | crates/network/src/das.rs:42-46 | writing through `chunk_mut` changes one cell and no other |
| `Grid.ErasureGrid.VerifyChunk` | crates/network/src/das.rs:110-123 | true exactly for a cell on the grid whose row is a codeword, when a code exists |
| `Grid.Encode` | crates/network/src/das.rs:52-106 | the two errors exactly when they are due, otherwise a fresh encoded grid |
| `Gf256Field.MulCommutes` | crates/network/src/das.rs:8 | multiplication of bytes commutes |
| `Gf256Field.MulAssociates` | crates/network/src/das.rs:8 | and associates |
| `Gf256Field.UnitLeft` | crates/network/src/das.rs:8 | 1 is its unit |
| `Gf256Field.ProductZeroIff` | crates/network/src/das.rs:8 | a product is 0 if and only if a factor is: the reduction polynomial is irreducible |
| `Gf256Field.KnownProducts` | crates/network/src/das.rs:8 | which polynomial it is: 2 * 0x80 = 0x1D, and two more products |
| `Gf256.MulsCommute` | crates/network/src/das.rs:76-103 | multiplications in the field commute, whatever they are applied to |
| `Gf256.SwapSums` | crates/network/src/das.rs:76-103 | combining rows and then columns is combining columns and then rows |
| `Grid.EveryRowIsCodeword` | crates/network/src/das.rs:76-123 | the two-dimensional code: all 2k rows of an encoded grid are codewords, the bottom k included, though they were never encoded as rows |
| `Grid.InputIsRecovered` | crates/network/src/das.rs:66-105 | an input of at most k*k*chunk_size bytes is the row-major data quadrant cut to its length |
| `GridBytes.DataInBuffer` | crates/network/src/das.rs:63-74 | the place in the flat buffer of every input byte, and zeros after the end of the input |
| `GridBytes.RepeatedCells` | crates/network/src/das.rs:76-103 | a parity row with the single coefficient 1 makes every row and column of an encoded grid repeat that data cell |
| `GridBytes.RepetitionCode` | crates/network/src/das.rs:52-106 | under the (1, 1) code with coefficient 1 all four cells hold the input |
| `GridBytes.WrongByteInLine` | crates/network/src/das.rs:119-122 | one wrong byte in a codeword is noticed, unless it is a data byte to which no parity shard gives weight |
| `GridBytes.WrongByteInGrid` | crates/network/src/das.rs:110-123 | changing one byte of the buffer makes the check of its row fail, unless it is such a data byte, and leaves every other row as it was |
| `Sampling.AttemptsSuffice` | crates/network/src/das.rs:155-168 | after 999 + size^2 attempts every cell has been looked at |
| `Sampling.NextProbe` | crates/network/src/das.rs:157-168 | the coordinates of each attempt: the wrapping generator, then the scan; `SamplingCells` has the cells |
| `SamplingCells.FirstSeeds` | crates/network/src/das.rs:151-161 | the generator's first two values from the seed 42 |
| `SamplingCells.OddRowEvenColumn` | crates/network/src/das.rs:157-162 | what the constants do: each of the first 999 attempts lands on an odd row and an even column |
| `SamplingCells.QuarterReached` | crates/network/src/das.rs:157-162 | so the pseudo-random attempts reach at most k*k of the 4k^2 cells |
| `SamplingCells.ScanNeeded` | crates/network/src/das.rs:155-168 | a sampling of more than k*k cells makes all 999 pseudo-random attempts and scans |
| `SamplingCells.ProbedInScan` | crates/network/src/das.rs:163-168 | after attempt 999 + m the cells looked at are those found before and the first m in row-major order |
| `Sampling.PerformDas` | crates/network/src/das.rs:145-184 | the loop makes at most 999 + size^2 attempts, and its answer says which cells passed and which one stopped it |
| `Sampling.EncodedGridPasses` | crates/network/src/das.rs:170-179 | on an encoded grid a cell passes exactly when it is not dropped |
| `Sampling.NeverErrsOnEncodedGrid` | crates/network/src/das.rs:155-183 | on an encoded grid sampling never errs, and true means exactly min(required, size^2) distinct undropped cells |
| `Sampling.NeverTrueWhenTooManyDropped` | crates/network/src/das.rs:155-183 | when more grid cells are dropped than sampling may leave out, the answer is never true, on any grid |
| `Sampling.TrueIffFirstProbesKept` | crates/network/src/das.rs:151-183 | on an encoded grid the answer is true if and only if none of the first cells probed, as many as needed, is dropped; the fixed seed makes them always the same cells |
| `Sampling.DropsUnnoticed` | crates/network/src/das.rs:151-183 | the bound is tight: some set of all but the needed number of cells can be dropped and the answer is still true |
| `SamplingCells.FullSampling` | crates/network/src/das.rs:145-184 | on an encoded grid, asked for all 4k^2 cells, the answer is true if and only if no cell of the grid is dropped |
| `SamplingCells.OneSampleOfFour` | crates/network/src/das.rs:145-184 | on an encoded 4 x 4 grid a single sample is the cell in row 3 and column 0: the answer is true if and only if that one is not dropped |
| `SamplingCells.TwoSamplesOfTwo` | crates/network/src/das.rs:145-184 | on an encoded 2 x 2 grid two samples are (1, 0), found at random, and (0, 0), found by the scan |
| `Scale.CompactRoundTrip` | crates/consensus/src/based_mesh.rs:152-190 | a compact length followed by anything decodes to itself, in all four modes |
| `Scale.CompactCanonical` | crates/consensus/src/based_mesh.rs:152-190 | only the shortest mode of a length decodes |
| `KnownBytes.KnownU64s` | crates/consensus/src/based_mesh.rs:62 | a `u64` is written lowest byte first |
| `KnownBytes.BigEndianReversed` | crates/consensus/src/stateless.rs:76 | the big-endian form is the little-endian one read backwards |
| `KnownBytes.KnownBigEndian` | crates/consensus/src/stateless.rs:76 | two known big-endian values |
| `KnownBytes.SmallBigEndian` | crates/consensus/src/stateless.rs:76 | addresses and 256-bit integers are big-endian: a small one is zeros but for its last byte |
| `KnownBytes.KnownLengths` | crates/consensus/src/based_mesh.rs:61 | known compact lengths in each of the four modes, and both ends of the first two |
| `KnownBytes.KnownSchemes` | crates/consensus/src/based_mesh.rs:13-41 | each proof scheme is written as its selector |
| `KnownBytes.KnownMessage` | crates/consensus/src/based_mesh.rs:56-64 | the bytes of a message, field by field |
| `KnownBytes.KnownAccount` | crates/consensus/src/stateless.rs:74-82 | the bytes of an account witness, field by field |
| `KnownBytes.KnownProof` | crates/consensus/src/stateless.rs:24-31 | the bytes of a Verkle proof, field by field |
| `KnownBytes.KnownPacket` | crates/consensus/src/based_mesh.rs:152-164 | the bytes of a packet, field by field |
| `Packets.MessageRoundTrip` | crates/consensus/src/based_mesh.rs:56-82 | decoding an encoded message followed by any bytes returns the message and those bytes |
| `Packets.MessageCanonical` | crates/consensus/src/based_mesh.rs:66-82 | nothing but an encoding decodes to a message |
| `Packets.AccountRoundTrip` | crates/consensus/src/stateless.rs:74-102 | decoding an encoded account witness followed by any bytes returns it and those bytes |
| `Packets.AccountCanonical` | crates/consensus/src/stateless.rs:84-102 | nothing but an encoding decodes to an account witness |
| `Packets.ProofRoundTrip` | crates/consensus/src/stateless.rs:24-46 | decoding an encoded Verkle proof followed by any bytes returns it and those bytes |
| `Packets.PacketRoundTrip` | crates/consensus/src/based_mesh.rs:152-190 | decoding an encoded packet followed by any bytes returns the packet and those bytes |
| `Packets.PacketCanonical` | crates/consensus/src/based_mesh.rs:166-190 | nothing but an encoding decodes to a packet |
| `Packets.TruncatedPacket` | crates/consensus/src/based_mesh.rs:166-190 | no proper prefix of an encoded packet decodes |
| `Packets.FromBytesOfPacket` | crates/consensus/src/based_mesh.rs:235-249 | `from_bytes` of an encoded packet and any bytes after it gives back exactly the packets of version 1, and ignores those bytes |
| `Packets.MalformedIff` | crates/consensus/src/based_mesh.rs:235-249 | `from_bytes` finds the data malformed if and only if it does not begin with an encoded packet |
| `Blob.Pack` | crates/consensus/src/based_mesh.rs:268-288 | the packing loop puts byte m of the payload at its place, the length in element 0 and zeros elsewhere |
| `Blob.PackedLayout` | crates/consensus/src/based_mesh.rs:268-288 | where each byte of the payload and of its length lies in the blob, and that every other byte is 0 |
| `Blob.Unpack` | crates/consensus/src/based_mesh.rs:307-317 | the unpacking loop reads back at most 4095 elements of 31 bytes |
| `Blob.UnpackExactIff` | crates/consensus/src/based_mesh.rs:263-317 | unpacking gives back the packed payload if and only if it has at most 4095*31 bytes; the guard admits 31 more |
| `Blob.ElementsInField` | crates/consensus/src/based_mesh.rs:253-286 | every field element of a packed blob is below the BLS12-381 scalar modulus |
| `Blob.ToBlob` | crates/consensus/src/based_mesh.rs:258-289 | the KZG fields are zeroed before packing, and the only error is a packet of more than 4096*31 bytes |
| `Blob.FromBlob` | crates/consensus/src/based_mesh.rs:295-333 | the three guards in order, with their bounds, then the packet of version 1 sealed with the KZG commitment and proof of the blob |
| `Blob.New` | crates/consensus/src/based_mesh.rs:195-229 | a version 1 packet with the fields given and the KZG commitment and proof of its own blob, or zeros where there is no blob or no commitment |
| `Blob.BlobComesBack` | crates/consensus/src/based_mesh.rs:258-333 | what comes back from the blob of any packet the guard admits, error cases included |
| `Blob.BlobRoundTripIff` | crates/consensus/src/based_mesh.rs:258-333 | an admitted packet comes back as it was if and only if it fits 4095 elements, has version 1 and carries the KZG fields of its own blob |
| `Blob.NewPacketRoundTrip` | crates/consensus/src/based_mesh.rs:195-333 | a packet made by `new` comes back from its blob if and only if it has at most 4095*31 bytes |
| `Blob.AdmittedButLost` | crates/consensus/src/based_mesh.rs:263-266 | a packet the guard admits and packs, and that cannot be unpacked |
| `Election.SnowSubsetElection.TriggerElection` | crates/consensus/src/subset_election.rs:32-57 | an empty pool clears the subset and is an error; otherwise min(pool, size) members are elected, and nobody left out has a hash that sorts byte by byte before that of anybody elected, the hash being of the address and then the hash of manifold and epoch, big-endian; with distinct keys they are the elected set |
| `Election.BytesCompare` | crates/consensus/src/subset_election.rs:46-51 | big-endian integers compare as their bytes do |
| `Election.SampleIsElected` | crates/consensus/src/subset_election.rs:43-54 | with distinct keys the sample is the members with fewer than `size` members below them, whatever order the set iterates in |
| `Election.ElectedCount` | crates/consensus/src/subset_election.rs:53-54 | min(pool, size) members are elected |
| `Election.OrderMattersIffTieAtCut` | crates/consensus/src/subset_election.rs:43-54 | the outcome depends on the iteration order if and only if equal keys reach across the cut |
| `Election.ElectionStable` | crates/consensus/src/subset_election.rs:32-57 | one validator more brings in nobody but itself and drops at most one member, and that only if it is elected; the removal is the same read backwards |
| `Committee.SagaOrchestratorCommittee.constructor` | crates/consensus/src/sync_committee.rs:23-39 | the default committee, with the configured threshold or 0.67 |
| `Committee.SagaOrchestratorCommittee.SelectOrchestrators` | crates/consensus/src/sync_committee.rs:46-62 | epoch first, then threshold; on each error the orchestrators stay; otherwise they are min(pool, size) members of the eligible pool with the least hashes |
| `Committee.VerifyConsensus` | crates/consensus/src/sync_committee.rs:111-153 | each error exactly when it is due: the first listed member whose DID does not resolve, or whose signature does not verify, decides the error; Ok exactly when there is none and enough distinct members have signed |
| `Committee.AcceptedIsBacked` | crates/consensus/src/sync_committee.rs:123-150 | an accepted intent has at least n*threshold distinct committee members, each with a listed signature that verifies |
| `Committee.QuorumExact` | crates/consensus/src/sync_committee.rs:123-150 | without a failing signature an intent is accepted if and only if at least n*threshold distinct members with a DID have signed |
| `Committee.ListingIsImmaterial` | crates/consensus/src/sync_committee.rs:128-150 | repeats, outsiders and the order of the list make no difference to the verdict |
| `Committee.OneMoreSignature` | crates/consensus/src/sync_committee.rs:138-145 | one more signature undoes an acceptance exactly when it is a member's whose DID does not resolve, or under whose key it does not verify |
| `Committee.AcceptancesShareVoter` | crates/consensus/src/sync_committee.rs:123-150 | two acceptances by one committee share a voter once their thresholds add up to more than one |
| `Committee.QuorumsMeetIff` | crates/consensus/src/sync_committee.rs:123-150 | every two quorums meet if and only if the quorum is more than half the committee |
| `Committee.ThresholdAboveHalfIff` | crates/consensus/src/sync_committee.rs:123 | a threshold makes the quorums of every committee meet if and only if it is above one half |
| `Committee.AcceptancesAcrossPoolChange` | crates/consensus/src/sync_committee.rs:46-153 | after one validator joins the pool, an acceptance before and one after still share a voter when their quorums exceed together one more than the number elected before |
| `Committee.LivesItsTimeoutIff` | crates/consensus/src/sync_committee.rs:84-105 | an intent lives through its whole timeout, 86400 seconds where the registry gives none, if and only if the expiry time does not wrap, and not a second longer |

## Left out

- Threads, `Arc` and the mutex: a thread's read under the lock is one step of the state machine; thread panics and mutex poisoning are not modelled.
- A repeated `tx_index`: Wave and Grevm then loop forever, so `WaveEngine.Execute` and `Grevm.Execute` require distinct indices, as `FirstFit.PartitionTerminatesIffDistinct` shows they must; the theorems about Pevm require them too.
- PevmTheorem.PevmSerializable: the values of the block must add up to less than 2^256 (only the direction from serial to no lost update uses it), since credits that add up to a multiple of 2^256 can be lost without a trace. 
- WaveClashes.RanSeriallyIff: speaks of Ok runs, and needs the same bound for the same reason. A run that errs in a clashing wave may or may not err serially (`WaveCounterexamples.UndeclaredFootprintFails`); without clashes `WaveRefinement.WavesAreSerial` covers errors too.
- PevmErrors.PevmRejectsIff: speaks of blocks that run in index order and in which no balance of a sender can reach 2^256 by the block's values; a wrapped balance could turn any verdict around. `PevmStalls.StallsIff` and `PevmExact.PevmAgreesIff` inherit both.
- SenderOrder.WavesOkIff: speaks of waves without clashes (a clashing wave may be Ok or not, whatever serial execution does; `SenderOrder.WaveAgreesIff` needs no such hypothesis), and no balance of a sender may reach 2^256 by the block's values, since a wrapped balance could turn any verdict around.
- PevmConvergence.FailureNeedsChain: the necessary half only, but for any block and database; `PevmStalls.StallsIff` is exact for the blocks that `PevmErrors.PevmRejectsIff` speaks of.
- Debug-profile overflow panics (`nonce += 1`, `tx_index as u64 + 1`, `current_time + timeout`) and overflow of the grid's `usize` size computations.
- The Verkle proofs a `WitnessDatabase` carries: no engine reads or writes them.
- The text of error messages and of trace lines: errors and trace records are datatypes. The code logs the trace's length and drops it; the model returns the trace.
- Reed-Solomon matrix construction and its limit on k: a code is any parity matrix, and its absence is the error case. Reconstruction from missing shards is not used by the repository.
- Rounding of `f64` thresholds: thresholds are reals. The saturating cast to `usize` is kept.
- Vectors of 2^32 elements or more, which the SCALE encoder refuses with a panic: a bound of the vector type.
- Keccak, KZG, DID documents and signature schemes, including the post-quantum rule behind the `quantum_threat` flag.
- Election.SampleIsElected: distinct keys are a hypothesis, because the hash is arbitrary; `Election.OrderMattersIffTieAtCut` says exactly what ties do.
- Registry eligibility and reputation scores: the eligible pool is a function of the manifold and the merit rank.
- JSON embedding of messages in packets, `verify_validity_proof`, `new_with_valid_binding`, and the rest of `stateless.rs` (pre-flight checks, block validation, the `Database` implementation).
- `apply_reed_solomon_2d`, a flattening wrapper around `encode`, and `get_executor`, a lookup of the engine by name.
- The rest of the node (networking, RPC, identity, tokenomics, actors, tunnels): wrappers, I/O or single-branch checks.

# Kitsune2 core, verified

A Dafny model of the stateful core of Kitsune2: the DHT that lets two peers find out which ops they do not
share, the arcs that say who stores what, the protocol that hands over new ops, and the bounded structures of
the bootstrap server and the config and gossip layers. Source paths below are relative to the repository root.

`dafny verify dfyconfig.toml` checks everything.

## What is proved

**The DHT** (`TimeLayout`, `LayoutLaws`, `LayoutUnique`, `Ops`, `SliceCache`, `TimePartition`, `UpdateLaws`, `Sectors`,
`HashPartition`, `Snapshots`, `Comparison`, `Pinpoint`, `Dht`, `Tallies`, `HashLists`). Each of 512 sectors cuts time into
full slices, whose hashes are in the op store, and a ladder of shrinking partial slices, whose hashes are in
memory. The reference for every hash is `SetHash`, the exclusive or of the ids of a plain *set* of ops.

- Over every run of stores, updates and restarts under a clock that does not go back, every cached hash is the
  hash of exactly the ops of its sector and half-open interval, a full-slice hash is absent exactly when there
  are none, and all sectors are in lockstep at a count that depends on the time alone (`Dhts.Run`).
- A minimal snapshot after a run is a function of the final op set and the time of the last update; so equal
  sets give equal snapshots whatever the histories, and one op more shows (`Dhts.RunAndSnapshot`, `Dhts.TwoRuns`).
- Snapshots that are out of step are never compared, and of any two others exactly what differs is named
  (`Comparison.CompareAnswers`, `Comparison.CompareNames`). Comparing snapshots names exactly the rings, sectors and slices whose op sets have different hashes, and for
  one extra op exactly its own; the node that has it then serves it (`Comparison`, `Pinpoint`,
  `HashLists.ServeExtraHistory`, `HashLists.ServeExtraRecent`).
- The layout tiles time, sizes never grow, no size occurs three times, and the uncovered tail is more than 0 and at
  most one unit; the covered time ends at the last unit boundary before now (`TimeLayout`, `LayoutLaws`). It is the
  only such layout that skips no size or uses none twice, so it is determined by what it looks like
  (`LayoutUnique.PartialsAreTheOnly`).
- An update before `next_update_at` changes nothing and one after it advances the covered end; at that very
  moment the covered end stays, but a full slice may become due (`UpdateLaws.UpdateEarly`, `UpdateLaws.UpdateLate`,
  `LayoutLaws.AtNextUpdateExactly`).
- The hash-list loops serve exactly the batches of a fold over the sizes asked for, whole and in order, and leave one
  out only if at its turn it does not fit or the budget is spent (`HashLists.DiscHashList`,
  `HashLists.RingHashList`, `Tallies.LeftOutHadNoRoom`). Whatever two nodes hold, all ops of a node that lie in a
  slice or ring that differs are served if what is named fits together (`HashLists.ServeHistory`,
  `HashLists.ServeRecent`).

**Arcs** (`Arcs`, `ArcSets`, `ArcBits`, `ArcRuns`, `StorageArcs`). Distance and overlap on the wrapping circle;
sets of sectors to arcs and bitsets and back; growth of storage arcs over any run of rounds, and exactly how far each
round extends an arc (`StorageArcs.ExtendsTo`).

**New ops** (`NewOps`). Paging a peer's log by a bookmark skips nothing under any loss, repetition or reordering;
when it gets on and when it stalls, exactly, and how many pages it takes (`NewOps.PageThrough`).

**Bootstrap server** (`BootstrapSpace`, `TempStore`), **config** (`ConfigTree`), **burst limit** (`AcceptBurst`).

### Where the code does not do what one may expect

Each is stated with the exact condition under which the expectation holds.

- An agent may *lose* locations when its arc grows: if the arc wraps past the end of the circle, because arcs made
  from sectors are cut there, and also if it is not aligned, because its last sector is not counted. It keeps them
  if and only if it is not replaced or the run that replaces it encloses it: `StorageArcs.KeepsIff`, with
  `StorageArcs.WrappingKeepsIff`, `StorageArcs.WrappingArcLosesLocations`, `StorageArcs.UnalignedArcLosesLocations`.
- `ArcSet::new` looks at the length of an arc only, so for an unaligned arc the set covers locations the arc does
  not have: `ArcSets.LocationsMatchIff`.
- Without an initial bookmark, two outstanding requests may skip an op for good: `NewOps.CoverageKeptIff`,
  `NewOps.FirstContactMaySkip`.
- An op is stamped before it is entered in the log, and an answer in between may go past it. After an op is entered,
  everything stays covered whichever of the replies sent so far comes next if and only if neither the bookmark nor any
  of these replies has gone past its stamp: `NewOps.InsertKeepsIff`, `NewOps.LateEntryIsSkipped`. (A late op may still
  be fetched if the replies that went past it are lost.)
- Paging may stall. One arc gets on if and only if all its ops stored at the time it starts from fit on one page
  (`NewOps.PageMovesIff`, `NewOps.SameTimeStalls`); several arcs if and only if each, after what the arcs before it
  took, has that room, so a later op in an earlier arc may starve a later arc for good although all ops stored at
  the bookmark would fit (`NewOps.MovesIff`, `NewOps.EarlierArcStarvesLater`). What the earlier arcs took is a function
  of the inputs where no two ops of an arc share a stamp (`NewOps.PagesAreUnique`); otherwise it depends on the order
  in which the store lists them. No answer gets past ops stored at one time that exceed its budget
  (`NewOps.PassableIff`, `NewOps.GroupBlocks`).
- At the unix epoch itself accepts are never remembered, so the burst limit does not hold in windows that contain
  it: `AcceptBurst.LimitedIff`.
- An extra op whose id is all zero shows only where there was no op before: `Pinpoint.DiffersByOne`.
- The hash lists compare 32-bit sums as signed numbers, so a batch that is far too large may be served. A list keeps
  within a non-negative budget if and only if, taking in plain arithmetic what fits, no turn that is reached has a sum
  that is too large and that the comparison lets through, which can be told from the sizes asked for:
  `Tallies.WithinBudgetIff`, `HashLists.OversizedBatchServed`. What is left out never had room, whatever the sums.
- A restart fails when the stored count is ahead of the clock, or nothing is stored and the earliest op lies far
  enough in the future: `TimePartitions.TimePartition.TryFromStore`, `TimePartitions.RestartSucceeds`,
  `TimePartitions.FutureOpBlocksRestart`.
- The op store's documentation says a limited page returns the time of its last op
  (`crates/api/src/op_store.rs:134`); the in-memory store returns that of the first op left out
  (`crates/core/src/factories/mem_op_store.rs:299-350`), and the model follows the code.

### Modelling choices

- Times are unbounded microsecond numbers; `Div`, `Times` and `SliceSize` are ordinary quotient, product and power
  (`TimeLayout.FullCountIsFloor`, `TimeLayout.DivIsQuotient`, `TimeLayout.SliceSizeIsPow2`).
- An op is stored and the model informed of it once, in one step. The op store does not fail, and lists ops of a
  slice in any order. All op ids have one non-zero length; other lengths panic.
- Byte counts of the hash lists wrap around at 32 bits, as in a release build; a debug build panics there.
- The clock and the JSON and wire encodings are parameters or values. Collections iterated in hash order are sets.
- Ghost parameters (`len`, `known`, `count`, `now`) carry specification state only.

## Model

| member | source | states |
|---|---|---|
| Combine.CombineHashes | crates/dht/src/combine.rs:32-51 | folding in place is exclusive or, an empty target takes the other hash over |
| Combine.CombineOpHashes | crates/dht/src/combine.rs:5-25 | a list combines to the exclusive or of its members, of their common length, and to nothing if empty |
| Combine.XorAssoc | crates/dht/src/combine.rs:32-51 | combining is associative, also with empty hashes |
| Combine.XorCancel | crates/dht/src/combine.rs:32-51 | combining the same hash twice cancels it |
| Combine.XorDetects | crates/dht/src/combine.rs:32-51 | hashes of one length are equal iff their combination is all zero |
| Ops.SetHashRemove | crates/dht/src/combine.rs:5-51 | any op may be combined last: the hash of a set does not depend on the order |
| Ops.SetHashEqualIff | crates/dht/src/combine.rs:5-51 | two op sets have one hash iff both or neither are empty and the ids of their symmetric difference cancel |
| Ops.ListHashIsSetHash | crates/dht/src/combine.rs:5-25 | a list without repetition combines to the hash of its set |
| Ops.OpStore.RetrieveOpHashesInTimeSlice | crates/core/src/factories/mem_op_store.rs:229-262 | exactly the ops of the arc and half-open interval, once each, and their total size |
| Ops.OpStore.EarliestTimestampInArc | crates/core/src/factories/mem_op_store.rs:352-377 | the least creation time in the arc, or none iff the arc holds no op |
| Ops.OpStore.StoreSliceHash | crates/core/src/factories/mem_op_store.rs:379-405 | one slice hash of one arc is set, nothing else changes |
| Ops.OpStore.SliceHashCount | crates/core/src/factories/mem_op_store.rs:407-423 | one more than the highest stored index |
| Ops.OpStore.RetrieveSliceHashes | crates/core/src/factories/mem_op_store.rs:436-444 | all stored slice hashes of the arc in index order |
| TimeLayout.ResidualDurationForFactor | crates/dht/src/time.rs:701-714 | fails iff the factor is 54 or more; otherwise one slice of each size up to the factor |
| TimeLayout.SliceSizeIsPow2 | crates/dht/src/time.rs:684-687 | a slice of size i lasts 2^i units, one of each up to i last 2^(i+1) - 1 |
| TimeLayout.LayoutFullReaches | crates/dht/src/time.rs:512-533 | fails iff the clock is behind the full slices; otherwise brings the count up to, never below, the one the time asks for |
| TimeLayout.FullCountIsFloor | crates/dht/src/time.rs:512-533 | that count is floor((now - min_recent) / full), or 0 |
| TimeLayout.CountAheadIff | crates/dht/src/time.rs:187-199 | a positive count is not ahead of the time iff it leaves the reserved recent time |
| TimeLayout.RecentBound | crates/dht/src/time.rs:512-533 | after catching up, less than two full slices less one unit of recent time is left |
| TimeLayout.LayoutPartials | crates/dht/src/time.rs:581-616 | the pushed slices are the ladder for the recent time; fails iff the clock is behind the start or the factor too large |
| TimeLayout.PushSlots | crates/dht/src/time.rs:608-612 | the inner loop pushes so many slices of one size in a row |
| TimeLayout.LadderGeometry | crates/dht/src/time.rs:581-616 | partials tile from their start, sizes never grow, none occurs a third time, the end stays short of now by at most a unit |
| LayoutUnique.CountsAreEven | crates/dht/src/time.rs:581-616 | with more recent time than one slice of each size takes, each size is used once or twice; with less, none is used twice |
| LayoutUnique.EvenLayoutIsUnique | crates/dht/src/time.rs:581-616 | two layouts that tile from one start with sizes that never grow, none three times, skipping no size or using none twice, and that reach equally far, are equal |
| LayoutUnique.PartialsAreTheOnly | crates/dht/src/time.rs:581-616 | the partials are the one such layout that ends at the last unit boundary before now |
| LayoutLaws.CoveredEndIsLastBoundary | crates/dht/src/time.rs:581-616 | covered time ends at the last unit boundary strictly before now, whatever the count; the tail is more than 0 and at most a unit |
| LayoutLaws.NothingToDoBeforeNextUpdate | crates/dht/src/time.rs:225-252 | strictly between the last partial's end and the next update, count and layout are already right |
| LayoutLaws.LaterUpdateAdvances | crates/dht/src/time.rs:225-252 | after the next-update time the covered end strictly advances |
| LayoutLaws.AtNextUpdateExactly | crates/dht/src/time.rs:225-252 | exactly at that time the covered end stays, and the count changes iff a full slice becomes due at that moment |
| SliceCache.HistoricalOp | crates/dht/src/time.rs:272-313 | taking up an op of a full slice changes that slice's hash only and keeps agreement with the op set |
| SliceCache.RecentOp | crates/dht/src/time.rs:337-351 | taking up an op of a partial slice keeps every partial in agreement with the op set |
| SliceCache.RecentOpSparesSlices | crates/dht/src/time.rs:314-351 | an op after the full slices touches no stored hash |
| SliceCache.CompleteSlice | crates/dht/src/time.rs:540-575 | one more full slice, its hash stored unless empty, keeps the stored hashes exact |
| SliceCache.PersistedCount | crates/dht/src/time.rs:166-167 | reading the count off the highest stored index loses nothing |
| SliceCache.SkipEmptySlices | crates/dht/src/time.rs:169-185 | counting from the earliest op skips only empty slices |
| SliceCache.ListingHash | crates/dht/src/time.rs:402-416 | the stored slice hashes combine to the hash of all ops before the end of the slices |
| TimePartitions.TimePartition.UpdateFullSliceHashes | crates/dht/src/time.rs:540-575 | fails iff the clock is behind; otherwise the count is the due one, stored hashes are exact, other sectors' untouched |
| TimePartitions.TimePartition.UpdatePartials | crates/dht/src/time.rs:627-681 | the partials are the ladder for now, each with the hash of exactly its ops, kept or computed |
| TimePartitions.TimePartition.SlotHash | crates/dht/src/time.rs:637-677 | kept, computed or known empty, the hash is that of the ops of the slot |
| TimePartitions.TimePartition.Update | crates/dht/src/time.rs:225-252 | fails iff the clock is behind, changing nothing; otherwise laid out for now and in agreement with the op set |
| TimePartitions.TimePartition.FindPartial | crates/dht/src/time.rs:337-351 | the backward walk finds the only partial that contains the time |
| TimePartitions.TimePartition.InformOp | crates/dht/src/time.rs:270-353 | one op is taken up where it belongs: agreement with the op set plus this op, layout unchanged |
| TimePartitions.TimePartition.InformOpsStored | crates/dht/src/time.rs:263-356 | a batch is taken up: agreement with the op set plus the batch |
| TimePartitions.TimePartition.FullTimeSliceTopHash | crates/dht/src/time.rs:402-416 | the hash of all ops of the sector before the end of the full slices |
| TimePartitions.TimePartition.PartialSliceHash | crates/dht/src/time.rs:450-465 | the hash of exactly the ops of the slice, an error iff the index is out of range |
| TimePartitions.TimePartition.TryFromStore | crates/dht/src/time.rs:156-205 | succeeds iff sector and factor are valid and the initial count is not ahead of the time; then laid out, exact, with the count the time asks for |
| TimePartitions.NotAheadIs | crates/dht/src/time.rs:166-199 | not being ahead is a test on the initial count alone |
| TimePartitions.RestartSucceeds | crates/dht/src/time.rs:156-205 | a store written under earlier clocks can be read back unless it holds no hashes and its earliest op is in the future |
| TimePartitions.RestartFromStored | crates/dht/src/time.rs:166-199 | with slice hashes stored a restart works iff the reserved time has passed since the end of the highest slice |
| TimePartitions.RestartFromNothing | crates/dht/src/time.rs:169-199 | with none stored, iff the earliest op lies in the first two slices or the reserved time has passed since the end of the slice two before its own |
| TimePartitions.FutureOpBlocksRestart | crates/dht/src/time.rs:156-205 | for every clock, factor and sector a store with one op too far in the future cannot be read back |
| UpdateLaws.StateIsDetermined | crates/dht/src/time.rs:225-252 | slices and stored hashes are a function of ops, count and time of layout: histories cannot be told apart |
| UpdateLaws.EarlyUpdateChangesNothing | crates/dht/src/time.rs:225-252 | an update strictly between the last partial's end and next_update_at changes no count, slice, hash or due time |
| UpdateLaws.UpdateEarly | crates/dht/src/time.rs:225-252 | an actual early update changes nothing of the partition and nothing in the store |
| UpdateLaws.LateUpdateAdvances | crates/dht/src/time.rs:225-252 | an update after next_update_at strictly advances the covered end |
| UpdateLaws.UpdateLate | crates/dht/src/time.rs:225-252 | an actual late update strictly advances the covered end |
| Sectors.SectorsPartition | crates/dht/src/hash.rs:107-150 | each location lies in exactly one of the 512 sector arcs |
| Sectors.GroupBySector | crates/dht/src/hash.rs:178-195 | each op of a batch is in exactly one group, that of its location, in batch order |
| HashPartitions.HashPartition.TryFromStore | crates/dht/src/hash.rs:107-150 | from different stored counts all sectors come out in lockstep at the time's count; fails iff some initial count is ahead |
| HashPartitions.HashPartition.Update | crates/dht/src/hash.rs:162-172 | the sectors succeed or fail together and stay in lockstep |
| HashPartitions.HashPartition.InformOpsStored | crates/dht/src/hash.rs:178-204 | after a batch, in whatever order of sectors, all agree with all ops |
| HashPartitions.HashPartition.DiscTopHash | crates/dht/src/hash.rs:266-293 | the hash of all ops of the included sectors before the boundary, which sector 0 gives for all |
| HashPartitions.HashPartition.RingTopHashes | crates/dht/src/hash.rs:299-334 | for each ring the hash of all ops of the included sectors in it |
| HashPartitions.HashPartition.DiscSectorHashes | crates/dht/src/hash.rs:345-370 | per included sector the hash of its history, absent iff it has none |
| HashPartitions.HashPartition.DiscSectorSectorDetails | crates/dht/src/hash.rs:376-412 | per wanted sector the hash of each non-empty full slice |
| HashPartitions.HashPartition.RingDetails | crates/dht/src/hash.rs:418-445 | per wanted ring the hash of each non-empty included sector; an error iff some sector is included and some ring does not exist; no rings for an empty arc set |
| Snapshots.ListedExactly | crates/dht/src/hash.rs:345-445 | sectors, slices and rings are listed exactly where there are ops: included sectors with a history, wanted sectors with their slices that hold ops, wanted rings with their sectors that do |
| Comparison.DifferIff | crates/dht/src/combine.rs:32-51 | regions have different hashes iff emptiness differs or the ids of the symmetric difference do not cancel |
| Comparison.CompareAnswers | crates/dht/src/dht/snapshot.rs:73-322 | for any two snapshots: cannot compare iff of different kinds or boundaries, or equal discs with different ring counts, or details of different rings; identical iff equal; disc mismatch iff minimal, of one boundary, with different discs |
| Comparison.CompareNames | crates/dht/src/dht/snapshot.rs:73-361 | for any two others, exactly the rings (in order), sectors and slices that differ are named; a sector only one side has with all slices of that side |
| Comparison.CompareIsSymmetric | crates/dht/src/dht/snapshot.rs:73-322 | it does not matter which side compares |
| Comparison.NodesOutOfStep | crates/dht/src/dht/snapshot.rs:92-111 | nodes with different full-slice counts cannot be compared, nor nodes with equal histories and different ring counts |
| Comparison.CompareMinimal | crates/dht/src/dht/snapshot.rs:73-118 | disc mismatch iff the histories differ; else exactly the rings that differ are named |
| Comparison.CompareDiscSectors | crates/dht/src/dht/snapshot.rs:119-157 | exactly the sectors whose histories differ are named |
| Comparison.CompareDiscDetails | crates/dht/src/dht/snapshot.rs:158-238 | exactly the slices that differ in the wanted sectors are named |
| Comparison.CompareRingDetails | crates/dht/src/dht/snapshot.rs:239-322 | exactly the sectors that differ in the wanted rings are named |
| Comparison.HashMismatchIndicesAre | crates/dht/src/dht/snapshot.rs:346-361 | an index is listed iff the hashes there differ |
| Pinpoint.DiffersByOne | crates/dht/src/combine.rs:32-51 | one extra op shows in a region iff it lies in it and has a non-zero id or the region was empty |
| Pinpoint.PinpointHistory | crates/dht/src/dht/snapshot.rs:73-238 | an extra op in the full slices leads to its sector, then its slice, and nothing else |
| Pinpoint.PinpointRecent | crates/dht/src/dht/snapshot.rs:73-322 | an extra op in recent time leads to its ring, then its sector, and nothing else |
| Pinpoint.UnseenOp | crates/dht/src/hash.rs:266-334 | an op outside the sectors or too recent for any slice does not show |
| Dhts.Dht.TryFromStore | crates/dht/src/dht.rs:537-552 | rebuilds a valid model at the time's count, or fails iff some initial count is ahead |
| Dhts.PlainDurations | crates/dht/src/dht.rs:537-552 | full slices of 460,800 s and 459,900 s of reserved time; the count in plain seconds |
| Dhts.Dht.Update | crates/dht/src/dht.rs:124-136 | fails iff the clock is behind the full slices; otherwise valid at the new time and due count |
| Dhts.Dht.StoreAndInform | crates/dht/src/dht.rs:138-150 | the op set grows by the batch, the op count with it, and the model agrees with the new set |
| Dhts.Dht.SnapshotMinimal | crates/dht/src/dht.rs:168-188 | the minimal snapshot of the plain op set; fails iff the arc set is empty |
| Dhts.Dht.RestartIsSafe | crates/dht/src/dht.rs:537-552 | a restart no earlier than the last update succeeds unless an op lies in the future |
| Dhts.Dht.StorePersists | crates/dht/src/dht.rs:537-552 | the store behind a valid model can be rebuilt from |
| Dhts.TakeStep | crates/dht/src/dht.rs:110-188 | each step keeps the model valid at the time's count; only a restart may fail, iff an initial count is ahead |
| Dhts.Run | crates/dht/src/dht.rs:110-188 | over every admissible run the model agrees with the plain op set and the time's count; it fails iff some initial count, at the start or at a restart, is ahead of its time |
| Dhts.NoFutureOpsRestart | crates/dht/src/dht.rs:537-552 | without ops from the future every restart of a run works |
| Dhts.Dht.SlicesAre | crates/dht/src/hash.rs:376-412 | the slice hashes in the store are a function of ops and count |
| Dhts.RunAndSnapshot | crates/dht/src/dht.rs:168-188 | the snapshot after any run is a function of the final op set and the time of the last update; success exactly for a non-empty arc set and a run that does not fail |
| Dhts.TwoRuns | crates/dht/src/dht.rs:168-188 | two nodes run and take snapshots: equal final ops give equal snapshots whatever the histories; one visible op more gives different ones |
| Dhts.ExtraOpShows | crates/dht/src/dht.rs:168-188 | an extra op in covered time and arcs changes the minimal snapshot |
| Tallies.AdmitsIff | crates/dht/src/dht.rs:415-418 | for a sum that does not wrap, the signed comparison is right iff the sum stays in the signed range |
| HashLists.Offer | crates/dht/src/dht.rs:408-418 | a batch goes on the list whole or not at all, as the comparison decides; a list within the budget stays so iff the batch is refused or the sum stays in the signed range |
| HashLists.ServeRow | crates/dht/src/dht.rs:391-420 | a row of batches is served as the fold says: for rings a batch is taken iff the budget is not found spent and the comparison admits it, for sectors iff the comparison admits it |
| HashLists.SectorRow | crates/dht/src/dht.rs:391-406 | the wanted slices of a sector in order, with the bounds of sector 0 |
| HashLists.RingRow | crates/dht/src/dht.rs:456-486 | the wanted sectors of a ring in order, with the bounds of sector 0 |
| HashLists.DiscHashList | crates/dht/src/dht.rs:361-433 | the batches are exactly those of the fold over the sizes asked for, whole, in increasing key order and none unasked, with the spent test between sectors; used bytes their 32-bit total; within the budget iff no turn of the plain fold slips; nothing for a budget of 0 or less |
| HashLists.RingHashList | crates/dht/src/dht.rs:443-524 | the same for partial slices, ring by ring, with the spent test before each batch |
| Tallies.LeftOutHadNoRoom | crates/dht/src/dht.rs:376-420 | however large the sums, a batch is served, or at its turn the budget was spent or it did not fit |
| Tallies.WithinBudgetIff | crates/dht/src/dht.rs:376-420 | the list keeps within a non-negative budget iff no turn of the plain greedy fold that is reached has a sum above the budget that the comparison admits; then it is as large as in plain arithmetic |
| Tallies.ModestWithinBudget | crates/dht/src/dht.rs:415-418 | it does so whenever budget and each batch asked for stay in the signed range together |
| Tallies.SpentRow | crates/dht/src/dht.rs:458-462 | breaking out of the rings on a spent budget leaves out nothing that would have been served |
| Tallies.SpentRows | crates/dht/src/dht.rs:376-378 | breaking out between sectors does so too |
| Tallies.TallyInOrder | crates/dht/src/dht.rs:364-392 | served keys increase, none twice, and were asked for |
| Tallies.AllFit | crates/dht/src/dht.rs:376-420 | if everything asked for fits together, all of it is served; if exactly, all that has a size |
| Tallies.SecondOfNoSize | crates/dht/src/dht.rs:376-462 | with the budget used up exactly, a batch of no size later in a row is served if the budget is looked at between rows only, and not if before each batch |
| HashLists.SectorIsFinished | crates/dht/src/dht.rs:376-420 | so it is for a sector |
| HashLists.RingIsCut | crates/dht/src/dht.rs:458-462 | so it is not for a ring |
| HashLists.OversizedBatchServed | crates/dht/src/dht.rs:361-433 | a batch of 2 GiB is served on a budget of one byte |
| HashLists.OnlyKeyServed | crates/dht/src/dht.rs:361-524 | the only wanted batch is on the list if it fits |
| HashLists.ServeHistory | crates/dht/src/dht.rs:361-433 | for any two op sets: after comparing details, every op of a node in a full slice that differs is served, if what is named fits |
| HashLists.ServeRecent | crates/dht/src/dht.rs:443-524 | the same for every op in a ring and sector that differ |
| HashLists.ServeExtraHistory | crates/dht/src/dht.rs:361-433 | a node with one op more serves that op after comparing details, if its slice fits |
| HashLists.ServeExtraRecent | crates/dht/src/dht.rs:443-524 | the same for one op more in recent time, after comparing the details of its ring |
| Arcs.DistIsMinimum | crates/api/src/arc.rs:64-105 | the least circular distance to any location of the arc, the maximum for an empty arc, with no overflow |
| Arcs.ContainsIsCovers | crates/api/src/arc.rs:108-110 | containment is lying between the bounds, clockwise |
| Arcs.OverlapsIffShared | crates/api/src/arc.rs:138-158 | the end-point test holds iff the arcs share a location |
| Arcs.SpanReaches | crates/api/src/arc.rs:161-172 | the locations of an arc are those within span steps clockwise of its start |
| ArcSets.AddArc | crates/dht/src/arc_set.rs:48-74 | the walk adds exactly the covered sectors; fails iff the length is not whole sectors |
| ArcSets.New | crates/dht/src/arc_set.rs:33-78 | the union of the arcs' sectors; fails iff it meets an arc of broken length before the set is full |
| ArcSets.LocationsMatchIff | crates/dht/src/arc_set.rs:33-78 | for an accepted arc, sectors and locations agree iff it is empty, aligned or full |
| ArcBits.Encode | crates/dht/src/arc_set.rs:129-142 | sixteen words with exactly the bits of the members set |
| ArcBits.Decode | crates/dht/src/arc_set.rs:144-160 | the set whose bits are set; fails iff the number of words is wrong |
| ArcBits.BitOrSets | crates/dht/src/arc_set.rs:129-142 | or-ing in a power of two sets that bit and no other |
| ArcBits.EncodingIsOneToOne | crates/dht/src/arc_set.rs:129-160 | equal words iff equal sets |
| ArcBits.EncodeThenDecode | crates/dht/src/arc_set.rs:129-160 | decoding an encoded set gives it back |
| ArcBits.DecodeThenEncode | crates/dht/src/arc_set.rs:129-160 | encoding decoded words gives them back |
| ArcRuns.RunEnd | crates/dht/src/arc_set.rs:205-212 | the end of a maximal consecutive run |
| ArcRuns.AsArcs | crates/dht/src/arc_set.rs:191-226 | sorted, disjoint, maximal arcs that are exactly the runs of the set |
| ArcRuns.RunArcIs | crates/dht/src/arc_set.rs:213-221 | the arc of a run is aligned, never wraps and covers exactly the run |
| ArcRuns.AsArcsThenNew | crates/dht/src/arc_set.rs:191-226 | making a set of its own arcs gives the set back |
| ArcRuns.LocationInSomeArc | crates/dht/src/arc_set.rs:191-226 | a location is in some arc iff its sector is in the set |
| StorageArcs.NextArc | crates/gossip/src/storage_arc.rs:53-98 | the arc picked among the runs of claimable sectors; fails iff an arc that is looked at is not whole sectors |
| StorageArcs.PickNext | crates/gossip/src/storage_arc.rs:75-98 | for an empty arc the last longest run, otherwise the first longer one that overlaps, otherwise no change |
| StorageArcs.UpdateStorageArcs | crates/gossip/src/storage_arc.rs:22-109 | fails iff some agent cannot be worked with, and then the agents before it are updated and the others left; after a minimal snapshot every common sector is free, after ring details those that are a key of no ring, and the disc kinds change nothing; a sound arc extends exactly as far as sectors of its target are free or held |
| StorageArcs.SyncedIsFree | crates/gossip/src/storage_arc.rs:27-51 | what is left after removing mismatched sectors: all common ones after a minimal snapshot, those no ring reports after ring details |
| StorageArcs.BecomesExtends | crates/gossip/src/storage_arc.rs:53-98 | a non-empty sound arc becomes the whole stretch around it that may be held; in place of an empty one stands a longest such stretch, the last if there are several |
| StorageArcs.PickedGrows | crates/gossip/src/storage_arc.rs:53-98 | a non-wrapping arc in the target stays in it, loses nothing, gains only synced sectors, and grows if it changes |
| StorageArcs.GrowthRun | crates/gossip/src/storage_arc.rs:22-109 | over any run of snapshots with a fixed target a sound arc stays inside it, loses nothing, gains only sectors that were common and not reported in some round, and changes at most 512 times |
| StorageArcs.SoundLocations | crates/gossip/src/storage_arc.rs:53-98 | for such arcs what holds of sectors holds of locations |
| StorageArcs.KeepsIff | crates/gossip/src/storage_arc.rs:75-98 | any current arc keeps all its locations iff it is not replaced or the run that replaces it has the sectors of both its ends and, if it wraps, is the whole circle |
| StorageArcs.UnalignedArcLosesLocations | crates/gossip/src/storage_arc.rs:22-109 | a concrete agent with an unaligned arc that does not wrap and loses locations |
| StorageArcs.WrappingKeepsIff | crates/gossip/src/storage_arc.rs:87-98 | a wrapping arc keeps all its locations iff it is not replaced or everything is claimable |
| StorageArcs.WrappingArcLosesLocations | crates/gossip/src/storage_arc.rs:22-109 | a concrete agent with a wrapping arc that loses locations |
| NewOps.RetrieveOpIdsBounded | crates/core/src/factories/mem_op_store.rs:299-350 | a page of ops of the arc within the limit, used bytes their total: all of them and the current time, or the first by time up to an op that would not have fitted, and the time of that op |
| NewOps.PageMovesIff | crates/core/src/factories/mem_op_store.rs:299-350 | paging one arc gets past its start iff all ops stored at that time fit on one page |
| NewOps.PageThrough | crates/core/src/factories/mem_op_store.rs:299-350 | paging one arc on and on takes at most one page more than there are ops and reaches now, with everything fetched, iff the ops of each time fit on a page; otherwise it stalls at the first time whose ops do not |
| NewOps.SameTimeStalls | crates/core/src/factories/mem_op_store.rs:299-350 | two ops of one stamp that fit alone but not together: the bookmark stays |
| NewOps.PageIsUnique | crates/core/src/factories/mem_op_store.rs:299-350 | with at most one op per stamp the page is a function of log, start and limit |
| NewOps.RetrieveNewOpIds | crates/gossip/src/respond.rs:315-343 | page by page, each arc within what the arcs before it left; the budget left never underflows; the least bookmark answers for all arcs; used bytes bound the data listed, exactly so for disjoint arcs |
| NewOps.MovesIff | crates/gossip/src/respond.rs:315-343 | paging several arcs gets on iff each, after what the arcs before it took, has room for all its ops stored at the start |
| NewOps.PagesAreUnique | crates/gossip/src/respond.rs:315-343 | with at most one op per stamp and arc the pages are a function of log, arcs, start and budget |
| NewOps.EarlierArcStarvesLater | crates/gossip/src/respond.rs:315-343 | a later op in an earlier arc keeps the bookmark at an op of a later arc although all ops stored there would fit |
| NewOps.StarvedExample | crates/gossip/src/respond.rs:315-343 | such a case, concretely |
| NewOps.StepKeeps | crates/gossip/src/respond.rs:173-202 | each protocol step, with ops entered in time, keeps everything before the bookmark fetched, and the bookmark never goes back |
| NewOps.InsertKeepsIff | crates/core/src/factories/mem_op_store.rs:205-227 | everything stays covered, now and whichever reply comes next, iff the op is entered before the bookmark or a reply went past its stamp |
| NewOps.LateEntryIsSkipped | crates/core/src/factories/mem_op_store.rs:128-142 | a concrete run in which an op stamped early and entered late is skipped |
| NewOps.NothingSkipped | crates/gossip/src/respond.rs:284-343 | in every run whose ops are entered in time, under loss, repetition and reordering, all ops between initial and current bookmark were handed to fetch |
| NewOps.CoverageKeptIff | crates/gossip/src/respond.rs:284-312 | truthful replies for an interval keep everything covered iff it starts no later than the bookmark or does not move it |
| NewOps.FirstContactMaySkip | crates/gossip/src/respond.rs:345-364 | a concrete run without initial bookmark that skips an op |
| NewOps.FirstRequestMeetsSlices | crates/gossip/src/respond.rs:345-364 | without a bookmark a request goes back half an hour, and asks for all that is too recent for the slices iff there has been that much time |
| NewOps.BookmarkIsLatest | crates/gossip/src/respond.rs:284-312 | the bookmark is the latest there has been |
| NewOps.PassableIff | crates/gossip/src/respond.rs:315-343 | what an answer promises allows it past a time iff the time has passed and the budget has room for all ops in the arcs stored then |
| NewOps.GroupBlocks | crates/gossip/src/respond.rs:315-343 | ops of one stamp that together exceed every budget are never passed, in any run |
| NewOps.OversizedOpBlocks | crates/gossip/src/respond.rs:315-343 | an op above every budget is moreover never handed to fetch, in any run |
| BootstrapSpace.Space.Update | crates/bootstrap_srv/src/space.rs:151-230 | the new list is the updated one, whose every info is accounted for by `BootstrapSpace.UpdateIs` and `BootstrapSpace.UpdateExpires`; taking the info cannot fail; the list stays well kept |
| BootstrapSpace.Space.Read | crates/bootstrap_srv/src/space.rs:112-148 | a JSON list of exactly the length computed beforehand: each text at its place, in order, between a bracket or comma and a comma or bracket |
| BootstrapSpace.UpdateExpires | crates/bootstrap_srv/src/space.rs:172-228 | after an update every info expires later than now, but for one just pushed, which is last |
| BootstrapSpace.UpdateIs | crates/bootstrap_srv/src/space.rs:151-230 | an info not superseded by a newer put is still there unchanged iff it has not expired and does not make room, which only the one at half the limit of a full list does; a superseded one gives way to the newer, or to nothing if that is a tombstone or expired |
| BootstrapSpace.UpdateKeeps | crates/bootstrap_srv/src/space.rs:151-230 | distinct agents, no tombstones, at most the limit |
| BootstrapSpace.UpdatePreserves | crates/bootstrap_srv/src/space.rs:151-230 | survivors keep their order, at most one makes room, none of the first half of the limit does |
| BootstrapSpace.CreatedNeverDecreases | crates/bootstrap_srv/src/space.rs:175-205 | the creation time of a held agent never goes back, and a newer put takes its place |
| BootstrapSpace.RunKeeps | crates/bootstrap_srv/src/space.rs:151-230 | the list stays well kept over every sequence of puts and prunes |
| BootstrapSpace.LongRunningStay | crates/bootstrap_srv/src/lib.rs:126-154 | an agent in the first half of the limit stays there as long as its info lives, whatever others put |
| TempStore.StepKeeps | crates/bootstrap_srv/src/store.rs:117-145 | each step of each thread keeps one writer per file at its end and all written data intact |
| TempStore.RunKeeps | crates/bootstrap_srv/src/store.rs:117-145 | the same over every interleaving |
| TempStore.ReadsBackForever | crates/bootstrap_srv/src/store.rs:67-89 | a returned reference reads back its own bytes at all later times; ranges in a file never overlap |
| TempStore.RunReuses | crates/bootstrap_srv/src/store.rs:117-145 | in every run data is written below ten mebibytes only, and until something fails every file below that has a writer |
| TempStore.StepReuses | crates/bootstrap_srv/src/store.rs:117-145 | a file is made only when no writer is idle, and no file with room is given up |
| ConfigTree.CompatibleByChild | crates/api/src/config.rs:150-215 | root and children decide whether no path conflicts |
| ConfigTree.CompatibleIff | crates/api/src/config.rs:150-215 | compatible iff at no path a map meets an entry or an entry meets a map that has something in it |
| ConfigTree.ApplyMap | crates/api/src/config.rs:150-215 | succeeds iff no path puts a map over an entry or an entry over a non-empty map; exactly the due updates are collected |
| ConfigTree.SetIsMerge | crates/api/src/config.rs:137-235 | setting in place gives the values of the deep merge |
| ConfigTree.SetAt | crates/api/src/config.rs:137-235 | at every path: named values are set, others and all callbacks kept |
| ConfigTree.Config.SetModuleConfig | crates/api/src/config.rs:137-235 | success iff compatible; values of the deep merge, callbacks kept, exactly the touched entries with callbacks notified |
| ConfigTree.MergeOverrides | crates/api/src/config.rs:303-325 | the loop computes the deep merge |
| ConfigTree.MergeAt | crates/api/src/config.rs:303-325 | path by path, for any two trees: where the overrides have anything they decide; below one of their entries nothing is left; elsewhere the tree is as it was |
| ConfigTree.MergeKeepsCallbackIff | crates/api/src/config.rs:303-325 | merging plain overrides keeps a callback iff they have nothing at its path and no entry on the way |
| ConfigTree.Config.MergeConfigOverrides | crates/api/src/config.rs:287-301 | the tree becomes the deep merge |
| AcceptBurst.Tracker.CheckAccept | crates/gossip/src/burst.rs:57-80 | accepted iff fewer than factor times window count are remembered from the last interval times window count milliseconds; old times forgotten, the new one recorded |
| AcceptBurst.Tracker.Cleanup | crates/gossip/src/burst.rs:96-106 | every peer's times are cut at the threshold, peers without any are dropped |
| AcceptBurst.Run | crates/gossip/src/burst.rs:57-106 | under a clock that does not go back the answers are those of the full history, wherever clean-ups run |
| AcceptBurst.CleanupsChangeNothing | crates/gossip/src/burst.rs:96-106 | leaving clean-ups out of a run changes no answer |
| AcceptBurst.AtMostMaxBurst | crates/gossip/src/burst.rs:57-94 | at most factor times window count accepts in any window of interval times window count |
| AcceptBurst.DefaultLimit | crates/gossip/src/burst.rs:57-94 | with the default config at most 15 in ten minutes |
| AcceptBurst.LimitedIff | crates/gossip/src/burst.rs:57-94 | that limit holds in a window for all runs iff the window does not contain the epoch, or nothing is ever accepted |
| AcceptBurst.RefusedIffFull | crates/gossip/src/burst.rs:57-80 | a request is refused iff the window of that length ending now already holds that limit |

## Left out

- HashLists.RingHashList: does not admit the ring index one past the last, because the original panics there.
- HashLists.DiscHashList: sums wrap around at 32 bits; the panic of a debug build on overflow is not modelled.
- HashPartitions.HashPartition.RingDetails: goes ring by ring where the original goes sector by sector; the result is the same map.
- Dhts.Dht.StoreAndInform: does not model informing an op twice or concurrently with an update; a second time would cancel its hash.
- TimePartitions.TimePartition.Update: does not model the wrap-around of 64-bit timestamps or a failing op store.
- NewOps.StepKeeps: does not model bookmark expiry, a change of the common arc set, or a fetch that refuses the ops after the bookmark has moved.
- BootstrapSpace.Space.Update: infos are parsed values; unreadable entries and I/O errors are not modelled, and the limit is constant over a run.
- TempStore.StepKeeps: a failed write may leave part of its bytes behind, but failures on opening and reading files are not modelled.
- ConfigTree.Config.SetModuleConfig: says nothing about the tree after an error, since the original leaves partial changes; warnings and unknown-key checks are not modelled.
- AcceptBurst.Tracker.CheckAccept: the limit is an unbounded product, without 32-bit overflow; the timer that runs the clean-up is not modelled.
- The registration of config callbacks, and the defaults, validation and runtime flags with the warnings they guard: single-branch facts.
- `handle_snapshot` as a whole and the gossip message handlers: only what they compute on the DHT is modelled.
- The variant of the storage-arc update without the `sharding` feature, and the sharding controller.
- The space map of the bootstrap server, authentication, TLS, HTTP, the transports, the bootstrap client.
- Serialisation, signatures, URL parsing, logging and metrics.

# Verified models of the data paths of the database

A Dafny 4.11 project that models the self-contained algorithmic cores of the repository and proves what they are
for. `dafny verify dfyconfig.toml` checks all of it. Nothing is executed; unseen parts (the underlying reader, the
semaphore, types and schemas) are given by contracts or as parameters.

| module | models |
|---|---|
| `Positions`, `CacheRows`, `CachePopulation`, `Streams`, `CacheReader` | the forward row-cache reader, what it leaves in the cache, eviction, and any number of readers at once |
| `RangesWalker` | the walker that trims range tombstone changes to clustering ranges |
| `Combine`, `Bytes`, `AtomicCells`, `Counters`, `CounterBuilder`, `CounterUpdates` | the sorted merge, reconciliation of cells, distributed counters |
| `Collections`, `CollectionCompaction` | merge, difference and compaction of collections |
| `Compounds`, `LegacyCompound`, `Composites`, `ClusteringBounds` | key encodings, comparators documented as fast forms of simple ones, bounds |
| `CellLocking`, `CellLockers` | the cell locker as a state machine, and its methods |
| `Intervals` | wrapping intervals and their algebra |
| `MultishardPages` | giving read-ahead fragments back to shard readers at the end of a page |
| `ByteStreams` | the chunked output stream as a flat byte sequence |
| `Durations` | parsing and printing durations |
| `Basics` | shared definitions |

Clustering keys are ranks in a dense order (a real number in the open unit interval) with a weight for the cuts around
them; a bound on a proper prefix is a cut with a rank of its own. Keys of collections, counter ids and columns are
ranks, too. The cache reader is modelled over one version, with the source below it a fixed function from keys to rows
and tombstones; the steps of other readers and of eviction are arbitrary, bounded only by a rely condition that every
reader in turn guarantees.

## What the proofs found

Where the code does less than one would expect, the members named give the exact condition under which it does what is
expected, and mostly a concrete input for which it does not.

- `cache_mutation_reader.hh:445-470` inserts an empty entry at the end of a single-row read. It contradicts the source
  when the key's tombstone was already in force on entering the read, so that the change from the source is swallowed
  and `_has_rt` stays false (`CacheReader.ForgetsTombstone`), and when the row was evicted before the read ended
  (`CacheReader.ForgetsRow`). It is right if and only if the key is cached already or the reader itself has seen nothing
  there, neither in what it has emitted nor as the tombstone in force (`CacheReader.Reader.ForgetsExactly`).
  `CacheReader.Run` covers all runs up to such a step, `CacheReader.Reader.DoFillBuffer` the step itself.
- `cache_mutation_reader.hh:931-961` drops a dummy that population has made redundant, which is not to change what the
  cache holds. Called from line 610 it also drops a continuous dummy right before a row that keeps another tombstone, and
  the interval in front of that dummy, known before, becomes unknown (`CacheReader.UnlearnsInterval`). The exact
  condition, on the rows before, is in `CachePopulation.ContinuedThenDropped`. With that and the case above aside, a reader
  alone leaves every key of its ranges known, single rows apart (`CacheReader.PopulateAll`). With others at work, an entry put between the population lower bound
  and the new entry leaves what lies before it unknown (`CachePopulation.StretchKnown`,
  `CachePopulation.StretchInterrupted`).
- `clustering_ranges_walker.hh:158-182` emits an extra pair of changes on calls at the position after all rows
  (`RangesWalker.DetourToTheEnd`), and a reset forgets a trim that landed between ranges (`RangesWalker.TrimThenReset`,
  `RangesWalker.TrimInGap`). The change that lines 117-118 promise after a trim is not emitted for a point between ranges
  or at the start of a range already entered (`RangesWalker.TrimThenAdvance`), and a tombstone in force when a trim leaves
  its range behind is not closed (`RangesWalker.RunAfterTrim`).
- `interval.hh:292-325` misses subsets of an interval that goes all the way around (`Intervals.ContainsIntervalExact`,
  `Intervals.MissedSubset`).
- `compound_compat.hh:614-627` finds no static composite valid, and none that is not compound (`Composites.IsValid`);
  a composite made from no components does not decode (`Composites.ExplodeFromExploded`).
- Merging counters commutes only if shards with equal id and clock are equal (`Counters.ApplyCommutes`,
  `Counters.OrderMatters`); merging collections is idempotent only in normal form (`Collections.MergeIdempotent`,
  `Collections.MergeDropsCovered`), while it associates and commutes always;
  `Collections.DifferenceExact` says when a difference loses something (`Collections.DifferenceMisses`).
- Compacting turns an expired cell into a deletion, which then wins over a cell with the same timestamp and a later
  expiry; everywhere else compacting before a merge is invisible (`CollectionCompaction.CompactThenMerge`,
  `CollectionCompaction.BuriedHides`).
- A printed duration is not parsed back if it is zero or its parts differ in sign (`Durations.PrintThenParse`,
  `Durations.MixedSigns`).
- `bytes_ostream.hh:392-396` retracting to a position taken before the first write resets the initial chunk size to the
  default (`ByteStreams.BytesOstream.Retract`). Lines 414-437 compare two streams: the loop does not end if one is a proper
  prefix of the other, looks at a fragment that is not there if one has none, and takes any two streams that begin with
  an empty fragment for equal (`ByteStreams.BytesOstream.Equals`, `ByteStreams.ReusedLookEqual`).
- `multishard_mutation_query.cc:458-463` gives the fragments of the last partition back without asking for the state of
  the reader, so they are counted as kept even where the reader is not saved afterwards
  (`MultishardPages.KeptUnlessPageEndsUnsaved`, `MultishardPages.CountedButLost`).

## Model

| member | source | states |
|---|---|---|
| `CacheRows.AgreementIsSoundness` | cache_mutation_reader.hh:26-72 | Agreement entry by entry is the same as: for every key the cached rows either do not know it or know exactly the source's row and tombstone |
| `CacheRows.InsertAgrees` | cache_mutation_reader.hh:1085-1090 | Inserting an entry that agrees on its own keeps agreement: splitting an interval invents no claim |
| `CacheRows.AddedAgrees` | cache_mutation_reader.hh:621-742 | An entry inserted with the continuity and tombstone of the interval it splits keeps agreement, and leaves every other entry there |
| `CacheRows.SplitKeepsContents` | cache_mutation_reader.hh:674-742 | Splitting a continuous interval with a dummy changes no lookup |
| `CacheRows.EvictionForgets` | row_cache.cc:1324-1348 | Eviction only forgets: every lookup afterwards is the same or unknown; dropping a dummy between continuous intervals with one tombstone changes none |
| `CacheRows.EvictAgrees` | row_cache.cc:1324-1348 | Eviction of any entry keeps agreement with the source |
| `CacheRows.PopulateAgrees` | cache_mutation_reader.hh:621-671 | Marking an entry continuous is sound when the source is clear from the population lower bound to it, whatever entries lie between; what it makes known is CachePopulation.PopulatedLearns |
| `CacheRows.EmptyRowAgrees` | cache_mutation_reader.hh:445-470 | The empty entry left at the end of a single-row read keeps agreement if and only if the key is cached already or the source has neither row nor tombstone there; otherwise the rows misstate the key |
| `CacheReader.Reader.ForgetsExactly` | cache_mutation_reader.hh:445-470 | The same on what the reader itself holds: the empty entry is right if and only if the key is cached already, or the reader has emitted neither row nor tombstone for it, or has not passed it with a tombstone in force |
| `CacheRows.ContinuedAgrees` | cache_mutation_reader.hh:548-618 | Making the next entry continuous, with a dummy before it where the tombstones differ, keeps agreement; what it makes known is CachePopulation.ContinuedLearns |
| `CachePopulation.MarkedLearns` | cache_mutation_reader.hh:607-609 | Marking an entry continuous makes known, with the row and tombstone of the source, exactly the keys after the entry before it, and changes no other lookup |
| `CachePopulation.AddedLearns` | cache_mutation_reader.hh:636-647 | An entry inserted with the continuity of its place makes nothing known but its own row |
| `CachePopulation.PopulatedLearns` | cache_mutation_reader.hh:621-742 | Inserted and marked, an entry makes every key from the entry before it up to its own known, and changes no other lookup |
| `CachePopulation.ContinuedLearns` | cache_mutation_reader.hh:548-618 | So does making the next entry continuous, with the dummy in front of a row that has another tombstone or without |
| `CachePopulation.DroppedKeeps` | cache_mutation_reader.hh:931-961 | Dropping the last entry changes no lookup if the interval after it is continuous with the same tombstone |
| `CachePopulation.ContinuedThenDropped` | cache_mutation_reader.hh:548-618 | Continuity and the drop after it make the interval known and forget nothing if and only if the last entry is not a continuous dummy right before a row that keeps another tombstone; in that case something is forgotten |
| `CachePopulation.DropLoses` | cache_mutation_reader.hh:931-961 | In that case some key in the interval before the dropped entry, known before, is unknown after |
| `CachePopulation.PopulatedThenDropped` | cache_mutation_reader.hh:471-496 | At the end of a range the drop is always harmless |
| `CachePopulation.StretchKnown` | cache_mutation_reader.hh:621-671 | After populating, the whole stretch since the population start is known if and only if its part before the preceding entry was known already, which it is with no entry in between |
| `CachePopulation.StretchInterrupted` | cache_mutation_reader.hh:621-671 | An entry that somebody else put there meanwhile keeps the first part of the stretch unknown |
| `CacheReader.Reader.constructor` | cache_mutation_reader.hh:26-72 | A fresh reader has the invariant over any agreeing rows |
| `CacheReader.Reader.AdvanceTo` | partition_snapshot_row_cursor.hh:519-522 | The cursor stands at the first entry not below the position; a continuous entry vouches for the stretch before it |
| `CacheReader.Reader.MaybeRefresh` | partition_snapshot_row_cursor.hh:424-495 | A refreshed cursor reports the same position only if no row can lie between the old one and the new one |
| `CacheReader.Reader.MoveToRange` | cache_mutation_reader.hh:882-923 | Entering a range: the state, cursor, bounds and the lower-bound dummy, exactly; the invariant and agreement are kept |
| `CacheReader.Reader.MoveToNextRange` | cache_mutation_reader.hh:866-879 | Closing a range with its tombstone and entering the next or the end of stream: no entry is lost, and over agreeing rows the invariant is kept |
| `CacheReader.Reader.MaybeDropLastEntry` | cache_mutation_reader.hh:931-961 | Drops the last entry exactly when it is a redundant dummy, and what the rows are then |
| `CacheReader.Reader.MoveToNextEntry` | cache_mutation_reader.hh:965-984 | Next entry, next range or fall back to the source; exactly which, what is remembered, and that fewer entries are ahead |
| `CacheReader.Reader.CopyFromCacheToBuffer` | cache_mutation_reader.hh:758-857 | Serving an interval and its entry from the cache keeps: everything requested below the lower bound was emitted exactly, nothing above it; the reader is nearer its end |
| `CacheReader.Reader.MoveToUnderlyingSource` | cache_mutation_reader.hh:347-390 | Starting a read of the source closes a tombstone the source does not reopen, and keeps the invariant |
| `CacheReader.Reader.EnsurePopulationLowerBound` | cache_mutation_reader.hh:513-545 | True exactly when the interval read so far starts before all rows or at an entry that is still there |
| `CacheReader.Reader.MaybeAddRow` | cache_mutation_reader.hh:621-671 | Populating a row: the rows afterwards, agreement with the source, and, if the reader can populate and extend, every key from the entry before up to the new one is known with the source's row and tombstone and no other key is touched; if nothing lay between, that is every key since the population start |
| `CacheReader.Reader.MaybeAddDummy` | cache_mutation_reader.hh:674-742 | Populating a range tombstone change: the rows afterwards, agreement, and the same of what is made known |
| `CacheReader.Reader.MaybeUpdateContinuity` | cache_mutation_reader.hh:548-618 | Marking the next entry continuous and dropping a redundant last entry: the rows afterwards, agreement, and, with nothing in between, the whole interval up to the next entry is made known and nothing forgotten if and only if no dummy too many is dropped |
| `CacheReader.Reader.OfferRow` | cache_mutation_reader.hh:987-1031 | A row from the source is emitted and populated; the invariant is kept |
| `CacheReader.Reader.OfferChange` | cache_mutation_reader.hh:987-1041 | A tombstone change from the source is emitted and populated, or swallowed if it closes the read or changes nothing |
| `CacheReader.Reader.PopulateUpperBound` | cache_mutation_reader.hh:471-496 | Population of a dummy at the end of a range: the rows afterwards, agreement, and, if the reader can populate and extend, every key from the entry before up to the end of the range is known |
| `CacheReader.Reader.UnderlyingDone` | cache_mutation_reader.hh:427-505 | The end of a read of the source, with every branch on what happened to the next entry meanwhile: agreement is kept if and only if the reader does not forget what it saw at a single-row range, and then the invariant, and the reader is nearer its end; a reader alone that can populate loses nothing known if and only if it drops no dummy too many, and then all it passed is known |
| `CacheReader.Reader.ReadFromCache` | cache_mutation_reader.hh:391-412 | Copying from the cache up to a preemption point keeps the invariant and agreement |
| `CacheReader.Reader.Start` | cache_mutation_reader.hh:303-327 | The first call moves to the first range, or ends the stream if there is none |
| `CacheReader.Reader.DoFillBuffer` | cache_mutation_reader.hh:347-412 | Every turn of the reader takes the shared rows from agreement to agreement if and only if it does not forget what it saw; it then keeps the invariant and is nearer its end; the turn of a reader alone that can populate keeps every known key known if and only if it drops no dummy too many, and then every key passed is known |
| `CacheReader.PopulateAll` | cache_mutation_reader.hh:347-510 | A fresh reader left alone that can populate on every turn, over any agreeing rows, any way of splitting its turns and any answers of the source, leaves every key of its ranges other than single rows known with the row and tombstone of the source at the end of the stream; nothing stops it but the two defects named |
| `CacheReader.UnlearnsInterval` | cache_mutation_reader.hh:931-961 | A run in which the drop of a dummy makes the known interval before it unknown |
| `CacheReader.Reader.Reposition` | cache_mutation_reader.hh:391-401 | Looking the next entry up again sends the reader to the source if and only if the cache does not know what follows its lower bound |
| `CacheReader.Reader.Stable` | cache_mutation_reader.hh:347-412 | What other readers and eviction do to the rows between two turns leaves the reader's invariant true |
| `CacheReader.TakeTurn` | cache_mutation_reader.hh:347-412 | A turn of one reader keeps agreement and the invariants of all readers of the partition, if and only if it does not forget what the reader saw |
| `CacheReader.TakeEviction` | row_cache.cc:1324-1348 | The eviction of any entry keeps the invariants of all readers of the partition |
| `CacheReader.TakeInvalidation` | mutation/partition_version.hh:333-352 | Invalidating every iterator without a change to the rows keeps the invariants of all readers |
| `CacheReader.ReaderFacts` | cache_mutation_reader.hh:26-72 | A reader at its end has emitted, in order, exactly the source's rows and tombstones in the requested ranges |
| `CacheReader.Run` | cache_mutation_reader.hh:347-510 | Any number of readers interleaved in any order with each other, with evictions and with invalidations: agreement always, and every finished reader's stream exact; cut short only before a turn that forgets what its reader saw, which the reader's own state decides |
| `CacheReader.ReadAll` | cache_mutation_reader.hh:347-510 | A reader left alone reaches its end, whatever the snapshot does, wherever it is preempted and however the source divides its answers, with an exact stream; only a turn that forgets what it saw stops it |
| `CacheReader.ForgetsTombstone` | cache_mutation_reader.hh:445-470 | For every tombstone, a run from an agreeing state to a single-row read whose end inserts an entry that denies the tombstone |
| `CacheReader.ForgetsRow` | cache_mutation_reader.hh:445-470 | For every row, a run in which the row is evicted before the single-row read ends, whose end inserts an entry that denies the row |
| `Combine.CombineInto` | combine.hh:22-45 | The loop computes the merge of two sorted sequences |
| `Combine.CombinedLookup` | combine.hh:22-45 | A lookup in the merge is the merge of the lookups |
| `Combine.CombinedSorted` | combine.hh:22-45 | The merge of sorted sequences is sorted and has no key twice |
| `AtomicCells.MergeOrderTotal` | mutation/atomic_cell.cc:75-122 | Reconciliation is antisymmetric and no two different cells tie |
| `AtomicCells.MergeOrderTransitive` | mutation/atomic_cell.cc:75-122 | Reconciliation is transitive |
| `AtomicCells.BestWins` | mutation/atomic_cell.cc:75-122 | A cell wins if and only if its timestamp is later; at equal ones if it is deleted and the other is not, or deleted later by the unsigned time, or expires and the other does not, or expires later, or at equal expiry was written later, or holds the larger value |
| `Counters.ApplyInPlace` | counters.cc:48-89 | Succeeds if and only if the destination has every id of the source, also with no shards at all; then it holds the per-id merge and the source the old shards; otherwise the destination is restored and the merge with the source is unchanged |
| `Counters.RollBack` | counters.cc:62-73 | The rollback restores every destination shard and stays within bounds |
| `Counters.AppliedIsMerged` | counters.cc:48-89 | The in-place form refines the merge of `combine` |
| `Counters.RolledBackMerges` | counters.cc:48-89 | What a failed attempt leaves in the source merges to the same result |
| `Counters.Apply` | counters.cc:91-135 | The destination is the reconciled cell on every path (what that is: Counters.UpdatesAddUp, DeletionWins, LatestTimestamp and the merge laws), and what the source holds afterwards on every path: exchanged with a dead cell, untouched by an update, the old shards or the old cell after a merge |
| `Counters.UpdatesAddUp` | counters.cc:103-108 | Two updates give one whose delta is the sum, as a 64-bit integer; updates and deletions among them can be applied in any order and grouping |
| `Counters.DeletionWins` | counters.cc:91-101 | A deletion beats whatever is not one, on either side, and of two deletions the later one is left |
| `Counters.LatestTimestamp` | counters.cc:91-135 | Of two updates, or two cells with shards, the later timestamp stays |
| `Counters.MergeCommutes` | counters.cc:116-134 | Merging shards commutes if and only if equal id and clock mean equal shards |
| `Counters.ApplyCommutes` | counters.cc:91-135 | Applying commutes if and only if equal id and clock mean equal shards |
| `Counters.OrderMatters` | counters.cc:91-135 | Two cells for which it does not |
| `Counters.ApplyAssociates` | counters.cc:91-135 | Applying associates for all shard cells and dead cells |
| `Counters.ApplyIdempotent` | counters.cc:91-135 | Applying a cell to itself changes nothing |
| `Counters.Difference` | counters.cc:137-177 | The two-cursor loop computes the shards the other cell lacks or has older |
| `Counters.DifferenceSuffices` | counters.cc:137-177 | Applying the difference has the effect of applying the whole cell |
| `Counters.DifferenceMinimal` | counters.cc:137-177 | No shard of the difference can be left out |
| `CounterBuilder.CellBuilder.AddMaybeUnsortedShard` | counters.hh:173-180 | The shard is appended; of all shards ever added the builder still has the newest of every id, and one that counts as sorted is ordered |
| `CounterBuilder.CellBuilder.SortAndRemoveDuplicates` | counters.cc:31-46 | The newest shard of every id ever added, in order, and the builder can be added to again; with equal id and clock meaning equal shards, the merge of all that were added |
| `CounterBuilder.MergedAllHas` | counters.cc:31-46 | Merging shards one at a time leaves a newest shard of every id |
| `CounterBuilder.AnyOrder` | counters.cc:31-46 | In whatever order the shards come, the result is the same if equal id and clock mean equal shards |
| `CounterUpdates.CollectShards` | counters.cc:208-225 | The queue holds the local shard of every live column, by column |
| `CounterUpdates.TransformRow` | counters.cc:208-247 | Every cell of the row is transformed against the state's cell of its own column |
| `CounterUpdates.TransformNewRow` | counters.cc:185-197 | Without state every update becomes a first shard |
| `CounterUpdates.TransformRows` | counters.cc:249-263 | The row cursor pairs every row with the state's row of the same key |
| `CounterUpdates.Transform` | counters.cc:180-264 | Every cell of the mutation is transformed against the state's cell in the same row and column |
| `CounterUpdates.SumMergedOne` | counters.hh:323-327 | Merging in a newer shard changes the total by the difference to the old one |
| `CounterUpdates.UpdateAddsDelta` | counters.cc:226-247 | Applying a transformed update raises the total by exactly its delta modulo 2^64, raises the local clock strictly and leaves every other shard alone |
| `CounterUpdates.UpdatesAddDeltas` | counters.cc:226-247 | Two updates applied to each other and then transformed raise the total by both deltas modulo 2^64 |
| `CounterUpdates.TransformedShard` | counters.cc:185-247 | A transformed update is one shard of the local replica with the timestamp of the update, whose clock is one more than that of the shard it replaces, or one, plus the offset |
| `CounterUpdates.MutationAddsDeltas` | counters.cc:180-264 | The whole effect of a write: applied to the state it was made against, the transformed mutation raises every counter by the delta for its row and column modulo 2^64, starts the ones that were not there, leaves deleted ones deleted, carries deletions over and touches nothing else |
| `RangesWalker.DetourIsFree` | clustering_ranges_walker.hh:94-109 | A call that keeps the tombstone on the way to a later position changes nothing in what is emitted |
| `RangesWalker.OnlyEssentialCallsMatter` | clustering_ranges_walker.hh:94-109 | The emitted changes depend only on where the tombstone changes and where the walk ends |
| `RangesWalker.WalkMeaning` | clustering_ranges_walker.hh:151-185 | Containment is membership in the ranges, and the changes of one call mean the tombstone cut to the ranges |
| `RangesWalker.RunMeaning` | clustering_ranges_walker.hh:94-109 | The changes of a whole run mean, at every position reached, the requested tombstone cut to the ranges |
| `RangesWalker.NoRedundantChanges` | clustering_ranges_walker.hh:94-109 | Every emitted change changes the tombstone in force |
| `RangesWalker.SegmentsHold` | clustering_ranges_walker.hh:54-71 | What the walker goes through holds a clustered position if and only if the given ranges do, and the static row if and only if it was asked for |
| `RangesWalker.SegmentsFormed` | clustering_ranges_walker.hh:54-84 | It is ordered and disjoint, and a fresh walker stands at its start |
| `RangesWalker.ContainedIsRequested` | clustering_ranges_walker.hh:139-185 | A call after any run of calls answers for a clustered position that it is contained if and only if the given ranges contain it |
| `RangesWalker.FreshRunMeaning` | clustering_ranges_walker.hh:94-109 | The changes of a whole run of a fresh walker mean, at every clustered position reached, the requested tombstone where the given ranges contain it and none elsewhere |
| `RangesWalker.DetourToTheEnd` | clustering_ranges_walker.hh:158-182 | At the position after all rows, exactly when a detour is free: no tombstone, or it stops short of the end of the last range, or of that position once the ranges are exhausted |
| `RangesWalker.StaysWithin` | clustering_ranges_walker.hh:158-182 | A call leaves a range ahead if and only if it stops short of the end of the last one |
| `RangesWalker.RunAfterTrim` | clustering_ranges_walker.hh:111-134 | A run that goes on after a trim means the requested tombstones cut to the trimmed ranges if and only if what is in force is what the walker takes to be, or the walk goes on at the start of a range |
| `RangesWalker.Walker.constructor` | clustering_ranges_walker.hh:74-84 | What remains is exactly the clustered positions of the given ranges, and the static row if and only if it was asked for; the change counter is positive |
| `RangesWalker.Walker.AdvanceToNextRange` | clustering_ranges_walker.hh:34-52 | Moves to the next range and says whether there is one; the change counter never goes back and changes whenever the lower bound does, which every other operation keeps too |
| `RangesWalker.Walker.AdvanceTo` | clustering_ranges_walker.hh:151-185 | The loop emits, answers and stops as the walk over the ranges does |
| `RangesWalker.Walker.TrimFront` | clustering_ranges_walker.hh:119-134 | Exactly the remaining positions from the trim point on are left, the trim is recorded exactly when it cuts a range, and a range counts as entered afterwards exactly when it was and nothing of it was cut |
| `RangesWalker.Walker.Reset` | clustering_ranges_walker.hh:284-295 | Exactly the clustered positions of the given ranges from the recorded trim on are left, and the change counter has moved on |
| `RangesWalker.Walker.AdvanceToRange` | clustering_ranges_walker.hh:194-207 | True if and only if some range that is left overlaps the given one |
| `RangesWalker.Walker.ContainsTombstone` | clustering_ranges_walker.hh:214-233 | True if and only if some range not left behind overlaps, and the tombstone does not end before the recorded trim |
| `RangesWalker.Walker.SplitTombstone` | clustering_ranges_walker.hh:239-264 | The pieces hold exactly the positions of the tombstone in the ranges not left behind and not before the recorded trim; nothing is found before a range that encloses it, as the source asserts |
| `RangesWalker.TrimThenReset` | clustering_ranges_walker.hh:126-133 | A trim survives a reset if and only if it cuts a range or has nothing to cut off |
| `RangesWalker.TrimInGap` | clustering_ranges_walker.hh:126-133 | A trim between two ranges that a reset forgets |
| `RangesWalker.TrimThenAdvance` | clustering_ranges_walker.hh:117-118 | The promised change for the trim point is emitted by the call at the lower bound, with a tombstone active and anything left, if and only if the point is contained and is not the start of a range already entered; otherwise which change is |
| `Bytes.CompareTransitive` | bytes.hh:171-180 | The unsigned comparison of byte strings is transitive |
| `Bytes.CompareAntisymmetric` | bytes.hh:171-180 | The unsigned comparison of byte strings is antisymmetric |
| `Bytes.CompareMeans` | bytes.hh:171-180 | A byte string is larger if and only if it is larger at the first difference, or has the other as a proper prefix |
| `Compounds.SerializeValue` | compound.hh:103-112 | Refuses keys over the limit, otherwise writes the length-prefixed components |
| `Compounds.ComponentIterator.ReadCurrent` | compound.hh:159-174 | Reads one component, fails on truncated input, and marks the end |
| `Compounds.DeserializeValue` | compound.hh:203-210 | Iterating from begin to end collects the components, or fails as a whole |
| `Compounds.ParsePack` | compound.hh:65-83 | Every list of components is read back as it was written |
| `Compounds.PackParse` | compound.hh:147-202 | Whatever can be read is the encoding of what was read |
| `LegacyCompound.ByteIterator.constructor` | compound_compat.hh:72-78 | The begin iterator has the whole legacy form to produce |
| `LegacyCompound.ByteIterator.Get` | compound_compat.hh:90-101 | The byte under the iterator is the next one of the legacy form |
| `LegacyCompound.ByteIterator.Advance` | compound_compat.hh:103-115 | Incrementing drops exactly that byte, through lengths, values and end markers, singular keys included |
| `LegacyCompound.Size` | compound_compat.hh:164-174 | The size computed without iterating is the length of the legacy form |
| `LegacyCompound.ToLegacy` | compound_compat.hh:185-195 | The copy fills the buffer of that size exactly with the legacy form |
| `LegacyCompound.TriCompareIsLegacyOrder` | compound_compat.hh:127-162 | The component-wise comparator gives the result of the unsigned comparison of the two legacy forms, for all keys of one type |
| `LegacyCompound.LegacyInjective` | compound_compat.hh:127-161 | Different lists of components have different legacy forms |
| `Composites.SerializedSize` | compound_compat.hh:296-324 | The size is that of what is written; fails exactly on components over the limit |
| `Composites.SerializeValue` | compound_compat.hh:330-340 | Writes the components with the marker on the last one, or fails on components over the limit |
| `Composites.SerializeStatic` | compound_compat.hh:342-349 | Writes the static prefix, the empty components and the values |
| `Composites.CompositeIterator.ReadCurrent` | compound_compat.hh:367-382 | Reads one component and its marker, fails on truncated input, and marks the end |
| `Composites.CompositeIterator.constructor` | compound_compat.hh:398-410 | Iteration starts after the static prefix, or yields the whole value of a composite that is not compound |
| `Composites.CompositeIterator.Advance` | compound_compat.hh:415-418 | Incrementing drops exactly the current component |
| `Composites.ComponentsOfSerialized` | compound_compat.hh:330-409 | Iterating a composite yields the components it was made from and the marker on the last |
| `Composites.MarkersAreSigns` | compound_compat.hh:245-249 | The markers are the signed bytes -1, 0 and 1, and every byte reads as the marker of its sign |
| `Composites.LegacyReadsPlain` | compound_compat.hh:367-382 | The legacy representation of a key decodes to its components, all with the plain marker |
| `Composites.NeverStatic` | compound_compat.hh:480-482 | An ordinary compound is never classified as static |
| `Composites.ComponentsOfStatic` | compound_compat.hh:342-409 | A static composite is classified as such if and only if it has a component, and then decodes to its components; without any it does not decode |
| `Composites.Explode` | compound_compat.hh:559-575 | Collects the components, and fails on a marker before the last one |
| `Composites.ExplodedMeans` | compound_compat.hh:559-575 | Exploding succeeds exactly when no component but the last carries a marker, with the components in order |
| `Composites.ExplodeFromExploded` | compound_compat.hh:497-502 | Exploding undoes `from_exploded` for every list but the empty one, which does not decode |
| `Composites.SerializedOfExploded` | compound_compat.hh:330-340 | Serializing what was exploded gives the same bytes back if and only if the last byte is one of the three markers |
| `Composites.IsValid` | compound_compat.hh:614-627 | True if and only if the composite is compound, not static and decodes |
| `ClusteringBounds.CollapsedBranches` | clustering_bounds_comparator.hh:55-82 | The collapsed formula equals the three branches of its comment |
| `ClusteringBounds.PrefixEqualityNotTransitive` | clustering_bounds_comparator.hh:55-62 | Prefix equality alone is not transitive |
| `ClusteringBounds.TriCompareIsLexicographic` | clustering_bounds_comparator.hh:55-82 | The comparison is the lexicographic order of prefixes closed by an end mark of their weight |
| `ClusteringBounds.TotalOrder` | clustering_bounds_comparator.hh:55-93 | The comparison is a total order on prefixes with weights |
| `ClusteringBounds.BetweenBounds` | clustering_bounds_comparator.hh:125-140 | A full key lies between the bound views of a range if and only if the range contains it under prefix semantics |
| `ClusteringBounds.NothingBetweenAdjacent` | clustering_bounds_comparator.hh:116-118 | No key of any length lies between adjacent bounds, which are different places |
| `ClusteringBounds.ReverseKindReverses` | keys.cc:85-107 | Reversing kinds reverses the order of bounds when the components are in the opposite order |
| `CellLocking.InsertedInv` | cell_locking.hh:278-282 | Linking a new cell keeps the invariant |
| `CellLocking.WaitedInv` | cell_locking.hh:507-515 | Waiting for a linked cell keeps the invariant |
| `CellLocking.ExpiredInv` | cell_locking.hh:163-165 | A timeout keeps the invariant, with the cell still pointed to |
| `CellLocking.ReleasedInv` | cell_locking.hh:387-401 | Unlocking hands the unit to the first in the queue, or unlinks the cell and perhaps its partition, and keeps the invariant |
| `CellLocking.AbandonedInv` | cell_locking.hh:507-515 | A timed out operation letting go of the cell it waited for keeps the invariant |
| `CellLocking.Locking` | cell_locking.hh:498-525 | An operation that gets to the end holds all its cells; others are not affected |
| `CellLocking.RequestAscending` | cell_locking.hh:55-108 | The cells of a mutation are visited in strictly ascending order of row and column; which they are is CellLocking.RequestExact |
| `CellLocking.RequestExact` | cell_locking.hh:55-108 | An address is asked for if and only if the mutation has a cell there: its partition, a row of the mutation and a column of that row |
| `CellLocking.Reached` | cell_locking.hh:454-525 | After every interleaving of locking, resuming, unlocking, timing out and unwinding: for every linked cell units plus holders are one, its pointers and queue are those of the operations, and every cell and partition count is exact |
| `CellLocking.MutualExclusion` | cell_locking.hh:156-165 | No cell is ever locked by two operations |
| `CellLocking.PartitionOutlivesOperation` | cell_locking.hh:170-178 | The partition an operation works on stays linked for as long as the operation refers to any of its cells |
| `CellLocking.NothingLeft` | cell_locking.hh:370-372 | Once every operation has let go, no cell and no partition is left and the partition count is zero |
| `CellLocking.FirstInQueueIsServed` | cell_locking.hh:163-178 | Unlocking a cell wakes the operation queued longest on it and no other; with none queued the cell is free or unlinked |
| `CellLocking.NoDeadlock` | cell_locking.hh:498-525 | No operations wait for one another in a circle, counting both holders and those ahead in a queue |
| `CellLocking.SomeoneCanMove` | cell_locking.hh:498-525 | While any operation waits, some operation can resume, unwind or unlock |
| `CellLockers.CellLocker.LockNext` | cell_locking.hh:498-525 | The loop takes the step of the state machine |
| `CellLockers.CellLocker.LockCells` | cell_locking.hh:454-495 | Both the path that builds a new partition on the side and the general one take the same step, and an operation that is done owns every cell of its mutation |
| `CellLockers.CellLocker.LockNewPartition` | cell_locking.hh:468-487 | Building a partition with all cells and linking it once refines taking them one by one |
| `CellLockers.CellLocker.Resume` | cell_locking.hh:441-448 | The continuation takes the granted cell and goes on locking |
| `CellLockers.CellLocker.Timeout` | cell_locking.hh:163-165 | A timeout leaves the queue and keeps the pointer |
| `CellLockers.CellLocker.Unlock` | cell_locking.hh:387-401 | The destructor of a lock signals and then drops its pointer, as the state machine's step does |
| `CellLockers.CellLocker.DropPointer` | cell_locking.hh:170-178 | The last pointer unlinks the cell, the last cell deletes its partition |
| `CellLockers.CellLocker.Unwind` | cell_locking.hh:487-495 | A failed operation lets go of the cell it waited for and then of its locks |
| `Intervals.BoundsAreCuts` | interval.hh:107-137 | The four bound comparisons compare the cuts that the bounds stand for |
| `Intervals.ContainsPointIsMembership` | interval.hh:281-289 | A point is contained exactly when it lies between the bounds, or on either side of the gap of a wrapping interval |
| `Intervals.OverlapsMeans` | interval.hh:200-224 | Two intervals, wrapping or not, overlap if and only if they have a point in common |
| `Intervals.ContainsIntervalSound` | interval.hh:292-325 | An interval said to be contained is a subset |
| `Intervals.ContainsIntervalExact` | interval.hh:292-325 | The answer is whether it is a subset, if and only if the outer interval does not go all the way around or the inner one does not pass the place where it starts |
| `Intervals.MissedSubset` | interval.hh:292-325 | The interval [5, 5) holds every value and is said not to contain [3, 7] |
| `Intervals.IntersectionMeans` | interval.hh:724-735 | The intersection holds exactly the common points, and is absent if and only if there are none |
| `Intervals.SplitAfterMeans` | interval.hh:595-603 | Splitting holds exactly the points after the split point, and is absent if and only if there are none |
| `Intervals.PiecesMean` | interval.hh:361-369 | The pieces cut from an interval are exactly its points outside the other |
| `Intervals.Subtract` | interval.hh:329-376 | Terminates for all inputs, wrapping ones included, with ordered, disjoint, proper intervals that hold exactly the points of the first interval not in the second |
| `Intervals.Deoverlap` | interval.hh:634-665 | Ordered, disjoint intervals that hold exactly the points of the given ones |
| `Collections.Merge` | collection_mutation.cc:278-317 | The killed cells are removed from both sides and the rest combined, under the latest tombstone |
| `Collections.MergedNormal` | collection_mutation.cc:278-317 | Merging keeps the normal form and the key order |
| `Collections.MergedMeans` | collection_mutation.cc:278-317 | For every key the merge of normal descriptions has the winning cell, if the latest tombstone does not kill it |
| `Collections.MergeCommutes` | collection_mutation.cc:278-317 | Merging commutes |
| `Collections.MergeAssociates` | collection_mutation.cc:278-317 | Merging associates, also without the normal form |
| `Collections.MergeIdempotent` | collection_mutation.cc:292-314 | Merging a description with itself gives it back if and only if no cell is covered by its own tombstone |
| `Collections.MergeDropsCovered` | collection_mutation.cc:292-314 | A description for which it does not |
| `Collections.Difference` | collection_mutation.cc:340-362 | One pass over both finds the cells that win over what the other has |
| `Collections.DifferenceExact` | collection_mutation.cc:340-362 | Merging the difference gives what merging the whole would, if and only if at every key nothing is left out for a cell that does not survive and no cell is spared by a tombstone left out |
| `Collections.DifferenceSuffices` | collection_mutation.cc:340-362 | Which holds for all normal descriptions, and the difference is normal |
| `Collections.DifferenceIsNews` | collection_mutation.cc:340-362 | It holds only cells of the one that the other does not have; that of a description and itself is empty |
| `Collections.DifferenceMisses` | collection_mutation.cc:340-362 | Descriptions out of normal form for which it fails |
| `CollectionCompaction.CollectionMutation.CompactAndExpire` | collection_mutation.cc:170-225 | What is kept, what is given away, the tombstones and the counts, whose sum is the number of cells; which cells those are is CollectionCompaction.RulesFollowed |
| `CollectionCompaction.VisibleKept` | collection_mutation.cc:170-225 | Exactly the same cells are visible to a reader before and after compaction |
| `CollectionCompaction.CompactTwice` | collection_mutation.cc:170-225 | Compacting again with the same arguments changes nothing and gives nothing away |
| `CollectionCompaction.DeadAccounted` | collection_mutation.cc:196-217 | Every dead or expired cell that no tombstone covers goes to the survivors or the losers, as the deletion it stands for; to which is CollectionCompaction.RulesFollowed |
| `CollectionCompaction.RulesFollowed` | collection_mutation.cc:170-225 | An element is kept, or given away, if and only if it is that of a cell no tombstone covers which is live, or dead since the grace period and not purgeable, or respectively dead before it and purgeable; in terms of timestamps, times and the purge decision alone |
| `CollectionCompaction.TombstoneRule` | collection_mutation.cc:180-188 | The tombstone of the collection is kept if and only if it is newer than that of the row and may not be purged, and given away if and only if it is newer and may |
| `CollectionCompaction.NothingLost` | collection_mutation.cc:186-218 | Survivors and losers together are as many as the uncovered cells |
| `CollectionCompaction.CoverageKept` | collection_mutation.cc:180-188 | A tombstone that is not purged covers the same cells before and after |
| `CollectionCompaction.CompactThenMerge` | collection_mutation.cc:170-225 | With nothing purged, compacting one side before a merge shows a reader the same cell at every key, if and only if no expired cell meets one with its own timestamp that expires later |
| `CollectionCompaction.BuriedHides` | collection_mutation.cc:196-217 | Two collections, a policy and a key for which it does not |
| `CollectionCompaction.SurvivorsNormal` | collection_mutation.cc:170-225 | The result is in normal form whatever came in |
| `MultishardPages.ReadContext.DismantleCombinedBuffer` | multishard_mutation_query.cc:420-466 | Every saved reader's buffer gets exactly its projection of the combined buffer, in order; the kept counts are the sum of what the readers get back, kept and discarded together the total |
| `MultishardPages.ReadContext.ReturnRun` | multishard_mutation_query.cc:430-455 | A partition goes back whole to its shard's reader and is counted as kept, or is discarded whole and counted as that |
| `MultishardPages.ReadContext.DismantleCompactionState` | multishard_mutation_query.cc:468-505 | The compactor's fragments go in front, in order, and are counted as kept, or are discarded and counted as that |
| `MultishardPages.ReadContext.SaveReader` | multishard_mutation_query.cc:507-563 | The saved reader's buffer is what was dismantled for it, then what was taken from it, then what it holds |
| `MultishardPages.ReadContext.SaveReaders` | multishard_mutation_query.cc:606-631 | End to end: compaction state, projection of the combined buffer, own unconsumed fragments, own buffer, in original order, for every shard; a reader is saved if and only if it was looked up or is being saved and was not evicted; and the counts kept and discarded of both, exactly |
| `MultishardPages.StateInOrder` | multishard_mutation_query.cc:468-505 | What the compactor had consumed is given back in the order of positions: partition start, static row, then what is among the rows |
| `MultishardPages.TotalCounts` | multishard_mutation_query.cc:138-185 | The counts are the number of fragments, of those that start a partition, and the sum of the sizes |
| `MultishardPages.PartsMakeWhole` | multishard_mutation_query.cc:420-466 | The shards' projections together have every fragment, partition and byte of the combined buffer once |
| `MultishardPages.KeptIsGivenBack` | multishard_mutation_query.cc:293-302 | What is counted as kept is what the saved readers hold if and only if every reader that is given something is saved and was not evicted |
| `MultishardPages.KeptUnlessPageEndsUnsaved` | multishard_mutation_query.cc:458-463 | Where no reader being saved was evicted: if and only if the reader of the partition in which the page ended is saved, or nothing of that partition was read ahead |
| `MultishardPages.CountedButLost` | multishard_mutation_query.cc:458-463 | For every fragment read ahead in the partition in which the page ended, and any reader that is not saved: the fragment is counted as kept and given to nobody |
| `ByteStreams.BytesOstream.NextAllocSize` | bytes_ostream.hh:125-132 | Every allocation is a power of two with room for the data, and within the limit if the data fits a chunk |
| `ByteStreams.BytesOstream.AllocNew` | bytes_ostream.hh:147-159 | A new chunk is appended to the chain and holds the data |
| `ByteStreams.BytesOstream.WritePlaceHolder` | bytes_ostream.hh:232-240 | The bytes are appended and contiguous; a new chunk is allocated if and only if they do not fit |
| `ByteStreams.BytesOstream.Write` | bytes_ostream.hh:242-261 | The contents grow by exactly the bytes written, and nothing written before is touched |
| `ByteStreams.BytesOstream.Linearize` | bytes_ostream.hh:282-309 | The contents stay the same, in one chunk |
| `ByteStreams.BytesOstream.RemoveSuffix` | bytes_ostream.hh:337-353 | The contents lose exactly the last n bytes |
| `ByteStreams.BytesOstream.Pos` | bytes_ostream.hh:370-372 | The position is the end of the stream |
| `ByteStreams.BytesOstream.PositionStays` | bytes_ostream.hh:374-388 | Writing leaves every position where it was |
| `ByteStreams.BytesOstream.WrittenSince` | bytes_ostream.hh:376-388 | The number of bytes after the position |
| `ByteStreams.BytesOstream.Retract` | bytes_ostream.hh:392-402 | The contents are what they were at the position |
| `ByteStreams.BytesOstream.WriteAndRetract` | bytes_ostream.hh:370-402 | Retracting to a position undoes any number of writes since it was taken |
| `ByteStreams.BytesOstream.Clear` | bytes_ostream.hh:445-453 | The contents are empty and the first chunk is kept |
| `ByteStreams.BytesOstream.Equals` | bytes_ostream.hh:414-437 | The answer is that of comparing the contents if and only if they are equal, or neither is a prefix of the other and not both streams begin with an empty fragment; exactly when it does not end, and when it is wrong |
| `ByteStreams.ComparedExact` | bytes_ostream.hh:421-435 | Once entered with no empty fragment ahead the loop decides on the contents, and does not end exactly when one is a proper prefix of the other |
| `ByteStreams.ReusedLookEqual` | bytes_ostream.hh:414-437 | Two streams cleared, reused and written with different bytes that are taken for equal |
| `Durations.AddedInRange` | duration.cc:70-89 | A count is accepted if and only if it fits what is left of its counter and its unit is in order; no counter overflows |
| `Durations.UnitsAreWorth` | duration.cc:91-151 | What a count of each of the ten units, by its name, adds to which counter |
| `Durations.OneCount` | duration.cc:70-89 | A single count with its unit is read as exactly that, whenever it fits |
| `Durations.DurationBuilder.Add` | duration.cc:178-250 | The builder accepts and adds as specified |
| `Durations.ParseStandardFormat` | duration.cc:253-298 | The loop parses the components from the front until the input is used up, or fails |
| `Durations.PrintTo` | duration.cc:414-447 | Printing appends, for every counter, the count of each unit that goes into what the larger ones left |
| `Durations.PrintThenParse` | duration.cc:394-447 | Parsing what was printed gives the duration back if and only if it is not zero and its parts do not differ in sign |
| `Durations.MixedSigns` | duration.cc:414-447 | A month less a day is printed and read back as a month and a day ago |
| `Durations.ParsedInRange` | duration.cc:176-298 | However many counts a string has, no counter overflows |
| `Durations.ParsedReprints` | duration.cc:394-447 | What was parsed, in any format, can be printed and parsed again |
| `Durations.IsoAgrees` | duration.cc:300-338 | The ISO format means what the standard format with the same counts and units means |
| `Durations.WeeksAgree` | duration.cc:358-369 | So does the format in weeks |
| `Durations.WeeksExact` | duration.cc:358-369 | A string in that format is accepted if and only if it is digits between its two letters and seven times their number fits the days, and is then worth that |
| `Durations.AlternativeAgrees` | duration.cc:340-356 | So does the alternative ISO format |

## Left out

- CacheReader.Run: stops before the insertion of an empty entry that contradicts what the reader saw, because from there on the code does not keep agreement; that turn itself is covered by CacheReader.TakeTurn.
- CacheReader.ReadAll: progress is proved for a reader left alone; others may evict its entries forever. The static row, reversed reads, several versions of a partition, tombstone garbage collection, digests, statistics and allocation failure are not modelled.
- CacheReader.PopulateAll: promises nothing for single-row ranges, for which the source itself populates only in some cases, and stops before a turn that forgets what the reader saw or drops a dummy too many.
- CounterUpdates.UpdateAddsDelta: asks for room in the 64-bit logical clock; without it the source overflows a signed integer, which has no defined result.
- RangesWalker.Walker.ContainsTombstone: asks for ordered ranges, as the query gives them; the change counter is unbounded.
- CellLockers.CellLocker.LockCells: schema upgrades, rehashing and statistics are not modelled; hash sets are maps, shared pointers are counted, and every continuation is a step of its own.
- ByteStreams.BytesOstream.Write: the chain of chunks is a sequence of chunk objects updated in place, not linked pointers; the 32-bit widths of sizes, moving and copying streams, and conversion to managed bytes are not modelled.
- ByteStreams.BytesOstream.WrittenSince: the chunks after the position are found by its place in the chain rather than by following pointers.
- Collections.Merge: keys are ranks in the key type's order; the binary form of collections is not modelled.
- CollectionCompaction.CollectionMutation.CompactAndExpire: the purge decision is a pure function, and the write time of an expiring cell is asked to be representable.
- MultishardPages.ReadContext.SaveReaders: futures, permits, looking readers up and the querier cache are not modelled; a reader whose paused state was evicted is a parameter.
- Durations.PrintThenParse: asks that no counter is the smallest value of its type, whose absolute value the code cannot form; the sign of the micro unit is one character.
- Intervals.SplitAfterMeans: only for intervals that do not wrap; `slice` and `transform` are not modelled.
- Composites.CompositeIterator.ReadCurrent: a thrown exception is a flag; comparing composites by type is not modelled.
- Compounds.DeserializeValue: typed comparison and validation of components are not modelled.

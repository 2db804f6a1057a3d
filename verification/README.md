# Verified models of sisl's data structures and protocols

A Dafny model of the parts of sisl whose correctness is hard to see from the code, with proofs of what
they promise. `dafny verify dfyconfig.toml` checks all of it.

* **Bitset stack.** `Bitword` is a 64-bit word; a word array with a skipped head and a lazily
  compacted buffer is a sequence of booleans (`Bitset.Bits()`), whatever the compaction threshold.
  `IDReserver`, `CompactBitSet` and `StreamTracker` are proved against a set of ids, a sequence of
  booleans, and a stream of (data, active, completed) from a reference index on.
* **WISR over thread buffers and RCU.** A state machine whose steps are those of writers, exiting threads
  and one rotation at a time. `synchronize_rcu` waits for the readers that were inside their section when
  it was called. Theorems are about every reachable state.
* **RangeHashMap.** Nodes, buckets and the map are classes; their meaning is a table from (key, base) to
  sorted entries, and from there the latest value at every offset.
* **SimpleCache.** Hash map and LRU evictor as classes for one operation at a time, and a state machine of
  their locks for every interleaving. What the user's eviction callback answers and which bucket locks
  `try_lock` gets are parameters of each call.
* **Streaming RPC call.** The handlers of `RpcData` as methods of a class and as steps of a state machine
  with a count of references.
* **Thread registry.** A state machine of notifications while threads attach and callbacks are registered and
  deregistered, and one of the registry lock and the lock of a thread buffer.

Protocols are modelled over atomic steps: a critical section or an exchange of a pointer is one step.
Word size is fixed to 64 bits. Integers are unbounded unless a bound is stated.

Where code and comments differ, the model follows the code: `CompactBitSet::get_prev_set_bit` allows
`start == size()` in its comment and reads past the last word there, so the model asks for
`start < size()`; `StreamTracker::rollback` throws for the last tracked index, whose rollback would be
empty; the node of a `RangeHashMap` drops an entry that does not overlap when the right end of a range is
not stored (the condition is stated and proved exact).

Nine properties one would expect are false of the code. Each has an input or a run that shows it and the
exact condition under which it holds:

* a search for blocks of `min` to `max` reset bits finds one if there is one (`ResetRuns.TrapExample`,
  `ResetRuns.TrapFound`, `ResetRuns.TrapCloses`);
* growing a bitset appends the given value, and what was cut off is gone (`WordArrays.GrowsByOnesIff`,
  `WordArrays.CutsIff`, `WordArrays.CutBitReappears`);
* insert and erase in a range node are map updates (`RangeEntries.InsertIsUpdateIff`,
  `RangeEntries.EraseIsRemovalIff`, `RangeEntries.NeighbourLost`);
* an eviction partition stays within its maximum (`LruEvictors.Overfill`, `LruEvictors.LRUPartition.AddRecord`);
* the record an evictor looks at stays until it is done with it (`CacheLocks.RecordFreed`,
  `CacheLocks.DanglesIff`, `CacheLocks.CleanRunsAreSafe`);
* the filled size of a partition is that of its records (`CacheLocks.RecordFreed`, `CacheLocks.FilledIff`,
  `CacheLocks.FullForGood`);
* completing a partly truncated range does not depend on compaction (`StreamTrackers.CompletesInFront`,
  `StreamTrackers.CompactionShows`, `Streams.SkippingShowsIff`);
* a rollback forgets every index above its end (`StreamTrackers.RolledBackReturn`, `Streams.RollbackForgetsIff`);
* threads that attach, detach and rotate do not wait for each other (`RegistryLocks.DeadlockRun`,
  `RegistryLocks.DeadlockIff`, `RegistryLocks.DeadlockForGood`).

## Model

| member | source | states |
|---|---|---|
| `Bitwords.Extract` | include/sisl/fds/bitword.hpp:559-567 | bit i of the result is bit start + i of the word for i < nbits, and 0 above |
| `Bitwords.SetResetBits` | include/sisl/fds/bitword.hpp:342-354 | exactly the bits of the range take the value, all others stay |
| `Bitwords.IsBitsSetReset` | include/sisl/fds/bitword.hpp:368-378 | true exactly when every bit of the range has the value; positions past the word count as reset |
| `Bitwords.TrailingZeros` | include/sisl/fds/bitword.hpp:156-157 | position of the lowest set bit, 64 for the zero word |
| `Bitwords.GetNextSetBit` | include/sisl/fds/bitword.hpp:380-390 | the lowest set bit from start on, none exactly when there is none |
| `Bitwords.GetNextResetBit` | include/sisl/fds/bitword.hpp:392-402 | the lowest reset bit from start on, none exactly when there is none |
| `Bitwords.GetPrevSetBit` | include/sisl/fds/bitword.hpp:404-412 | the highest set bit up to start, none exactly when there is none |
| `Bitwords.PopCountRange` | include/sisl/fds/bitset.hpp:617-651 | counting a shifted and masked word counts the range of the original one |
| `Bitwords.GetNextResetBitsFiltered` | include/sisl/fds/bitword.hpp:438-485 | low-end, middle and high-end matches: the first block that satisfies the filter, nothing earlier, with its exact extent |
| `Bitwords.GetMaxContiguousResetBits` | include/sisl/fds/bitword.hpp:503-546 | the earliest among the longest blocks of reset bits |
| `WordArrays.WrittenContent` | include/sisl/fds/bitset.hpp:1080-1107 | a word-by-word write inside the logical range overwrites the content there and leaves the tail alone |
| `WordArrays.ReallocatedContent` | include/sisl/fds/bitset.hpp:1149-1177 | what a reallocation with dropped head words makes of the content |
| `WordArrays.ReallocatedTail` | include/sisl/fds/bitset.hpp:1149-1177 | exactly when the bits past the end are clear afterwards |
| `WordArrays.GrowsByZeros` | include/sisl/fds/bitset.hpp:1163-1169 | with a clear tail, growing with zeros appends exactly zeros and keeps the tail clear |
| `WordArrays.GrowsByOnesIff` | include/sisl/fds/bitset.hpp:1163-1169 | growing with ones appends exactly ones if and only if the row ends at a word boundary |
| `WordArrays.CutsIff` | include/sisl/fds/bitset.hpp:1149-1177 | cutting keeps a prefix; the tail stays clear if and only if nothing set was cut inside the last word |
| `WordArrays.CutBitReappears` | include/sisl/fds/bitset.hpp:776-779 | an input on which a bit that was cut off comes back when the set grows again |
| `WordArrays.WindowBits` | include/sisl/fds/bitset.hpp:321-354 | a word assembled from two neighbours holds the bits of the row at that position |
| `WordArrays.CompareWindows` | include/sisl/fds/bitset.hpp:356-467 | one more pair of windows extends the agreement of two rows at different offsets, or refutes equality |
| `WordArrays.AgreeIsEqualContent` | include/sisl/fds/bitset.hpp:356-467 | agreement of all windows is equality of the logical bits |
| `WordArrays.UnshiftedContent` | include/sisl/fds/bitset.hpp:985-1078 | the unshifted words hold the same content at offset zero with a clear tail |
| `WordArrays.NextOfRow` | include/sisl/fds/bitset.hpp:719-746 | a search word by word is the search of the row |
| `ResetRuns.ChainAdvances` | include/sisl/fds/bitset.hpp:829-848 | one word later the block carried over word boundaries goes on or starts again, and nothing was passed over |
| `ResetRuns.SearchStep` | include/sisl/fds/bitset.hpp:821-853 | one word of the search keeps its invariant or ends with a correct answer |
| `ResetRuns.TrapGoesOn` | include/sisl/fds/bitset.hpp:821-853 | in a trapped search every word before the last one goes on |
| `ResetRuns.TrapCloses` | include/sisl/fds/bitset.hpp:838-841 | in the last word of a trapped search a longer block past the end replaces the good one |
| `ResetRuns.TrapFound` | include/sisl/fds/bitset.hpp:838-841 | losing a block that way happens only in a trap |
| `ResetRuns.NoTrapForOneLength` | include/sisl/fds/bitset.hpp:789-796 | a search for one length is never trapped |
| `ResetRuns.NoTrapAtTheEnd` | include/sisl/fds/bitset.hpp:810-874 | nor is one whose end is a word boundary or is followed by zeros only |
| `ResetRuns.TrapExample` | include/sisl/fds/bitset.hpp:838-868 | an input with a block of the wanted length inside the range, on which every result the search can give is that there is none |
| `ResetRuns.SearchToTheEnd` | include/sisl/fds/bitset.hpp:810-874 | without an end bit the search fails exactly when no block of min reset bits exists, for any min and max |
| `ResetRuns.SearchOneLength` | include/sisl/fds/bitset.hpp:810-874 | for one length it returns the lowest start, and fails exactly when there is none |
| `ResetRuns.FinalBit` | include/sisl/fds/bitset.hpp:819-819 | the end of the search: one past the end bit, at most the size, zero where that wraps around |
| `ResetRuns.BlockIsUnique` | include/sisl/fds/bitset.hpp:810-874 | the bits, the range and the two lengths leave only one answer, start and length |
| `Bitsets.Bitset.constructor` | include/sisl/fds/bitset.hpp:210-217 | n reset bits with a clear tail |
| `Bitsets.Bitset.Pos` | include/sisl/fds/bitset.hpp:1179-1198 | where a bit lies; the 64-bit sum makes bits from 2^64 - skip on positions of the skipped head |
| `Bitsets.NextAnswer` | include/sisl/fds/bitset.hpp:719-746 | the answer of the first word and of the later words together is the answer of the search |
| `Bitsets.Bitset.GetNextBit` | include/sisl/fds/bitset.hpp:719-746 | the least bit with the value from start on, npos exactly when there is none; also for the reset-bit search at 876-903; and exactly what a start gives whose position wraps into the skipped head |
| `Bitsets.Bitset.GetBitval` | include/sisl/fds/bitset.hpp:701-711 | the logical bit, false out of range, a bit of the skipped head where the position wraps |
| `Bitsets.Bitset.SetResetBits` | include/sisl/fds/bitset.hpp:1080-1107 | the range takes the value, everything else and a clear tail stay; when it reports out of range and what was written then, for every 64-bit start |
| `Bitsets.Bitset.SetResetBit` | include/sisl/fds/bitset.hpp:1109-1117 | one bit, nothing out of range, a bit of the skipped head where the position wraps |
| `Bitsets.Bitset.IsBitsSetReset` | include/sisl/fds/bitset.hpp:1119-1145 | true exactly when every bit of the range inside the set has the value, for every 64-bit start |
| `Bitsets.RowCountIsCountTrue` | include/sisl/fds/bitset.hpp:617-651 | counting words is counting logical bits |
| `Bitsets.Bitset.GetSetCount` | include/sisl/fds/bitset.hpp:617-651 | the number of set bits of the range, and what is counted from a start that wraps into the skipped head |
| `Bitsets.Bitset.ShrinkHead` | include/sisl/fds/bitset.hpp:756-766 | drops exactly the first n logical bits for any threshold, or throws and changes nothing; keeps the tail and the bits past the end; how many bits stay skipped |
| `Bitsets.Bitset.ResizeImpl` | include/sisl/fds/bitset.hpp:1149-1177 | the content after any resize, that growing with zeros appends zeros to a set with a clear tail, and that filling with zeros keeps the row up to the new last word |
| `Bitsets.Bitset.GetNextContiguousResetBits` | include/sisl/fds/bitset.hpp:810-874 | what is returned is reset, in range, long enough and as long as it can be (up to max, the end, or the first set bit, and not preceded by a reset bit of the range); which block it is, lowest or overtaking; nothing is returned exactly when there is no block or the search is trapped; for every 64-bit start |
| `Bitsets.Bitset.GetNextContiguousNResetBits` | include/sisl/fds/bitset.hpp:789-791 | the first block of n reset bits, npos exactly when there is none, for every 64-bit start |
| `Bitsets.Bitset.GetWordValue` | include/sisl/fds/bitset.hpp:321-354 | 64 logical bits from start on, zero past the end; from the skipped head where the position wraps |
| `Bitsets.Bitset.Equals` | include/sisl/fds/bitset.hpp:356-467 | true exactly when the logical bits are equal, for any two skip offsets |
| `Bitsets.Bitset.CopyUnshifted` | include/sisl/fds/bitset.hpp:985-1078 | an equal set with nothing skipped |
| `Bitsets.Bitset.Serialize` | include/sisl/fds/bitset.hpp:560-567 | the words hold the logical bits from offset zero with a clear tail |
| `Bitsets.Bitset.Load` | include/sisl/fds/bitset.hpp:225-244 | the bits of the serialized buffer, and exactly when its tail is clear |
| `Bitsets.SaveAndLoad` | include/sisl/fds/bitset.hpp:560-567 | saving and loading gives an equal set, whatever was skipped |
| `CompactBitsets.CompactBitSet.constructor` | include/sisl/fds/compact_bitset.hpp:47-56 | the size rounded up to words, all bits reset |
| `CompactBitsets.CompactBitSet.SetResetBit` | include/sisl/fds/compact_bitset.hpp:106-111 | one bit changes, nothing out of range |
| `CompactBitsets.CompactBitSet.IsBitSet` | include/sisl/fds/compact_bitset.hpp:73-78 | the bit, false out of range |
| `CompactBitsets.CompactBitSet.GetNextSetOrResetBit` | include/sisl/fds/compact_bitset.hpp:113-145 | the least bit with the value from start on, inval exactly when there is none |
| `CompactBitsets.CompactBitSet.GetPrevSetBit` | include/sisl/fds/compact_bitset.hpp:87-104 | the greatest set bit up to start, inval exactly when there is none |
| `IdReservers.IDReserver.constructor` | include/sisl/fds/id_reserver.hpp:30-30 | nothing is reserved, and there is room for the estimated ids |
| `IdReservers.IDReserver.Reserve` | include/sisl/fds/id_reserver.hpp:34-46 | the least id that is not reserved, across any number of doublings and for any size, and that the size doubles exactly when all are taken |
| `IdReservers.IDReserver.ReserveId` | include/sisl/fds/id_reserver.hpp:48-53 | exactly this id is added |
| `IdReservers.IDReserver.Unreserve` | include/sisl/fds/id_reserver.hpp:55-59 | exactly this id is removed |
| `IdReservers.IDReserver.IsReserved` | include/sisl/fds/id_reserver.hpp:61-64 | membership in the set of reserved ids |
| `IdReservers.IDReserver.FindNextReservedId` | include/sisl/fds/id_reserver.hpp:75-81 | the least reserved id after the last one, false exactly when there is none |
| `IdReservers.IDReserver.ListReserved` | include/sisl/fds/id_reserver.hpp:71-72 | first and next list exactly the reserved ids in ascending order |
| `Streams.RevealedView` | include/sisl/fds/stream_tracker.hpp:283-303 | more zeroed slots change only this: marks past the old end become completed indices |
| `Streams.ShrunkView` | include/sisl/fds/stream_tracker.hpp:173-195 | dropping slots from the data and both bitsets is truncating the stream |
| `Streams.UpdatedView` | include/sisl/fds/stream_tracker.hpp:252-276 | writing a slot and its bits is the update of the stream |
| `Streams.CompletedView` | include/sisl/fds/stream_tracker.hpp:85-89 | setting bits from a position on completes the indices of the range that have a slot |
| `Streams.RolledBackView` | include/sisl/fds/stream_tracker.hpp:91-107 | resetting the bits behind an index is the rollback of the stream |
| `Streams.RollbackForgetsIff` | include/sisl/fds/stream_tracker.hpp:91-107 | marks past the slots survive a rollback, so it forgets every index above its end if and only if there are none |
| `Streams.SkippingShowsIff` | include/sisl/fds/stream_tracker.hpp:85-89 | for two trackers of one stream that skip more and less, completing a range gives the same outcome and stream if and only if it does not start where only one of them has bits, or it throws in both with nothing left to complete |
| `Streams.FirstMissingOfBits` | include/sisl/fds/stream_tracker.hpp:305-315 | the first reset bit is the first missing index |
| `Streams.UptoFrom` | include/sisl/fds/stream_tracker.hpp:305-315 | all indices from the hint up to the result are in the set and the next one is not |
| `Streams.UptoIsUnique` | include/sisl/fds/stream_tracker.hpp:305-315 | no other result has that meaning |
| `Streams.UptoOfPrefix` | include/sisl/fds/stream_tracker.hpp:305-315 | for every hint up to the reference it is the end of the completed prefix |
| `Streams.UptoNeverDecreases` | include/sisl/fds/stream_tracker.hpp:202-205 | over any run without rollback completed_upto never decreases, for any search hint |
| `Streams.UpdateMeaning` | include/sisl/fds/stream_tracker.hpp:232-281 | an update as seen from every single index: which data the callback gets, and that no other index changes |
| `Streams.UpdatesCompose` | include/sisl/fds/stream_tracker.hpp:252-276 | two updates of an index are one with both callbacks, whatever initial value the second one has |
| `Streams.RangesMeaning` | include/sisl/fds/stream_tracker.hpp:85-195 | completing, truncating and rolling back as seen from every single index |
| `Streams.RollbackUndoes` | include/sisl/fds/stream_tracker.hpp:85-107 | a range behind all active and completed indices that is completed and rolled back leaves every index as it was |
| `Streams.TruncateDropsPrefix` | include/sisl/fds/stream_tracker.hpp:156-171 | truncate() removes exactly the maximal completed prefix and keeps everything behind it |
| `Streams.TruncateKeepsUpto` | include/sisl/fds/stream_tracker.hpp:156-171 | truncate() leaves completed_upto unchanged, for any search hint |
| `StreamTrackers.StreamTracker.constructor` | include/sisl/fds/stream_tracker.hpp:52-60 | an empty stream behind the start index |
| `StreamTrackers.StreamTracker.DoResize` | include/sisl/fds/stream_tracker.hpp:283-303 | room for that many slots, at least twice as many as before if it grows; data, active indices and marks stay, completed marks past the old end become visible, nothing else; without such marks the stream is the same |
| `StreamTrackers.StreamTracker.Grow` | include/sisl/fds/stream_tracker.hpp:283-303 | the same for the reallocation itself, into fresh arrays of equal size |
| `StreamTrackers.StreamTracker.DoUpdate` | include/sisl/fds/stream_tracker.hpp:232-281 | create, create_and_complete and update are the abstract update for every index, after the growth it needs; marks are added exactly for completed indices |
| `StreamTrackers.StreamTracker.Complete` | include/sisl/fds/stream_tracker.hpp:85-89 | exactly the indices of the range from the reference on that have a slot become completed, exactly the marks of those behind as far as the last word reaches are set, and exactly when it throws: a range in front of the reference counts as long as skipped bits are left for it, a reversed one runs to the last word |
| `StreamTrackers.StreamTracker.Rollback` | include/sisl/fds/stream_tracker.hpp:91-107 | exactly when it throws, otherwise the abstract rollback, and that marks past the slots stay |
| `StreamTrackers.StreamTracker.At` | include/sisl/fds/stream_tracker.hpp:109-116 | the data of exactly the active indices, unaffected by skipping, compaction and resizing |
| `StreamTrackers.StreamTracker.GetStatus` | include/sisl/fds/stream_tracker.hpp:124-146 | out of range, active, completed or neither, as the stream says |
| `StreamTrackers.StreamTracker.DoTruncate` | include/sisl/fds/stream_tracker.hpp:173-195 | the abstract truncation through two lazily compacted structures, or an exception without change; the marks from the new reference on stay, and how many truncated indices still have a bit |
| `StreamTrackers.StreamTracker.Truncate` | include/sisl/fds/stream_tracker.hpp:148-154 | everything up to idx goes; exactly when it throws; marks behind stay |
| `StreamTrackers.StreamTracker.TruncateCompleted` | include/sisl/fds/stream_tracker.hpp:156-171 | the maximal completed prefix goes and the result is what completed_upto gave before for every hint up to the reference; marks behind stay |
| `StreamTrackers.StreamTracker.Upto` | include/sisl/fds/stream_tracker.hpp:305-315 | every index from the hint (or the reference) up to the result is marked and the next one is not; past the slots the last slot |
| `StreamTrackers.StreamTracker.ForeachAll` | include/sisl/fds/stream_tracker.hpp:326-336 | every matching index once, ascending, with its data, until the callback refuses |
| `StreamTrackers.CompletesInFront` | include/sisl/fds/stream_tracker.hpp:85-89 | calls after which complete(5, 12) on a stream that starts at 10 completes 10, 11 and 12 |
| `StreamTrackers.CompactionShows` | include/sisl/fds/stream_tracker.hpp:85-89 | calls after which complete(630, 650) throws or completes 640..650, depending on the compaction threshold |
| `StreamTrackers.RolledBackReturn` | include/sisl/fds/stream_tracker.hpp:91-107 | calls after which indices that were completed without a slot and rolled back are completed again |
| `Wisr.SlotsStep` | include/sisl/utility/thread_buffer.hpp:341-360 | thread numbers, references and live slots agree after every step and no number has two owners |
| `Wisr.OwnedStep` | include/sisl/wisr/wisr_framework.hpp:104-127 | every buffer keeps exactly one owner after every step |
| `Wisr.HoldersThreadStep` | include/sisl/utility/urcu_helper.hpp:237-240 | a writer holds the current buffer or an exchanged one within the grace period, after thread steps |
| `Wisr.HoldersRotatorStep` | include/sisl/utility/urcu_helper.hpp:260-267 | the same after rotator steps |
| `Wisr.ConservedStep` | include/sisl/wisr/wisr_framework.hpp:104-127 | inserted elements are exactly the stored ones, each in one buffer, after every step |
| `Wisr.OrderStep` | include/sisl/wisr/wisr_ds.hpp:76-79 | each writer's inserts stay in order within and across buffers, including late writes to exchanged ones |
| `Wisr.PushOrder` | include/sisl/wisr/wisr_framework.hpp:45-48 | an insert keeps that order even into a buffer that was exchanged meanwhile |
| `Wisr.MergeOrder` | include/sisl/wisr/wisr_ds.hpp:76-79 | so does appending an exchanged buffer to the base |
| `Wisr.CollectingStep` | include/sisl/utility/thread_buffer.hpp:384-414 | what had been inserted when a rotation began stays where that rotation still collects it |
| `Wisr.InvStep` | include/sisl/wisr/wisr_framework.hpp:104-127 | all of the above hold together after every step |
| `Wisr.RunsKeep` | include/sisl/wisr/wisr_framework.hpp:32-127 | and hence in every reachable state |
| `Wisr.NothingLostOrDuplicated` | include/sisl/wisr/wisr_framework.hpp:45-127 | in every reachable state each inserted element is in exactly one buffer, once, which has exactly one owner |
| `Wisr.WritersAreSafe` | include/sisl/utility/urcu_helper.hpp:237-267 | no writer holds a buffer that is being merged, was deleted or was handed out, and none gets stuck inside its section |
| `Wisr.ResultsInOrder` | include/sisl/wisr/wisr_framework.hpp:52-79 | the base and every object handed out keep each writer's order |
| `Wisr.RotationReturnsAll` | include/sisl/wisr/wisr_framework.hpp:52-79 | whatever had been inserted when a rotation began is at its return in what that kind of call returns (the base for now(), the old base for get_copy_and_reset(), the exchanged buffers for get_unmerged_and_reset()), was handed out before, or stays in the base that get_unmerged_and_reset() leaves alone |
| `Wisr.CallReturnsInserted` | include/sisl/wisr/wisr_framework.hpp:52-79 | over whole calls: from the start of now(), get_copy_and_reset() or get_unmerged_and_reset() in any run to its return, whatever had been inserted before it started is delivered |
| `Wisr.PushesTell` | include/sisl/wisr/wisr_framework.hpp:45-48 | what has been inserted in a run is exactly what its insert steps inserted |
| `Wisr.RotationGoesOn` | include/sisl/utility/urcu_helper.hpp:260-267 | in every run a rotation has a step or waits only for writers that are inside their sections and can leave them |
| `Wisr.ThreadsGoOn` | include/sisl/utility/thread_buffer.hpp:341-360 | in every run a thread has a step unless a rotation has the buffers locked that it is about to give or take |
| `Wisr.MayAlways` | include/sisl/wisr/wisr_framework.hpp:45-79 | nothing else holds a thread or a new rotation up |
| `ThreadRegistries.CountsStep` | include/sisl/utility/thread_buffer.hpp:210-218 | the number of ongoing notifications counts those in progress |
| `ThreadRegistries.RemovedStep` | include/sisl/utility/thread_buffer.hpp:156-162 | a deregistered id is in no list, old or new |
| `ThreadRegistries.NoCallbackAfterDeregister` | include/sisl/utility/thread_buffer.hpp:156-162 | once deregistration has returned no callback of the id is running or pending |
| `ThreadRegistries.NeverCalledAgain` | include/sisl/utility/thread_buffer.hpp:71-162 | nor in any state that follows, in any interleaving |
| `ThreadRegistries.NotifiesAll` | include/sisl/utility/thread_buffer.hpp:71-122 | an attach or detach calls every callback registered when it began, exactly once and in ascending order, before it finishes |
| `ThreadRegistries.RegistersForAll` | include/sisl/utility/thread_buffer.hpp:128-154 | a new registration is called once for every running thread before it returns, under an id that was not in use |
| `ThreadRegistries.WakesIff` | include/sisl/utility/thread_buffer.hpp:156-162 | in every run a deregistration can return exactly if no notification is going on |
| `ThreadRegistries.DeregisteredForGood` | include/sisl/utility/thread_buffer.hpp:156-162 | from the return of a deregistration on, through any continuation, its callback neither runs nor is left in a notification |
| `RegistryLocks.InvStep` | include/sisl/utility/thread_buffer.hpp:71-162 | both locks exclude, thread numbers have one owner and a free number with a reference has a thread about to release it, after every step |
| `RegistryLocks.GoesOn` | include/sisl/utility/thread_buffer.hpp:71-162 | a thread that nobody is in the way of and that does not search in vain has a step |
| `RegistryLocks.Detaches` | include/sisl/utility/thread_buffer.hpp:109-122 | a thread that detaches gives its number back first and its reference afterwards, and nothing else changes |
| `RegistryLocks.ScanGoes` | include/sisl/utility/thread_buffer.hpp:390-414 | an access to all buffers takes the buffer lock shared, the registry lock for each question, and the buffer lock again for exited buffers |
| `RegistryLocks.SomeoneAsks` | include/sisl/utility/thread_buffer.hpp:384-398 | every set of threads that waits for itself holds an attaching thread that finds a reference on each free number and an access that asks the registry |
| `RegistryLocks.KnotIsDeadlocked` | include/sisl/utility/thread_buffer.hpp:195-206 | two such threads and those about to release a reference wait for each other |
| `RegistryLocks.DeadlockIff` | include/sisl/utility/thread_buffer.hpp:195-206 | in every run there is a deadlock if and only if there are two such threads |
| `RegistryLocks.DeadlockStays` | include/sisl/utility/thread_buffer.hpp:195-206 | nobody in a deadlock has a step and no step of others ends it |
| `RegistryLocks.DeadlockForGood` | include/sisl/utility/thread_buffer.hpp:195-206 | nor does any continuation of the run |
| `RegistryLocks.DeadlockRun` | include/sisl/utility/thread_buffer.hpp:195-206 | a run that ends so, for any number of thread numbers and either policy of the locks |
| `RangeEntries.ExtractLeft` | include/sisl/cache/range_hashmap.hpp:209-216 | the left part of an entry with the same values |
| `RangeEntries.ExtractRight` | include/sisl/cache/range_hashmap.hpp:218-226 | the right part of an entry with the same values |
| `RangeEntries.Matched` | include/sisl/cache/range_hashmap.hpp:437-446 | the intersection of an entry with a range, with the same values |
| `RangeEntries.LeftMeaning` | include/sisl/cache/range_hashmap.hpp:283-311 | the left side of a range keeps exactly the offsets before it |
| `RangeEntries.RightMeaning` | include/sisl/cache/range_hashmap.hpp:313-320 | the right side keeps the offsets behind it except the neighbour that is dropped |
| `RangeEntries.InsertMeaning` | include/sisl/cache/range_hashmap.hpp:283-339 | entries stay sorted, disjoint and of matching length; every offset afterwards |
| `RangeEntries.EraseMeaning` | include/sisl/cache/range_hashmap.hpp:341-392 | the same for erase |
| `RangeEntries.InsertIsUpdateIff` | include/sisl/cache/range_hashmap.hpp:319-319 | insert is the map update if and only if the right end is stored or nothing lies right of it |
| `RangeEntries.EraseIsRemovalIff` | include/sisl/cache/range_hashmap.hpp:377-377 | erase is the map removal under the same condition, and only then |
| `RangeEntries.NeighbourLost` | include/sisl/cache/range_hashmap.hpp:377-377 | an input on which an entry outside the range goes |
| `RangeEntries.PiecesMeaning` | include/sisl/cache/range_hashmap.hpp:258-281 | the pieces are exactly the intersections, sorted, and looking up in them is looking up in the entries |
| `RangeHashMaps.MultiEntryHashNode.BinarySearch` | include/sisl/cache/range_hashmap.hpp:406-420 | the entry that covers the offset, or where it would go; found exactly when the offset is stored |
| `RangeHashMaps.MultiEntryHashNode.MoveLeft` | include/sisl/cache/range_hashmap.hpp:293-311 | cutting or splitting the entry at the left end |
| `RangeHashMaps.MultiEntryHashNode.MoveRight` | include/sisl/cache/range_hashmap.hpp:313-331 | cutting at the right end and removing what is between |
| `RangeHashMaps.MultiEntryHashNode.MakeRoom` | include/sisl/cache/range_hashmap.hpp:283-331 | the index arithmetic leaves exactly the two sides of the range |
| `RangeHashMaps.MultiEntryHashNode.Insert` | include/sisl/cache/range_hashmap.hpp:283-339 | the entries become the inserted ones, still sorted |
| `RangeHashMaps.MultiEntryHashNode.Erase` | include/sisl/cache/range_hashmap.hpp:341-392 | the entries become the erased ones, and how many are left |
| `RangeHashMaps.MultiEntryHashNode.Get` | include/sisl/cache/range_hashmap.hpp:258-281 | exactly the intersections are appended in ascending order |
| `RangeHashMaps.HashBucket.Find` | include/sisl/cache/range_hashmap.hpp:491-501 | the node of key and base, or the place for it |
| `RangeHashMaps.HashBucket.Insert` | include/sisl/cache/range_hashmap.hpp:484-509 | only the node of the range changes, created if need be; no node is left without entries |
| `RangeHashMaps.HashBucket.Erase` | include/sisl/cache/range_hashmap.hpp:534-565 | only that node changes; one that is empty afterwards is removed, so no node is left without entries |
| `RangeHashMaps.HashBucket.Get` | include/sisl/cache/range_hashmap.hpp:511-532 | the pieces of that node |
| `RangeHashMaps.NextPart` | include/sisl/cache/range_hashmap.hpp:605-618 | each part lies in one node and is all the range has there |
| `RangeHashMaps.RangeHashMap.constructor` | include/sisl/cache/range_hashmap.hpp:583-588 | the empty table |
| `RangeHashMaps.RangeHashMap.BucketOf` | include/sisl/cache/range_hashmap.hpp:671-673 | the remainder of the hash code of key and base by the number of buckets |
| `RangeHashMaps.RangeHashMap.Insert` | include/sisl/cache/range_hashmap.hpp:595-619 | over any number of nodes and buckets, every node the range touches takes its step and no other changes; no node is left without entries |
| `RangeHashMaps.RangeHashMap.Erase` | include/sisl/cache/range_hashmap.hpp:650-668 | the same for erase |
| `RangeHashMaps.RangeHashMap.Get` | include/sisl/cache/range_hashmap.hpp:622-647 | ascending pieces that cover exactly the stored offsets of the range with the stored values |
| `RangeHashMaps.RangeHashMap.GetLatest` | include/sisl/cache/range_hashmap.hpp:622-647 | after any run of inserts and erases, the pieces returned hold at every offset the most recent value, missing exactly if there is none or it was lost |
| `RangeRuns.StepMeaning` | include/sisl/cache/range_hashmap.hpp:595-668 | what one operation on a range of any length does to one offset |
| `RangeRuns.RunMeaning` | include/sisl/cache/range_hashmap.hpp:595-668 | after any run an offset holds its latest value, missing exactly if it was lost to an operation in the gap before its entry |
| `RangeRuns.NeverStale` | include/sisl/cache/range_hashmap.hpp:595-668 | after any run what is stored is the most recent value inserted and not erased since |
| `RangeRuns.CarefulIff` | include/sisl/cache/range_hashmap.hpp:595-668 | the map is exact throughout a run if and only if every operation ends at a stored offset or with nothing to its right |
| `RangeHashMaps.StoredIsLatest` | include/sisl/cache/range_hashmap.hpp:595-668 | the same for the table the class keeps |
| `LruEvictors.LRUPartition.EvictOne` | src/cache/lru_evictor.cpp:108-128 | a record goes exactly if it is not pinned, the user agrees, the bucket lock is free and the key is in the map; otherwise list and map stay as they were |
| `LruEvictors.LRUPartition.DoEvict` | src/cache/lru_evictor.cpp:100-153 | removes exactly the shortest front run of records that can go that makes room, or all of these; their keys leave the map during the pass, records whose key cannot be erased are put back and the rest keep their order; success exactly if not full; pinned records and those the user or a lock holds back stay |
| `LruEvictors.PassSpares` | src/cache/lru_evictor.cpp:108-128 | only records in the map that nothing holds back are evicted, and every other record stays |
| `LruEvictors.LRUPartition.AddRecord` | src/cache/lru_evictor.cpp:47-61 | exactly when a record is added, what was evicted from list and map, exactly when the partition is over its maximum afterwards, and the bound max + S - 1 |
| `LruEvictors.PassDecides` | src/cache/lru_evictor.cpp:47-61 | a non-empty record is admitted exactly if it fits or the records that cannot be evicted do not fill the partition, and exactly when the maximum is exceeded, both from the state before the call |
| `LruEvictors.Overfill` | src/cache/lru_evictor.cpp:47-61 | calls that fill a partition of 10 up to 14, the bound for records of size 5 |
| `LruEvictors.LRUPartition.RemoveRecord` | src/cache/lru_evictor.cpp:63-79 | unlinks exactly this record and keeps the sum |
| `LruEvictors.LRUPartition.RecordAccessed` | src/cache/lru_evictor.cpp:81-92 | the linked record moves to the recent end, the others keep their order; one that is not linked changes nothing |
| `LruEvictors.CutIsUnique` | src/cache/lru_evictor.cpp:106-107 | there is only one place where the eviction pass may stop |
| `LruEvictors.SurvivorsSum` | src/cache/lru_evictor.cpp:106-128 | what survives has the old sum less what was evicted |
| `SimpleHashMaps.SimpleHashBucket.Insert` | include/sisl/cache/simple_hashmap.hpp:136-163 | puts a new key in its place; an existing one is left alone |
| `SimpleHashMaps.SimpleHashBucket.Get` | include/sisl/cache/simple_hashmap.hpp:165-182 | the value of the key, nothing exactly if it is absent |
| `SimpleHashMaps.SimpleHashBucket.EraseUnsafe` | include/sisl/cache/simple_hashmap.hpp:265-287 | takes out exactly this key and returns its value |
| `SimpleHashMaps.SimpleHashMap.constructor` | include/sisl/cache/simple_hashmap.hpp:291-296 | every key is absent |
| `SimpleHashMaps.SimpleHashMap.BucketOf` | include/sisl/cache/simple_hashmap.hpp:376-378 | the remainder of the hash code by the number of buckets |
| `SimpleHashMaps.SimpleHashMap.Insert` | include/sisl/cache/simple_hashmap.hpp:304-311 | over all buckets: only this key changes, and only if it was absent |
| `SimpleHashMaps.SimpleHashMap.Get` | include/sisl/cache/simple_hashmap.hpp:322-329 | the value of the key, nothing exactly if it is absent |
| `SimpleHashMaps.SimpleHashMap.Erase` | include/sisl/cache/simple_hashmap.hpp:331-338 | exactly this key goes, and its value is returned |
| `SimpleHashMaps.SimpleHashMap.TryErase` | include/sisl/cache/simple_hashmap.hpp:191-203 | erases exactly if the bucket lock is free and the key is there; no other key changes |
| `SimpleCaches.SurvivorsLinked` | src/cache/lru_evictor.cpp:100-128 | after an eviction pass exactly the records that were not evicted are linked, each once |
| `SimpleCaches.SimpleCache.constructor` | include/sisl/cache/simple_cache.hpp:40-60 | an empty cache whose structures agree, every partition with its equal share of the maximum |
| `SimpleCaches.Share` | src/cache/lru_evictor.cpp:22-28 | the largest equal share of the maximum |
| `SimpleCaches.SimpleCache.PartOf` | include/sisl/cache/lru_evictor.hpp:107-107 | the remainder of the hash code by the number of partitions |
| `SimpleCaches.SimpleCache.OnCreate` | include/sisl/cache/simple_cache.hpp:94-101 | what the eviction pass did to list and map, and that the new record is linked exactly if it is admitted and its key remembered as failed otherwise |
| `SimpleCaches.SimpleCache.DrainFailed` | include/sisl/cache/simple_cache.hpp:67-75 | takes exactly the failed keys out of the map |
| `SimpleCaches.SimpleCache.InsertValue` | include/sisl/cache/simple_cache.hpp:64-77 | map and evictor agree again and stay within the bound; a new key is present exactly on success, and it succeeds exactly if its partition is not full or holds a key that may go, which must share its partition by hash code, not its bucket, and be let go by the user; precisely which keys are evicted, none if the record fits; other partitions stay as they were |
| `SimpleCaches.AdmitsIff` | src/cache/lru_evictor.cpp:47-61 | with equal sizes a record is admitted exactly if the partition is not full or something in it can go |
| `SimpleCaches.SimpleCache.TakenAreEvictable` | src/cache/lru_evictor.cpp:100-128 | a partition holds a record that can go exactly if the map holds a key that may go |
| `SimpleCaches.SimpleCache.FilledIsCount` | include/sisl/cache/lru_evictor.hpp:102-103 | in every valid cache the filled size of a partition is the record size times the number of its records |
| `SimpleCaches.SimpleCache.GetValue` | include/sisl/cache/simple_cache.hpp:86-86 | the value found; only the order of its partition changes |
| `SimpleCaches.SimpleCache.RemoveKey` | include/sisl/cache/simple_cache.hpp:84-84 | key and record go together, the other partitions stay as they were |
| `SimpleCaches.SimpleCache.Insert` | include/sisl/cache/simple_cache.hpp:64-77 | an insert, with any callback, is an allowed event of a run |
| `SimpleCaches.SimpleCache.Get` | include/sisl/cache/simple_cache.hpp:86-86 | so is a lookup |
| `SimpleCaches.SimpleCache.Remove` | include/sisl/cache/simple_cache.hpp:84-84 | so is a removal |
| `SimpleCaches.ContentsAreLatest` | include/sisl/cache/simple_cache.hpp:64-86 | over every run what is in the cache is the value of the last successful insert |
| `SimpleCaches.HitsAreLatest` | include/sisl/cache/simple_cache.hpp:64-86 | every hit returns it |
| `CacheLocks.BlockersAreFurther` | include/sisl/cache/simple_hashmap.hpp:136-203 | whoever stands in the way of a thread is further on in the order reader, writer, partition, running |
| `CacheLocks.SomeoneMoves` | src/cache/lru_evictor.cpp:47-92 | from every operation in progress a chain of threads, each standing in the way of the one before, leads to one that has a step |
| `CacheLocks.NoDeadlock` | include/sisl/cache/simple_cache.hpp:53-58 | in every state each non-empty set of threads has a member with nobody of the set in its way, so no set waits for itself |
| `CacheLocks.StepExclusive` | include/sisl/cache/simple_hashmap.hpp:136-203 | bucket locks and partition mutexes exclude each other after every step, try_lock included |
| `CacheLocks.FreesAreSafe` | include/sisl/cache/simple_hashmap.hpp:265-287 | a node is freed only while no other thread holds its bucket lock or, through that lock, a pointer to it |
| `CacheLocks.UsedNodesExist` | include/sisl/cache/simple_hashmap.hpp:136-203 | the node of a key an operation works on exists |
| `CacheLocks.StructuresAgree` | include/sisl/cache/simple_cache.hpp:64-77 | in every run a key without an operation in progress is in the map exactly if its record is linked |
| `CacheLocks.PassLooksOnce` | src/cache/lru_evictor.cpp:100-128 | an eviction pass looks at no record twice |
| `CacheLocks.StaleIff` | include/sisl/cache/simple_cache.hpp:67-75 | a refused key counts as linked again exactly when another thread links it |
| `CacheLocks.Gets` | include/sisl/cache/simple_hashmap.hpp:165-182 | a lookup goes through the partition exactly if the key is there, step by step, and changes nothing |
| `CacheLocks.RemovesLinked` | include/sisl/cache/simple_hashmap.hpp:184-189 | removing a linked key takes node and record away and reduces the filled size, and nothing else changes |
| `CacheLocks.DanglesIff` | include/sisl/cache/simple_cache.hpp:67-75 | in every run another thread frees the record an evictor looks at if and only if it drains a failed key that has been linked again since it failed |
| `CacheLocks.CleanRunsAreSafe` | include/sisl/cache/simple_cache.hpp:67-75 | runs in which no failed key is linked again before it is drained never free a record an evictor looks at, and keep the filled sizes exact |
| `CacheLocks.RecordFreed` | include/sisl/cache/simple_cache.hpp:103-108 | for any two keys of one partition in different buckets and room for one record, a run of four threads that ends with an evictor looking at a freed record and with an empty partition that counts as full |
| `CacheLocks.StepCounted` | src/cache/lru_evictor.cpp:47-79 | after every step the filled size of a partition is the number of its records and of those that left it uncounted |
| `CacheLocks.FilledIff` | include/sisl/cache/simple_cache.hpp:103-107 | in every run the filled size is that of the records if and only if none left uncounted, and exactly which steps let one |
| `CacheLocks.FullForGood` | src/cache/lru_evictor.cpp:130-146 | once as many left uncounted as a partition may hold, no continuation of the run admits a key to it |
| `RpcCalls.SendKeeps` | include/sisl/grpc/rpc_call.hpp:354-391 | do_streaming_send_if_needed restores the invariant of the call |
| `RpcCalls.StepKeeps` | include/sisl/grpc/rpc_call.hpp:199-391 | every handler keeps the invariant of the call |
| `RpcCalls.RunsKeep` | include/sisl/grpc/rpc_call.hpp:199-391 | it holds in every run |
| `RpcCalls.CountIsOwners` | include/sisl/grpc/rpc_call.hpp:83-102 | the count is tags plus held references plus user pointers, and a call that can take a step is alive |
| `RpcCalls.ReferencesAdvance` | include/sisl/grpc/rpc_call.hpp:251-309 | the processing and the user reference are each taken and released at most once |
| `RpcCalls.OneResponseInFlight` | include/sisl/grpc/rpc_call.hpp:354-391 | at most one response tag is out |
| `RpcCalls.WrittenInOrder` | include/sisl/grpc/rpc_call.hpp:374-390 | what was written is a prefix of what was accepted, with nothing after a finish |
| `RpcCalls.NothingAfterFinish` | include/sisl/grpc/rpc_call.hpp:354-391 | the stream only grows, and not after a finish |
| `RpcCalls.LastSentReleases` | include/sisl/grpc/rpc_call.hpp:199-216 | after the last response, with no response tag out, both references are released; without cancel, error or failed write everything was written |
| `RpcCalls.NothingLeaks` | include/sisl/grpc/rpc_call.hpp:269-287 | then the call is freed once its tags and the user's pointers are gone |
| `RpcCalls.FlagsTell` | include/sisl/grpc/rpc_call.hpp:199-322 | in every run the flags and references say which steps were taken: cancelled exactly if a completion said so, last exactly if a response was, the status last set |
| `RpcCalls.StepSends` | include/sisl/grpc/rpc_call.hpp:354-391 | in every run, exactly what each step puts on the stream (a set error status exactly the finish), which responses it accepts, and when no more are accepted |
| `RpcCalls.TagsTell` | include/sisl/grpc/rpc_call.hpp:324-335 | in every run, which tags are out and how many pointers the user has, from the steps taken: one response tag per operation on the stream that has not come back |
| `RpcCalls.CancelStops` | include/sisl/grpc/rpc_call.hpp:314-322 | in every run, once a completion reported a cancellation no step sends anything, and the next response is the last one accepted |
| `RpcCalls.ServesTwo` | include/sisl/grpc/rpc_call.hpp:199-391 | a run of one request with two responses: both go out in order, the second with the finish, and the call is freed |
| `RpcCalls.MayAlways` | include/sisl/grpc/rpc_call.hpp:83-102 | a tag that is out may come back with either result, and whoever has a pointer may use it |
| `RpcCalls.RpcData.constructor` | include/sisl/grpc/rpc_call.hpp:324-335 | a registered call |
| `RpcCalls.RpcData.DoStreamingSendIfNeeded` | include/sisl/grpc/rpc_call.hpp:354-391 | the sending step; no release inside it is the last one |
| `RpcCalls.RpcData.SendResponse` | include/sisl/grpc/rpc_call.hpp:199-216 | a response step of the state machine, the object alive throughout, and when more is accepted |
| `RpcCalls.RpcData.ProcessRequest` | include/sisl/grpc/rpc_call.hpp:251-290 | the request step, with and without authorization |
| `RpcCalls.RpcData.OnResponseSent` | include/sisl/grpc/rpc_call.hpp:293-309 | success goes on sending; failure disables and releases exactly if a plain write failed |
| `RpcCalls.RpcData.ProcessResponse` | include/sisl/grpc/rpc_call.hpp:93-97 | the response step, the tag's own reference released last |
| `RpcCalls.RpcData.ProcessCompletion` | include/sisl/grpc/rpc_call.hpp:314-322 | the completion step: a cancellation is remembered, the tag comes back, nothing is sent |

## Left out

- Integer widths: wrap-around of bit positions, of the length of a completed range and of the 8-bit offset in a node's get is modelled; that of buffer sizes, of accumulated block lengths and of 32-bit ids is not. Bitsets have fewer than 2^64 - 64 bits, those of a tracker fewer than 2^63; differences of indices fit into 64 bits, which signed arithmetic relies on; `RangeHashMap` ranges end below 2^32.
- Other word types: `Bitword` is proved for plain 64-bit words; atomic and small words and the fallback bit tricks are left out.
- Zero-length ranges of bit sets: the word functions have no meaning for them; `Bitset.SetResetBits` and `Bitset.IsBitsSetReset` ask for a positive count.
- Bitset buffers: forced copies for trivially laid out words, alignment, ids, shared buffers between copies, and locks of the thread-safe variant.
- StreamTracker: `reinit`, `foreach_contiguous`, automatic truncation counters and metrics.
- StreamTrackers.StreamTracker.Complete: an empty range (last is first - 1) that starts at a slot is not covered; for a count of zero the code reads its mask table in front of the first entry.
- `wisr_framework::reset`, `delayed`, `foreach_thread_member`: reset deletes buffers without a grace period, so the invariants do not cover it; the others only read.
- WISR merges: appending as in `vector_wrapper::merge`; other containers are not modelled.
- WISR and the registry lock: picking a number and exchanging a buffer do not take it in the WISR model, whose runs include all those with the lock; the model of the locks says when they get stuck.
- WISR and registry: the replay of running threads to a new registration is one step for the thread buffer; its race with a detaching thread is left out, and so is the cursor search for a free thread number.
- Registration numbers are unbounded; the 32-bit counter wraps after 2^32 registrations.
- RangeHashMap callbacks: access notifications, and user-defined value extractors; a value is sliced per offset.
- `LRUPartition::record_resized`, RangeCache, `upsert`, `update` and `upsert_or_delete`: left out with the invariants they do not keep.
- Several caches or record families on one evictor: callbacks are chosen by the incoming record.
- SimpleCache under concurrency: records have size one, and an eviction pass may go over the records of a partition in any order.
- Registry and buffer locks: one thread buffer; the replay to a new registration and the wait in deregistration are in the model of notifications only.
- Eviction callbacks: the user's callback is a pure answer per record for the length of one call; one that itself uses the cache is left out.
- RPC: the gRPC library, the non-streaming path, server shutdown and replacement calls; a request handler's own sends are steps after it, and each handler is one atomic step.
- Memory ordering, allocation failure, logging, assertions.
- Metrics, Prometheus, flip, settings, file watcher, options, version, sobject, gRPC client and server plumbing: library wrappers or easy members.

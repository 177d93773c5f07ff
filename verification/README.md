# Verified models of the sanitizer's core structures

The sanitizer watches kernels on an AI accelerator: it shadows every byte of memory, tracks which ranges are
allocated, pairs up synchronisation events and, on the device itself, looks for races between SIMT threads.  It
does so with structures that are compressed, edited in place or shared between threads without a lock around
them.  Each of them stands for a simple mathematical object, and this project proves that it does.

| module | what it models | the object it stands for |
|---|---|---|
| `OnlineTable`, `OnlineLookups`, `OnlineProgress` | the three-level table that device threads fill lazily under compare-and-swap locks from a fetch-add allocator | one status cell for each 48-bit address |
| `ByteStatus`, `RaceAutomaton`, `RaceRuns`, `RaceVerdicts`, `InitAutomaton` | the packed status word and the compare-and-swap retry loops that update it | the log of completed accesses to the byte |
| `ShadowWord`, `PrimaryMap`, `GlobalMap` | the two- and three-level shadow maps with common and materialised blocks, and the eight-bytes-at-a-time scans | a flat map from addresses to bytes |
| `ShadowMemory`, `ShadowRuns`, `StoreRuns` | stores, loads and release of global memory over runs of equal shadow bytes | one transition for each byte; the stores that took effect on it |
| `DiscreteBounds`, `HeapActions` | the sorted vector of allocated ranges, the heap block table and the actions that drive them | a partial map from addresses to permissions; the set of live blocks |
| `DeviceTable`, `PeerCover` | the allocation table the device sorts and merges in place, the bounds check over it and the peer lookup | the union of the rows |
| `VectorTime`, `FlagTeams`, `FlagGather`, `FlagPairs`, `CrossCoreSync`, `FlagRuns`, `IntraBlockSync`, `Barrier`, `BarrierRounds` | cross-core flags in modes 0, 1, 2 and 4, their container and the reusable barrier | the history of sets, grants and releases |
| `SyncThreads` | the `__syncthreads` counters and their alignment in place | each thread's list of barrier hits |
| `StridedRecords`, `RecordMerge` | conversion of strided events to records, and batch and streaming merge | the bytes of a nested loop; the trace of touched bytes |
| `FlagMatching` | packed ids of set and wait events and their pairing | the sets and waits on each channel |

Concurrent code is a state machine whose steps are single atomic accesses; a schedule is any sequence of steps of
any threads, and the theorems hold for every schedule.  Objects the source updates in place are classes, loops
are loops with invariants, and what they compute is tied to a specification function or to a ghost history.
`dafny verify dfyconfig.toml` checks everything.

## Where the code differs from what one would expect

Each of these is proved, with the exact condition under which the expected property does hold.

- `ByteStatus.UnpackPack`: the layout documents a 32-bit program counter, the accessor returns 16 bits of it.
- `RaceVerdicts.ReporterMayBeNamed`: a read/write report may name the reporting thread as its own opponent;
  `RaceVerdicts.ReporterNamedExactly` says when.  `RaceVerdicts.UnreportedReadWrite`: loads from another warp before
  the first store can go unreported; `RaceVerdicts.StoreAfterLoads` and `RaceVerdicts.SilentExactly` say when.
  `RaceVerdicts.FalseAlarm`: a store may be reported against a load that a barrier separates from it;
  `RaceVerdicts.FalseAlarmExactly` says when.
- `PrimaryMap.PM.RangeHasStatus`: a range that ends within the last 64 KB of the local address range is not
  scanned.  `GlobalMap.GmPM.Set` does nothing when the range ends within 2^36 - 2 bytes of the 48-bit limit
  (`ShadowRuns.IgnoredSet`), so a store there is partial (`StoreRuns.PartialStore`); `ShadowMemory.StoredInFull`
  says when it is not.
  `StoreRuns.MissedUndefinedRead`: so the fast path of a load misses an undefined byte at the end of a
  materialised first-level block; `ShadowMemory.ShadowMemory.LoadNBytes` says exactly when it does not.
- `StoreRuns.WideCore`: core ids from 64 on do not fit in a shadow byte, so such a core is reported for storing its own
  byte again, unless the low six bits of its id are all set.
- `DiscreteBounds.DiscreteBounds.Add` drops the tail of a range of another permission that spans the added one
  (`DiscreteBounds.TailDropped`), and leaves an empty range behind when both start at the same address; `DiscreteBounds.OverlapWithNothing`:
  `HasOverlap` then reports an overlap although nothing is mapped, and its contract says when its answer is right.
- `HeapActions.Runtime.DoMalloc`: a second allocation at a live address keeps the old block but widens the bounds
  (`HeapActions.SecondMalloc`).
- `SyncThreads.ZeroHitSpoils`: a barrier hit at pc zero spoils the counters of its thread; any other pc is counted.
  `SyncThreads.LossAccuses`: with more than 64 barriers a thread can be reported that hit every barrier;
  `SyncThreads.ThreadBlock.End` says who is reported.
- `StridedRecords.Convert`: three of the branches for blocks that are two or more apart record only part of the
  event (`StridedRecords.MissedBlock`), and some events without blocks are recorded as if they had one.
- `FlagRuns.Container.Set`: the guard of the cross-core flags lets flag id 32 pass, one more than there are;
  `FlagRuns.Container.Get` has no guard for the id.  Both say exactly which calls leave the array.
- `RecordMerge.MergeKeepsTrace`: merging loses bytes exactly when a chain of mergeable neighbours reaches 2^64
  bytes (`RecordMerge.MergeLosesBytes`).
- `IntraBlockSync.LostOnSolo`: on one-to-one kernels what a cube core sets at ids from 16 on can never be waited for.
- First-level blocks of global memory, and blocks of the device's first table, are 2^36 - 1 and 2^32 - 1 bytes
  wide, not powers of two; the index arithmetic is still injective (`OnlineTable.KeysMatchAddresses`).

## Model

| member | source | states |
|---|---|---|
| `OnlineLookups.LookupsAgree` | csrc/plugin/shadow_memory_online.h:237-374 | under every interleaving two successful lookups return one cell exactly when they looked up one 48-bit address and cells without a common byte otherwise, and a cell lies in the heap behind the first table |
| `OnlineProgress.LookupSucceedsExactly` | csrc/plugin/shadow_memory_online.h:72-93 | after any schedule, a thread that looks up an address undisturbed ends within a fixed number of accesses, and finds its cell iff neither slot on the way is locked or marked and the heap has a chunk for each that is still empty |
| `OnlineProgress.FirstLookup` | csrc/plugin/shadow_memory_online.h:237-256 | the first lookup of all succeeds, for whatever address, iff the heap holds two chunks |
| `OnlineProgress.AloneVerdict` | csrc/plugin/shadow_memory_online.h:258-374 | the same verdict for a thread left alone anywhere inside a lookup |
| `OnlineProgress.FailsOnlyWhenExhausted` | csrc/plugin/shadow_memory_online.h:78-91 | under every interleaving, while the cursor is within the heap no slot carries the out-of-memory mark and a lookup can only have failed by waiting too long for a lock |
| `OnlineProgress.WaitsForOwner` | csrc/plugin/shadow_memory_online.h:284-294 | a thread that finds a slot locked goes on with what the owner leaves there, having seen the lock at most 2000 times, and gives up after that |
| `OnlineLookups.SlotMovesForward` | csrc/plugin/shadow_memory_online.h:258-366 | no step of any thread moves a slot other than from 0 to LOCKED or from LOCKED to a settled word, and no status write lands on a slot |
| `OnlineLookups.SettledForever` | csrc/plugin/shadow_memory_online.h:258-366 | a published address or the out-of-memory mark never changes again, whatever is scheduled |
| `OnlineLookups.ChunksDisjointInHeap` | csrc/plugin/shadow_memory_online.h:72-93 | chunks published in different slots are disjoint and inside the heap, and the fetch-add cursor never wraps |
| `OnlineLookups.DeadBranches` | csrc/plugin/shadow_memory_online.h:258-374 | no schedule reaches the errors for a slot still 0 after the lock, a null table or a slot outside the heap |
| `OnlineLookups.LockIsExclusive` | csrc/plugin/shadow_memory_online.h:258-366 | two threads never hold one slot's lock, and a held slot reads LOCKED |
| `OnlineTable.KeysMatchAddresses` | csrc/plugin/shadow_memory_online.h:258-374 | the three indices are equal exactly for equal 48-bit addresses, although the levels are cut differently |
| `OnlineTable.TableSizes` | csrc/core/framework/record_defs.h:126-178 | the entry counts are the rounded-up quotients of the masks and both lower tables take one chunk size |
| `OnlineTable.RunKeepsInv` | csrc/plugin/shadow_memory_online.h:72-374 | every schedule keeps the invariant tying slot words, allocations, locks and lookup positions together |
| `ByteStatus.UnpackPack` | csrc/plugin/shadow_memory_online.h:129-171 | every field of a packed status word comes back, the program counter exactly when it fits in 16 bits |
| `ByteStatus.PackInjective` | csrc/plugin/shadow_memory_online.h:129-143 | equal words have equal fields, so a compare-and-swap on words is one on fields |
| `ByteStatus.FullPc` | csrc/plugin/shadow_memory_online.h:131-158 | all 32 bits of the program counter are stored although only 16 are read back |
| `RaceAutomaton.EveryReportIsARace` | csrc/plugin/shadow_memory_online.h:720-833 | every report of every run, barriers and atomic accesses included and even on an attempt whose swap then fails: for write/read and write/write the thread named is another one that had stored non-atomically since the last barrier; for read/write some thread had so loaded and another than the reporter had loaded |
| `RaceRuns.ReportedExactly` | csrc/plugin/shadow_memory_online.h:720-833 | in every run, at every point, reported accesses, barriers and atomic accesses included, the word has its closed form over the log, and an access that reads it reports exactly what the log calls for: kind, thread named, and an overlap once per access |
| `RaceRuns.EveryAttemptFollows` | csrc/plugin/shadow_memory_online.h:720-833 | one attempt on the closed form of the word is judged as the log says and installs the closed form of the longer log |
| `RaceRuns.StretchExactly` | csrc/plugin/shadow_memory_online.h:752-763 | the part of the log the word speaks of begins at the last unreported store, or unreported load right after a reported access, or at the beginning |
| `RaceRuns.SyncWord` | csrc/plugin/shadow_memory_online.h:436-456 | a barrier turns the closed form of the word into the one that no longer races |
| `RaceRuns.StepFlags` | csrc/plugin/shadow_memory_online.h:807-825 | the flag of an access says whether it has counted an overlap since its thread's last completed access |
| `RaceVerdicts.AfterStores` | csrc/plugin/shadow_memory_online.h:806-829 | in every run in which only stores have completed, reported or not, the next store is reported iff the thread named is another one, and a load iff besides it is of another warp or at the last store's instruction |
| `RaceVerdicts.RacesAgain` | csrc/plugin/shadow_memory_online.h:817-829 | three stores of three warps: the byte that raced is reported again, naming the last storer |
| `RaceVerdicts.BarrierAndAtomicSilence` | csrc/plugin/shadow_memory_online.h:560-570 | right after a barrier, and after an atomic access that wrote the word, nothing is reported |
| `RaceVerdicts.FalseAlarmExactly` | csrc/plugin/shadow_memory_online.h:794-805 | a store is reported although no other thread has loaded since the barrier iff its own thread made the last load, another one loaded before, and the thread named is not synchronised with it |
| `RaceVerdicts.FalseAlarm` | csrc/plugin/shadow_memory_online.h:794-805 | a run with a barrier in which that happens |
| `RaceVerdicts.CalmReportIsARace` | csrc/plugin/shadow_memory_online.h:794-805 | without barriers and atomic accesses every read/write report is justified by another thread's load |
| `RaceVerdicts.SilentExactly` | csrc/plugin/shadow_memory_online.h:720-833 | every run, barriers and atomic accesses included, is silent iff no access, whenever it reads the word, conflicts with the accesses completed by then, and that is stated by the log alone |
| `RaceVerdicts.SilentRunIsOrdered` | csrc/plugin/shadow_memory_online.h:560-590 | a run without barriers, atomic accesses and reports has one writing thread, and all loads after its first store come from its warp |
| `RaceVerdicts.AllowedExactly` | csrc/plugin/shadow_memory_online.h:720-833 | after unreported accesses of such a run the next one is unreported iff it is allowed, told by the first store, the last store and the thread named |
| `RaceVerdicts.StoreAfterLoads` | csrc/plugin/shadow_memory_online.h:783-809 | in every run a store after loads only is reported iff the last load was non-atomic and since the last barrier, the loads are not all its own, and the thread named is in another warp or the last load was at the same instruction; the report names that thread |
| `RaceVerdicts.ReporterNamedExactly` | csrc/plugin/shadow_memory_online.h:783-809 | in every run a read/write report names the reporter iff the word speaks of loads that can race, not all its own, it is the thread named and the last of them was at the store's instruction |
| `RaceVerdicts.UnreportedReadWrite` | csrc/plugin/shadow_memory_online.h:720-833 | a silent run in which another warp read before the store: the ordering theorem is no stronger |
| `RaceVerdicts.ReporterMayBeNamed` | csrc/plugin/shadow_memory_online.h:767-833 | a run whose read/write report names the reporter itself |
| `RaceVerdicts.SoloRun` | csrc/plugin/shadow_memory_online.h:720-833 | an undisturbed access applies one attempt to the word and logs it |
| `RaceVerdicts.CompletesAlone` | csrc/plugin/shadow_memory_online.h:722-765 | from any state a thread left alone completes the access it is at, however stale what it had read |
| `InitAutomaton.InitOutcome` | csrc/plugin/shadow_memory_online.h:847-884 | under every interleaving the byte is WRITE iff some store finished and DEFAULT iff nothing did; the word names thread, instruction and space of the first store to finish, or of the first load; and exactly the first store behind a load replaced a read mark, namely that load's, and had copied it out |
| `InitAutomaton.FinishesAlone` | csrc/plugin/shadow_memory_online.h:847-884 | from any state a thread left alone finishes the access it is at and logs it once |
| `InitAutomaton.StatusOnlyClimbs` | csrc/plugin/shadow_memory_online.h:847-884 | from any reachable point on the status only climbs, and an equal rank means an unchanged word |
| `InitAutomaton.StepClimbs` | csrc/plugin/shadow_memory_online.h:847-884 | one step keeps the invariant and never replaces a word by another of its rank |
| `ShadowWord.StatusInWord` | csrc/address_sanitizer/pm.cpp:25-43 | the zero-byte trick on a masked difference is true iff one of the eight bytes has the status, for all words |
| `ShadowWord.WordHasStatus` | csrc/address_sanitizer/pm.cpp:31-43 | the whole-word test finds a status iff one of the eight bytes has it |
| `ShadowWord.WordIsSplat` | csrc/address_sanitizer/pm.cpp:204-241 | comparing a word with a repeated byte compares all eight bytes |
| `PrimaryMap.PM.constructor` | csrc/address_sanitizer/pm.cpp:120-145 | every byte reads as the initial byte, with nothing materialised |
| `PrimaryMap.PM.Reset` | csrc/address_sanitizer/pm.cpp:130-145 | the flat map becomes constant and every block common again |
| `PrimaryMap.PM.GetBits` | csrc/address_sanitizer/pm.cpp:152-160 | the byte of the flat map at the masked address |
| `PrimaryMap.PM.Set` | csrc/address_sanitizer/pm.cpp:162-202 | the flat map with exactly the range overwritten, whatever blocks are common or materialised |
| `PrimaryMap.PM.UnifiedSizeAfter` | csrc/address_sanitizer/pm.cpp:204-241 | a run of equal bytes that ends at the range, at the block or before a different byte, so it is maximal |
| `PrimaryMap.PM.BlockHasStatus` | csrc/address_sanitizer/pm.cpp:243-286 | true iff some byte of that part of the block has the status |
| `PrimaryMap.PM.RangeHasStatus` | csrc/address_sanitizer/pm.cpp:243-286 | true iff some byte of the range has the status and the rounded-up end survives the mask |
| `GlobalMap.FirstLevelSize` | csrc/address_sanitizer/pm.cpp:298-303 | the number of first-level blocks is the rounded-up quotient |
| `GlobalMap.GmPM.GetPM` | csrc/address_sanitizer/pm.cpp:405-426 | creating a first-level block on demand changes no byte |
| `GlobalMap.GmPM.GetBits` | csrc/address_sanitizer/pm.cpp:323-330 | the byte of the flat 48-bit map |
| `GlobalMap.GmPM.Set` | csrc/address_sanitizer/pm.cpp:332-349 | the flat map with exactly the range overwritten across block boundaries, or unchanged when the rounded-up end passes 48 bits |
| `GlobalMap.GmPM.UnifiedSizeAfter` | csrc/address_sanitizer/pm.cpp:351-370 | a maximal run of equal bytes, cut at the two block sizes and the range |
| `GlobalMap.GmPM.RangeHasStatus` | csrc/address_sanitizer/pm.cpp:372-403 | true iff the end survives the 48-bit mask and some byte that is scanned has the status |
| `GlobalMap.GmPM.Materialised` | csrc/address_sanitizer/pm.cpp:323-426 | a byte that differs from the initial one lies in an existing first-level block |
| `ShadowMemory.PackedByte` | csrc/address_sanitizer/shadow_memory.cpp:45-69 | status and core id are packed and replaced independently of each other |
| `ShadowMemory.ValidateRange` | csrc/address_sanitizer/shadow_memory.cpp:362-386 | a range is cut to the 48-bit limit, wrap-around included |
| `ShadowMemory.ShadowMemory.StoreRun` | csrc/address_sanitizer/shadow_memory.cpp:292-330 | one run: at most two overwrites apply the per-byte transition, and count the run iff it tramples another core's bytes |
| `ShadowMemory.ShadowMemory.StoreInRange` | csrc/address_sanitizer/shadow_memory.cpp:292-330 | walking runs while rewriting the map applies the per-byte transition to exactly the bytes whose run ends before the point where overwrites are ignored, and the bad bytes are exactly the trampled ones |
| `ShadowMemory.ReachedWhere` | csrc/address_sanitizer/pm.cpp:332-370 | every byte of a range that reaches is stored; in any other range all bytes 64 KB before the point are and none past it is |
| `ShadowMemory.StoredInFull` | csrc/address_sanitizer/shadow_memory.cpp:292-330 | a store is done in full iff every byte it would change lies in a run that ends before the point, and iff the range itself does when the last byte would change |
| `ShadowMemory.ShadowMemory.StoreNBytes` | csrc/address_sanitizer/shadow_memory.cpp:263-290 | the same for any 64-bit request, cut to the valid range, reported only when checking is on |
| `ShadowMemory.ShadowMemory.CountUndefined` | csrc/address_sanitizer/shadow_memory.cpp:239-260 | the full scan counts exactly the undefined bytes |
| `ShadowMemory.ShadowMemory.LoadNBytes` | csrc/address_sanitizer/shadow_memory.cpp:219-260 | the fast path gives the full count iff there are no undefined bytes or one of them is scanned, and zero otherwise |
| `ShadowMemory.ShadowMemory.MakeMemUndefined` | csrc/address_sanitizer/shadow_memory.cpp:332-342 | exactly the bytes of the cut range become undefined and unowned, unless it ends too close to the limit |
| `ShadowRuns.RunLocal` | csrc/address_sanitizer/pm.cpp:130-202 | after every sequence of Set and Reset each byte is that of the last operation that covers it |
| `ShadowRuns.RunGlobal` | csrc/address_sanitizer/pm.cpp:323-349 | the same on the three-level map for every sequence of Set, of which those whose rounded-up end passes 48 bits have no effect |
| `ShadowRuns.IgnoredSet` | csrc/address_sanitizer/pm.cpp:332-349 | an overwrite near the 48-bit limit after which the old byte is still there |
| `StoreRuns.RecordsStore` | csrc/address_sanitizer/shadow_memory.cpp:292-330 | one more store, by the host or a core, atomic or not, with overlap checking on or off: the byte still records the truth, and the store is reported iff it is non-atomic, checked and by another core than the owner of a byte that has not raced |
| `StoreRuns.HistoryRecords` | csrc/address_sanitizer/shadow_memory.cpp:292-330 | after every such run each shadow byte records the stores that took effect on it: its owner is the first core to store it since the last host store, and it is an error iff a checked non-atomic store by another core ever met an owner |
| `StoreRuns.TrampledIsNew` | csrc/address_sanitizer/shadow_memory.cpp:292-330 | a store reports exactly the bytes where it is the first to clash with an owner |
| `StoreRuns.ReportedIsRaced` | csrc/address_sanitizer/shadow_memory.cpp:263-330 | when every store takes effect the reports add up to the bytes that ever raced, each counted once |
| `StoreRuns.RunStores` | csrc/address_sanitizer/shadow_memory.cpp:263-330 | over any such run on fresh memory, near the limit or not, the reports add up to the first clashes, and to the raced bytes when every store takes effect |
| `StoreRuns.StrictRace` | csrc/address_sanitizer/shadow_memory.cpp:317-327 | when all stores are checked, non-atomic and by cores, a byte races iff two different cores store it |
| `StoreRuns.WideCore` | csrc/address_sanitizer/shadow_memory.cpp:307-327 | a core tramples its own byte iff its id does not fit in six bits and is not cut to the unowned mark |
| `StoreRuns.PartialStore` | csrc/address_sanitizer/shadow_memory.cpp:292-330 | a store that takes effect on its first byte and not on its last |
| `StoreRuns.MissedUndefinedRead` | csrc/address_sanitizer/shadow_memory.cpp:219-260 | a run after which a load of an undefined byte reports nothing |
| `DiscreteBounds.DiscreteBounds.Add` | csrc/address_sanitizer/bounds_check.cpp:66-105 | keeps the vector sorted and disjoint; the added bytes get the permission, all others keep theirs except the dropped tail |
| `DiscreteBounds.AddedMaps` | csrc/address_sanitizer/bounds_check.cpp:66-105 | the override law of Add, for every address and permission |
| `DiscreteBounds.DiscreteBounds.Remove` | csrc/address_sanitizer/bounds_check.cpp:107-137 | keeps the vector sorted; exactly the range leaves the map |
| `DiscreteBounds.RemovedMaps` | csrc/address_sanitizer/bounds_check.cpp:107-137 | the deletion law of Remove, for every address and permission |
| `DiscreteBounds.DiscreteBounds.SetPermission` | csrc/address_sanitizer/bounds_check.cpp:139-167 | keeps the vector sorted; exactly the mapped bytes of the range are relabelled |
| `DiscreteBounds.SetMaps` | csrc/address_sanitizer/bounds_check.cpp:139-167 | the relabelling law of SetPermission, for every address and permission |
| `DiscreteBounds.DiscreteBounds.Check` | csrc/address_sanitizer/bounds_check.cpp:169-198 | the number of bytes of the request that lack the permission, for every request |
| `DiscreteBounds.CountLacking` | csrc/address_sanitizer/bounds_check.cpp:176-197 | the loop that subtracts overlaps ends at that number without going below zero |
| `DiscreteBounds.OverlapSize` | csrc/address_sanitizer/bounds_check.cpp:34-45 | the size of the intersection, computed without adding address and size |
| `DiscreteBounds.DiscreteBounds.CheckAddrOnly` | csrc/address_sanitizer/bounds_check.cpp:215-228 | one bad byte iff the address is unmapped |
| `DiscreteBounds.DiscreteBounds.HasOverlap` | csrc/address_sanitizer/bounds_check.cpp:200-213 | true iff a range meets the request; that is the answer about mapped bytes iff some byte of the request is mapped or no empty range starts strictly inside it |
| `DiscreteBounds.TailDropped` | csrc/address_sanitizer/bounds_check.cpp:81-84 | an Add after which a byte beyond it is no longer mapped |
| `DiscreteBounds.OverlapWithNothing` | csrc/address_sanitizer/bounds_check.cpp:66-213 | adding a range again under another permission and removing it leaves a vector that maps nothing and still overlaps |
| `DiscreteBounds.MapsIsFunctional` | csrc/address_sanitizer/bounds_check.cpp:66-198 | a sorted vector gives an address at most one permission |
| `DiscreteBounds.OverflowCounts` | csrc/address_sanitizer/bounds_check.cpp:230-244 | a request is refused with the number of its bytes beyond the 48-bit range, and passes iff there are none |
| `DiscreteBounds.PermissionTable` | csrc/address_sanitizer/bounds_check.cpp:47-58 | which of the permissions allow which access, whatever the shared flag says |
| `HeapActions.Runtime.DoMalloc` | csrc/address_sanitizer/asan_action.cpp:84-103 | for any range the new blocks and bounds; for a free range bounds stay equal to live blocks; for a live address they do iff live blocks hold all of it |
| `HeapActions.Runtime.DoFree` | csrc/address_sanitizer/asan_action.cpp:104-149 | an illegal free is reported and changes no block; a legal one removes the block from table and bounds and leaves its bytes undefined and unowned |
| `HeapActions.Runtime.DoStore` | csrc/address_sanitizer/asan_action.cpp:193-222 | the illegal bytes of a store are exactly those outside every live block, unless no range meets it and a peer device allows it; one that touches a live block is never excused; the shadow changes as the store says |
| `HeapActions.SecondMalloc` | csrc/address_sanitizer/asan_action.cpp:84-102 | two allocations at one address after which a byte outside every live block is accessible |
| `HeapActions.Runtime.DoLeakCheck` | csrc/address_sanitizer/heap_block_manager.cpp:302-317 | every live block exactly once with its size, and the bytes add up |
| `HeapActions.LiveBalance` | csrc/address_sanitizer/heap_block_manager.cpp:92-232 | after every run live bytes are allocated bytes minus released bytes and the blocks are disjoint |
| `HeapActions.Replay` | csrc/address_sanitizer/asan_action.cpp:84-149 | after every run of allocations of free ranges, arbitrary releases and stores the bounds are exactly the live blocks, the leak report is exactly them with the balance of bytes, and bytes not stored since their release are undefined and unowned |
| `DeviceTable.InsertionSort` | csrc/plugin/online_check.h:726-746 | the table becomes ascending with unused rows last and keeps the multiset of its ranges |
| `DeviceTable.Merge` | csrc/plugin/online_check.h:748-781 | the rows become ascending with gaps, unused rows zero, and the union stays the same |
| `DeviceTable.PermutedCovers` | csrc/plugin/online_check.h:726-746 | equal multisets of ranges cover the same bytes |
| `DeviceTable.IntersectionSize` | csrc/plugin/online_check.h:221-257 | the number of bytes the access and the row share |
| `DeviceTable.SumIsInside` | csrc/plugin/online_check.h:525-549 | over disjoint rows the summed intersections are the number of permitted bytes, at most the access |
| `DeviceTable.CheckAccess` | csrc/plugin/online_check.h:525-549 | the illegal size is the number of bytes outside every permitted row |
| `DeviceTable.HostBounds` | csrc/address_sanitizer/bounds_check.cpp:66-105 | the host's bounds built by Add from the same rows map exactly their union |
| `DeviceTable.DeviceAgreesWithHost` | csrc/plugin/online_check.h:525-781 | sort, merge and sum on the device give the host's answer, which is the number of bytes outside the union of the original rows |
| `PeerCover.Furthest` | csrc/plugin/online_check.h:557-596 | one round reaches beyond a byte iff some usable range holds it, and only over covered bytes |
| `PeerCover.DeviceCovers` | csrc/plugin/online_check.h:557-596 | the rounds for one device end with true iff its ranges cover every byte |
| `PeerCover.PeerCovers` | csrc/plugin/online_check.h:557-596 | true iff some single device's permitted, non-wrapping ranges together cover the access, in any order and overlap |
| `PeerCover.GmReadWriteCheck` | csrc/plugin/online_check.h:525-555 | the access is reported with exactly the bytes outside every permitted row, unless no row meets it and some single device covers it |
| `VectorTime.Join` | csrc/core/framework/vector_clock.cpp:29-42 | the componentwise maximum |
| `VectorTime.JoinAllIsSupremum` | csrc/core/framework/vector_clock.cpp:29-42 | the join of a list is its least upper bound in every component |
| `CrossCoreSync.Flag.SetMode0` | csrc/core/framework/cross_core_sync_info_container.cpp:64-115 | one more set of this block, after which every block's grants are again exactly those promised by the sets: all vector cores (on a one-to-one kernel, as many as there are cube cores), or all cube cores |
| `CrossCoreSync.Flag.SetMode1` | csrc/core/framework/cross_core_sync_info_container.cpp:117-134 | the same for the two vector cores of a group; cube cores are ignored |
| `CrossCoreSync.Flag.SetMode2` | csrc/core/framework/cross_core_sync_info_container.cpp:136-184 | the same for both vector cores to the cube core and the cube core to both, and for the pairs of a one-to-one kernel; without vector cores nothing happens |
| `FlagRuns.Play` | csrc/core/framework/cross_core_sync_info_container.cpp:64-299 | in every run the j-th successful wait of a block yields the join of the j-th times its senders set, and a wait fails iff some sender has not set so often yet; the grants are exactly those promised |
| `FlagRuns.Container.Set` | csrc/core/framework/cross_core_sync_info_container.cpp:244-264 | a call leaves the array iff the id is 32 and the block exists, is ignored iff the id is larger or the block does not exist, and otherwise is one more set of that flag alone |
| `FlagRuns.Container.Get` | csrc/core/framework/cross_core_sync_info_container.cpp:288-299 | a call leaves the array iff the block exists and the id is 32 or more, and otherwise takes the next grant of that flag |
| `FlagTeams.Partners` | csrc/core/framework/cross_core_sync_info_container.cpp:148-163 | the partner formulas of one-to-one kernels are inverse to each other |
| `CrossCoreSync.Flag.Get` | csrc/core/framework/cross_core_sync_info_container.cpp:288-299 | grants are picked up in order, each joined into the caller's time, and false iff none is left |
| `FlagTeams.Fire` | csrc/core/framework/cross_core_sync_info_container.cpp:64-184 | the set that completes a team adds one grant that joins the oldest queued time of every member |
| `FlagTeams.NotYet` | csrc/core/framework/cross_core_sync_info_container.cpp:91-135 | while a member is missing a set only queues |
| `FlagTeams.AllFire` | csrc/core/framework/cross_core_sync_info_container.cpp:64-184 | firing one team serves its receivers and leaves every other block's grants as promised |
| `FlagTeams.PromiseIsExact` | csrc/core/framework/cross_core_sync_info_container.cpp:64-184 | the promise (k-th grant joins the k-th sets of all senders, as many as the slowest sender has sets) determines the grants |
| `FlagTeams.SendersAreTeams` | csrc/core/framework/cross_core_sync_info_container.cpp:37-184 | whoever waits for one member of a team waits for exactly that team |
| `FlagTeams.SendersExactly` | csrc/core/framework/cross_core_sync_info_container.cpp:64-184 | whose sets a block waits for in each mode, told by kind and group of the blocks alone |
| `FlagTeams.CoreCounts` | csrc/core/framework/cross_core_sync_info_container.cpp:47-62 | the two core counts are the numbers of cube and vector blocks |
| `FlagGather.CountSet` | csrc/core/framework/cross_core_sync_info_container.cpp:92-114 | the number of cores of the kind that have something queued |
| `FlagGather.FullByCount` | csrc/core/framework/cross_core_sync_info_container.cpp:92-114 | the count is the number the code waits for iff every core of the team has something queued, on both kinds of kernel |
| `FlagGather.CollectFronts` | csrc/core/framework/cross_core_sync_info_container.cpp:64-89 | the joined time is the join of all fronts and exactly the fronts are taken out |
| `IntraBlockSync.OneSender` | csrc/core/framework/cross_core_sync_info_container.cpp:187-242 | mode 4: each queue has exactly one sender, by the route back |
| `IntraBlockSync.RouteTable` | csrc/core/framework/cross_core_sync_info_container.cpp:216-240 | mode 4, block by block: which core and id a set goes to, and how ids are cut |
| `IntraBlockSync.SoloRoutes` | csrc/core/framework/cross_core_sync_info_container.cpp:201-215 | on one-to-one kernels the n-th cube core and the n-th vector core signal each other, ids unchanged |
| `IntraBlockSync.LostOnSolo` | csrc/core/framework/cross_core_sync_info_container.cpp:196-216 | on a one-to-one kernel no wait of a vector core reads what a cube core set at ids from 16 on |
| `IntraBlockSync.IntraFlags.Set` | csrc/core/framework/cross_core_sync_info_container.cpp:187-242 | one more set: every queue again holds what its one sender has set beyond the successful waits |
| `IntraBlockSync.IntraFlags.Get` | csrc/core/framework/cross_core_sync_info_container.cpp:301-316 | after every run the j-th successful wait yields the j-th time its one sender set, and a wait fails iff there is none left |
| `Barrier.EveryRun` | csrc/core/framework/barrier_database.hpp:26-60 | every sequence of calls keeps: nobody is released before rank workers arrived, and a finished round released each worker once with the join of all times |
| `Barrier.FreshBarrier` | csrc/core/framework/barrier_database.hpp:26-60 | the same for every run from a new barrier |
| `Barrier.OutsidersChangeNothing` | csrc/core/framework/barrier_database.hpp:44-47 | during release a call from a non-member changes nothing and returns false |
| `Barrier.BarrierEvent.Wait` | csrc/core/framework/barrier_database.hpp:26-60 | a call returns true iff, counting it, at least rank distinct workers have arrived in the round and the caller is one of them not yet released, and then hands out the join of the round's times; the round is over and the barrier as new iff everybody has been released |
| `Barrier.CallsObey` | csrc/core/framework/barrier_database.hpp:26-60 | the same law for every step of the history |
| `BarrierRounds.Gathering` | csrc/core/framework/barrier_database.hpp:26-60 | while fewer than rank different workers have called, all calls fail and exactly the callers have arrived |
| `BarrierRounds.Dispersing` | csrc/core/framework/barrier_database.hpp:26-60 | once enough have come, each of them succeeds with one more call, in any order, and then the round is on record and the barrier as new |
| `BarrierRounds.WholeRound` | csrc/core/framework/barrier_database.hpp:26-60 | a whole round from start to finish as its callers see it, from any reachable state between rounds |
| `SyncThreads.Update` | csrc/plugin/online_check.h:414-430 | the table counts one hit more, a hit is lost iff the pc is new and the table full, and pc zero spoils the first unused entry |
| `SyncThreads.ZeroHitSpoils` | csrc/plugin/online_check.h:414-430 | after a hit at pc zero the table counts no sequence of hits |
| `SyncThreads.AlignThread` | csrc/plugin/online_check.h:452-491 | a thread's numbers end in the common order with the hits of each pc up to where the list was full, and the temporary counts end zero |
| `SyncThreads.SortInPlace` | csrc/plugin/online_check.h:432-493 | all threads end aligned to one list of distinct pcs, each of them hit by some thread, loss or not |
| `SyncThreads.LossExactly` | csrc/plugin/online_check.h:432-493 | the sort reports a loss iff there are more than 64 distinct pcs in total |
| `SyncThreads.ListedExactly` | csrc/plugin/online_check.h:440-483 | the common list is the first 64 pcs in the order of the threads and of their first hits |
| `SyncThreads.LossAccuses` | csrc/plugin/online_check.h:467-480 | when the first pc a thread met is not listed, it is reported wherever another thread's hits count, whatever its own |
| `SyncThreads.GetMax` | csrc/plugin/online_check.h:495-510 | each entry is the largest number of any thread |
| `SyncThreads.ReportShort` | csrc/plugin/online_check.h:365-384 | the reports are the short entries row by row, and every counter of every thread ends zero |
| `SyncThreads.RowsExact` | csrc/plugin/online_check.h:365-384 | the rows name every thread that falls short at a pc, once, and nobody else |
| `SyncThreads.ThreadBlock.Hit` | csrc/plugin/online_check.h:334-339 | a hit at a pc other than zero is recorded iff the pc is known or fewer than 64 were met; a lost one means more than 64 distinct pcs; pc zero spoils one entry |
| `SyncThreads.ThreadBlock.End` | csrc/plugin/online_check.h:341-386 | a thread is reported at a pc, once, iff the pc is listed and some other thread is ahead as far as hits count; without loss iff some other thread hit it more often; all counters end reset |
| `StridedRecords.Convert` | csrc/address_sanitizer/address_sanitizer.cpp:218-233 | exactly which bytes are recorded, for every kind of event, as blocks at given places; only bytes of the nested loop iff one caller-checkable condition holds, and all of them iff another does |
| `StridedRecords.ConvertSingle` | csrc/address_sanitizer/address_sanitizer.cpp:143-173 | the same for repeats without gaps |
| `StridedRecords.ConvertMulti` | csrc/address_sanitizer/address_sanitizer.cpp:175-214 | the same for blocks at least two apart, through its five branches: block 0 for stride 0, the first cells when dense, the larger count of blocks for equal strides, the first 0x7FFF repeats when cut |
| `StridedRecords.CellsSuffice` | csrc/address_sanitizer/address_sanitizer.cpp:143-214 | coverage of bytes is coverage of block-sized cells |
| `StridedRecords.GaplessRepeats` | csrc/address_sanitizer/address_sanitizer.cpp:154-160 | repeats no further apart than they are wide make up exactly one span |
| `StridedRecords.Diagonal` | csrc/address_sanitizer/address_sanitizer.cpp:194-200 | with equal strides everything recorded is touched, and all of it iff one of the two counts is one |
| `StridedRecords.NestedLoop` | csrc/address_sanitizer/address_sanitizer.cpp:201-213 | the general branch is exact iff the repeats are not cut at 0x7FFF |
| `StridedRecords.MissedBlock` | csrc/address_sanitizer/address_sanitizer.cpp:178-183 | an event whose second block is touched and not recorded |
| `RecordMerge.MergeKeepsTrace` | csrc/address_sanitizer/address_sanitizer.cpp:79-92 | of any list merging keeps the trace of touched bytes, sources of copies and address wrap-around included, iff no chain of mergeable neighbours in the raw list reaches 2^64 bytes |
| `RecordMerge.MergedFromHeads` | csrc/address_sanitizer/address_sanitizer.cpp:269-284 | there is one merged record for each chain of raw neighbours that continue each other, and except for its size it is the chain's first record |
| `RecordMerge.MergeableByBytes` | csrc/address_sanitizer/address_sanitizer.cpp:79-91 | two records are merged iff one record can touch the bytes of both, in the same order |
| `RecordMerge.LastEnd` | csrc/address_sanitizer/address_sanitizer.cpp:79-92 | the last merged record ends where the last raw one does, so whether a record is merged can be told from the raw list |
| `RecordMerge.MergeLosesBytes` | csrc/address_sanitizer/address_sanitizer.cpp:269-284 | two adjoining loads of 2^63 bytes that merge into an empty one |
| `RecordMerge.SmallSizesFit` | csrc/address_sanitizer/address_sanitizer.cpp:269-284 | no size wraps around when all sizes together stay below 2^64 |
| `RecordMerge.MergeIsNormal` | csrc/address_sanitizer/address_sanitizer.cpp:269-284 | no two neighbours of a merged list can be merged |
| `RecordMerge.MergeIsIdempotent` | csrc/address_sanitizer/address_sanitizer.cpp:269-284 | merging twice is merging once, and exactly the lists without mergeable neighbours are left alone |
| `RecordMerge.StreamingIsBatch` | csrc/address_sanitizer/address_sanitizer.cpp:93-106 | sinking records one by one behind a merged prefix is merging the whole list |
| `RecordMerge.MergeRecords` | csrc/address_sanitizer/address_sanitizer.cpp:269-284 | the two-index loop in place leaves exactly the merged list in the prefix it returns |
| `RecordMerge.MemRecordSink.EmplaceBack` | csrc/address_sanitizer/address_sanitizer.cpp:93-106 | the new record is sunk behind the old ones: the trace grows by its bytes unless a size wraps around, and no mergeable neighbours appear |
| `RecordMerge.AppendConverted` | csrc/address_sanitizer/address_sanitizer.cpp:587-603 | streaming and batch branch give the same list, the merge of the prefix and the converted records |
| `FlagMatching.IdsTellApart` | csrc/sync_sanitizer/sync_sanitizer.cpp:443-461 | ids are equal exactly up to the masks, exactly for equal channels when fields are in range, and a set id is never a wait id |
| `FlagMatching.LowBits` | csrc/sync_sanitizer/sync_sanitizer.cpp:364-377 | the low four bits tell a set id from a wait id |
| `FlagMatching.StepKeepsInv` | csrc/sync_sanitizer/sync_sanitizer.cpp:155-188 | every event keeps, for every channel: sets and waits are never both pending, what is pending is the difference, and the pending sets are those at the unmatched places, in order |
| `FlagMatching.Run` | csrc/sync_sanitizer/sync_sanitizer.cpp:155-188 | the same after every sequence of events |
| `FlagMatching.PlacesExactly` | csrc/sync_sanitizer/sync_sanitizer.cpp:155-188 | a set stays pending iff it found no wait left over and the balance of its channel never comes back to what it was before it |
| `FlagMatching.Matcher.DoMatchCheck` | csrc/sync_sanitizer/sync_sanitizer.cpp:155-188 | one more event: the latest pending counterpart is cancelled or the event becomes pending, and every channel stays balanced against the history |
| `FlagMatching.Matcher.ReportUnpaired` | csrc/sync_sanitizer/sync_sanitizer.cpp:364-377 | the report holds each unmatched set of the history once and nothing else; per channel that is max(0, sets - waits) of them |

## Left out

- ShadowMemory.ShadowMemory.StoreNBytes: models global memory only, not the on-chip address spaces.
- SyncThreads.Update: counters do not wrap at 32 bits.
- SyncThreads.ThreadBlock.End: only the first thread may have hit pcs of 2^32 or more, because alignment cuts those of the others to 32 bits.
- StridedRecords.Convert: the 32-bit products that the event's branch computes do not wrap, and addresses are not reduced modulo 2^64; every record of a safe event lies inside the event.
- StoreRuns.RunStores: cores are the host or ids below 63; StoreRuns.WideCore says what larger ids do.
- FlagMatching.Matcher.ReportUnpaired: the order of the report, which follows the ids, and its formatting.
- CrossCoreSync.Flag.SetMode0: MIX kernels only, with a flag id used in one mode; on a one-to-one kernel a vector core that sets has a cube core of its own.
- CrossCoreSync.Flag.SetMode2: on a one-to-one kernel a vector core that sets has a cube core to pair with; otherwise the code indexes past the blocks.
- The soft flags, `SyncAll`/`SemCores` and the warnings about ids that mode 4 cuts.
- HeapActions.Runtime.DoStore: the host's own peer lookup is a parameter, and all checks are on.
- RaceAutomaton.EveryReportIsARace: a byte belongs to one address space, and the pass of a barrier over the status words is one step.
- Copying status words out to the record buffer, beyond the snapshot that the initialisation automaton keeps.
- `ClearBlockId`, unused-memory checks and the MSTX, DFX and BYPASS block sources.
- DeviceTable.DeviceAgreesWithHost: permissions that differ between rows: sorting moves address and size but not the permission, so only uniform tables can be compared with the host.
- Words are read in little-endian byte order.
- Parsing of records, IPC, process launch, hooks, call stacks, logging, error texts and the command line.
- Register and alignment checks, which are single comparisons.

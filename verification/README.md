# Free lists, their workloads and interleaved probes, verified

A Dafny 4.11 model of this repository's page free lists and of the programs around
them. `dafny verify dfyconfig.toml` checks everything.

Four programs are modelled, each in the form the source gives it: node fields in
fixed arrays that methods update in place, loops with invariants, and beside every
method a function on values that says what the new memory is. What the programs
promise is then proved about those functions, for all inputs and all runs.

- **Access-point list** (`apl.c`, macros in `common.c`). Blocks are nodes `0..nb`,
  access point `i` is node `nb + i`, the head is the last node; the number of access
  points is the parameter `n`. `Ring` has the pointer macros, `AplModel` the
  operations on memory and their meaning as segments, `AplElsewhere` what they leave
  alone, `AplOrder` the stack hidden in the segments, `AplHeap` facts over runs,
  `AplInit` and `Startup` start-up, `CountCheck` the balance check, `Apl` the program,
  `MissedAlarm` a run of it. `Ll` is the plain list of `ll.c`; `Requests` and `Traces`
  compare whole request files.
- **AMAC batches** (the interleaved allocator compiled into `apl.c` when AMAC is
  set): `AmacModel`, `Amac`.
- **Workloads** (`allocation_map_generator.py`, `requests_generator.py`): every call
  to the random generator is an arbitrary choice. `Permutations`, `AllocationMap`,
  `RequestsGenerator`, `Replay`.
- **Interleaved hash probes** (`coro/coro.c`, `coro/coro_simplified.c`):
  `HashTable`, `Coroutines`, `SimplifiedTasks`; and the **memory map sweep**
  (`kernel_code/mm_init.c`): `MemmapInit`, `MemmapCoverage`, `MemmapLinks`.

Main results:

1. Every operation keeps one well-formed ring, correct tags and counters, and
   segments of which those from `pos` on are one block longer. No valid run ever
   unlinks a sentinel.
2. The list is a stack in disguise: on every trace of allocations and frees it hands
   out the same blocks as the plain list. A delete by reference removes exactly its
   block; its effect on the order is given exactly, and with it when the two lists
   still agree afterwards.
3. `k` deletes undone by inserts in opposite order restore every field of memory.
4. The AMAC loop deletes what the plain loop deletes, in exactly `2n + R` visits, and
   its cached blocks are the right ones exactly when it runs in step with the cursor:
   then at every visit, otherwise at none.
5. Generated targeted traces are legal for the list, and the free sets agree after
   them. Batch traces without frees are legal; with frees, all traces of a run are
   legal exactly when a condition on the four numbers of the run holds
   (`Replay.BatchLegalIff`). In either mode the generator can end exactly when its two
   targets are within reach (`RequestsGenerator.FinishIff`).
6. The coroutine scheduler ends and counts what sequential search counts, whatever
   the interleaving; the simplified loop ends exactly when the key -1 is not in the
   input.
7. The memory map sweep initialises every page exactly once, in a known order, and
   links it to the zone and node of its range, or in a hole of the next memory above.

Expectations that the code does not meet in general are kept as they are in the code,
with an input that shows it and the exact condition: start-up when the number of free
blocks is not a multiple of `n` (`AplInit.DrainsCompletely`), the balance check of
`apl_count_nodes` (`CountCheck.MissedImbalance`, `MissedAlarm.MissAlarm`), the order
after a delete by reference (`Traces.DeleteAgrees`), AMAC caches after frees and
deletes (`AmacModel.InStepIff`), the refill of a worker that is not used again
(`AmacModel.ComesBack`), batch traces with frees (`Replay.BatchLegalIff`), targets the
generator never meets (`RequestsGenerator.FinishIff`), the last hole of a flat memory
map (`MemmapCoverage.FlatmemNop`), surplus coroutines (`Coroutines.OwnTableOps`) and
the key -1 (`SimplifiedTasks.PoisonNeverEnds`).

Where comments and code disagree the model follows the code: streaks have 1 to 50
blocks (the comment in `allocation_map_generator.py` says 10 to 100); the AMAC batch
also refills a worker when exactly as many deletes as workers are left, although it
does not come back to it (the comment in `apl.c` says it does); the last hole of the
memory map goes to the highest populated zone of the last node that has one, even
when no memory range reaches that zone; and without CONFIG_SPARSEMEM the last call
of the sweep is not always empty (the comment in `mm_init.c` says it is).

## Model

| member | source | states |
|---|---|---|
| Ring.DeleteNode | common.c:91-94 | the two stores of the macro, in order, on any hooked node |
| Ring.InsertNodeAfter | common.c:97-102 | the four stores of the macro |
| Ring.InsertNodeBefore | common.c:105-110 | the four stores of the macro |
| Ring.ReplaceNode | apl.c:230-239 | the splices that give one node the neighbours of another |
| Ring.UnlinkDrops | common.c:91-94 | deleting any node but the first leaves one ring without exactly that node |
| Ring.InsertAfterAdds | common.c:97-102 | inserting a node from outside gives one ring with it directly behind the chosen node |
| Ring.InsertBeforeIsAfter | common.c:105-110 | inserting before a node's successor is inserting after the node, field by field |
| Ring.ReplaceSwaps | apl.c:227-239 | the splices put a dangling node exactly where the other one was |
| Ring.UnlinkThenInsert | common.c:91-110 | deleting a node and inserting it in the same place restores every link field of memory |
| Ring.WalkVisits | apl.c:343-357 | a walk along next meets the ring's nodes in order, each once, and returns after one round |
| Startup.LinkRows | apl.c:323-339 | linking any map, with or without repetitions, numbers each block by its last row; without repetitions it makes one ring in file order |
| Startup.CheckRows | apl.c:343-357 | the start-up check ends and succeeds exactly when the map names no block twice |
| AplModel.OfferedIsTop | apl.c:160-164 | the active access point offers the first block of the active segment |
| AplModel.OfferedIsBlock | apl.c:160-164 | what it offers is a block exactly when the active segment is not empty, else a sentinel |
| AplModel.DeleteSingleRefines | apl.c:160-177 | in memory a single delete pops the active segment and advances the cursor, keeping ring, tags and counters |
| AplModel.InsertSingleRefines | apl.c:179-189 | in memory a single insert pushes onto the segment before the cursor and tags the block with it |
| AplModel.DeleteInsideRefines | apl.c:205-213 | a delete by reference in the active segment removes that block from it |
| AplModel.DeleteOutsideRefines | apl.c:214-253 | elsewhere the top block takes the place and the tag of the deleted one; ring, tags and counters stay right |
| AplElsewhere.DeleteSingleElsewhere | apl.c:160-177 | a single delete leaves the block its stale link fields and changes no other node outside the ring |
| AplElsewhere.InsertSingleElsewhere | apl.c:179-189 | a single insert changes no link field outside the ring |
| AplElsewhere.DeleteInsideElsewhere | apl.c:209-213 | a delete by reference in the active segment leaves the block its stale fields, and no other node outside the ring changes |
| AplElsewhere.DeleteOutsideElsewhere | apl.c:214-253 | elsewhere the block gets NULL in both link fields, and no other node outside the ring changes |
| AplOrder.SizeIsTotal | apl.c:364-381 | a balanced list holds n * c - pos blocks, and its active segment is empty only when the whole list is |
| AplOrder.StackSlot | apl.c:82-90 | position k of the stack is block k div n of segment (pos + k) mod n |
| AplOrder.StackIndexInverse | apl.c:82-90 | every block of every segment has exactly that position in the stack |
| AplOrder.PopIsTail | apl.c:160-177 | a single delete keeps the balance and pops the stack |
| AplOrder.PushIsCons | apl.c:179-189 | a single insert keeps the balance and pushes the stack |
| AplOrder.DropOutside | apl.c:214-253 | outside the active segment a delete by reference exchanges the block with the top and pops |
| AplOrder.DropInside | apl.c:209-213 | inside it the segment's blocks above sink by one row and all others keep their order |
| AplHeap.LinkedIsGood | apl.c:160-253 | a balanced list in memory holds no block twice |
| AplHeap.OfferIffFree | apl.c:160-164 | the active access point offers a block exactly when some block is free |
| AplHeap.WalkFromHead | apl.c:120-157 | a walk from the head meets the sentinels in order with their blocks, and exactly the free blocks |
| AplHeap.DeleteThenInsert | apl.c:160-189 | a single delete followed by inserting that block restores memory |
| AplHeap.RoundTrip | apl.c:160-189 | k single deletes followed by inserts in opposite order restore links, tags, counters and cursor exactly |
| AplInit.CutKeepsFileOrder | apl.c:364-381 | the segments of start-up, one after the other, are the file |
| AplInit.InitialBalance | apl.c:364-381 | start-up is balanced exactly when the free count is a multiple of the number of access points |
| AplInit.InitialOrder | apl.c:364-381 | the order in which a freshly started list hands out the file |
| AplInit.InitialGood | apl.c:323-381 | from a map without repetitions, of any length, the segments hold exactly its blocks, each once and in file order; with full rounds the list is good and these are its free blocks |
| AplInit.RemainderStrands | apl.c:364-381 | otherwise, after all full rounds the left-over blocks sit in the last segment and the active one is empty |
| AplInit.RemainderOffersSentinel | apl.c:160-164 | in that state blocks are free and the next single delete would be offered a sentinel |
| AplInit.DrainsCompletely | apl.c:365-381 | all free blocks can be allocated one by one exactly when their number is a multiple of the number of access points |
| Apl.FreeList.constructor | apl.c:295-321 | fresh memory: arbitrary fields, zero counters, cursor 0 |
| Apl.FreeList.Load | apl.c:323-381 | start-up refuses exactly the maps with repetitions and otherwise builds the ring of the initial segments with their counters, tags and values, access points included, for any remainder; fully valid when no block is left over |
| Apl.FreeList.DeleteSingle | apl.c:160-177 | the memory after the call, the block unlinked, the stack popped; the block keeps its stale fields and no other node outside the ring changes |
| Apl.FreeList.InsertSingle | apl.c:179-189 | the memory after the call, the stack pushed; nothing outside the ring and no other tag changes |
| Apl.FreeList.DeleteByReference | apl.c:193-253 | the memory after the call; the free set loses exactly the named block, everything stays valid; both link fields of the block are NULL outside the active segment and unchanged inside it; no other field outside the ring and no tag but that of the moved block changes |
| Apl.FreeList.CountNodes | apl.c:120-157 | the walk ends, counts every segment exactly, decides as the running scan does, and never reports a balanced list of up to 0x7fffffff blocks |
| Apl.FreeList.AllocBatch | apl.c:525-533 | an allocation of any count, negative ones included, takes that many tops in order |
| Apl.FreeList.Serve | apl.c:436-560 | a whole request file: final list, blocks handed out, and n_requests as their number plus the numbers of f and d lines |
| CountCheck.ReportExact | apl.c:122-155 | for all lengths that fit a 32-bit int the check reports exactly when a segment lags that did not raise the running maximum |
| CountCheck.MissedImbalance | apl.c:138-155 | it misses a real imbalance exactly when the lagging segments are an initial stretch of strictly rising lengths |
| CountCheck.MissedExample | apl.c:138-155 | lengths 0 and 2: imbalanced, not reported |
| MissedAlarm.MissAlarm | apl.c:120-189 | for any number of access points above one a run of start-up, inserts and a count ends imbalanced and not reported |
| Apl.BalancedNotReported | apl.c:150-156 | no balanced list is ever reported |
| Ll.PlainList.Load | ll.c:139-173 | start-up refuses exactly the maps with repetitions and otherwise holds the file in order, each block numbered by its row |
| Ll.PlainList.DeleteAfterHead | ll.c:50-66 | takes the first block, leaves it its stale fields and changes no other block outside the list |
| Ll.PlainList.InsertAfterHead | ll.c:68-71 | puts a block first and changes no block outside the list |
| Ll.PlainList.DeleteByReference | ll.c:73-76 | removes exactly the named block, keeping the order of the others and every field outside the list |
| Ll.PlainList.Serve | ll.c:215-249 | a whole request file: final list, blocks handed out, and n_requests as their number plus the numbers of f and d lines |
| Requests.OperationsCounted | apl.c:515-560 | a trace counts one operation for every block allocated and for every line that frees or deletes |
| Traces.Run | apl.c:436-560 | every valid mix of requests, of any length, ends in a balanced list without repetitions |
| Traces.PopMany | apl.c:525-533 | k single deletes leave the stack without its first k blocks |
| Traces.Remove | apl.c:193-253 | a delete by reference keeps the list good and takes exactly its block from the free set |
| Traces.DropRemoves | apl.c:193-253 | the stack after a delete by reference has the other blocks, each once |
| Traces.DeleteAgrees | apl.c:193-253 | it leaves the order the plain list would have exactly when there is one access point or the block is one of the next two to go |
| Traces.Lockstep | apl.c:436-549 | on allocations and frees the access-point list and a plain list started from its stack accept the same traces, hand out the same blocks and end alike |
| Traces.TargetedRun | apl.c:539-559 | on traces that name their blocks the list accepts exactly the legal ones and ends with the free set they describe |
| Traces.LlTargetedRun | ll.c:238-248 | the same for the plain list |
| Amac.Workers.AllocBatch | apl.c:448-521 | an interleaved batch deletes what the plain loop deletes in 2n + count visits with the stages 0, 1, 2 by lap; the cached block is the unlinked one at every delete when in step, and at none when not |
| Amac.Workers.DeleteAsWorker | apl.c:483-513 | one delete of a worker: it caches what its access point then offers and stays, or goes to the exit stage |
| Amac.Workers.Serve | apl.c:436-560 | a whole request file with AMAC gives the same list, blocks and n_requests as without, the latter counted in the same way |
| AmacModel.FrontsDiffer | apl.c:471-495 | two access points never offer the same node |
| AmacModel.OwnedIsNotTop | apl.c:471-495 | whatever a worker cached earlier in a batch, at another access point than the cursor's it is not the block unlinked now |
| AmacModel.StageAtVisit | apl.c:454-484 | in every visit the worker is in the stage of its lap, never in the exit stage |
| AmacModel.VisitStart | apl.c:457-459 | a first-lap visit keeps everything known of a batch |
| AmacModel.VisitCache | apl.c:469-472 | a second-lap visit caches what the worker's access point offers |
| AmacModel.VisitDelete | apl.c:483-513 | a later visit deletes one block, and keeps, refills or retires the worker so that all later visits still find their stage and block |
| AmacModel.ComesBack | apl.c:489-509 | the batch visits a deleting worker again exactly when more deletes than workers were left, while the worker is kept and refilled also when exactly as many were |
| AmacModel.BatchEnd | apl.c:452-521 | a finished batch took 2n + count visits and ends at a worker that depends on the count alone |
| AmacModel.DriftRun | apl.c:436-560 | over any run the workers' lead over the cursor changes by frees minus deletes |
| AmacModel.InStepIff | apl.c:74-90 | from start-up on they are in step exactly when the numbers of f and d lines differ by a multiple of n |
| AllocationMap.GenerateStreakSizes | allocation_map_generator.py:20-29 | sizes from 1 to 50 that sum to the total, each one drawn or cut down to what is left |
| AllocationMap.AnySizes | allocation_map_generator.py:20-29 | all sizes from 1 to 50 that sum to the total may be drawn |
| AllocationMap.SliceStreaks | allocation_map_generator.py:43-51 | consecutive streaks of these sizes that make up the whole range |
| AllocationMap.Shuffle | allocation_map_generator.py:54 | the swaps that were drawn, from the last place down; whatever is drawn, the same streaks and the same blocks |
| AllocationMap.AnyOrder | allocation_map_generator.py:54 | every order of the streaks can be drawn |
| AllocationMap.StreakRows | allocation_map_generator.py:37-60 | a permutation of 0..nFree made of runs of at most 50 consecutive blocks |
| AllocationMap.ShuffleRows | allocation_map_generator.py:63-70 | nFree different blocks below nBlocks |
| AllocationMap.SequentialRows | allocation_map_generator.py:73-76 | the range 0..nFree in order |
| RequestsGenerator.MoveKeeps | requests_generator.py:65-73 | a swap-remove with an append keeps the two lists a partition of all blocks |
| RequestsGenerator.Generator.constructor | requests_generator.py:9-31 | after reading a map the two lists partition all blocks, the free one in file order and the other ascending |
| RequestsGenerator.Generator.TakeAt | requests_generator.py:78-89 | the stores of one allocation: both lists afterwards |
| RequestsGenerator.Generator.GiveAt | requests_generator.py:95-104 | the stores of one free: both lists afterwards |
| RequestsGenerator.AnyPicks | requests_generator.py:64-73 | whatever set of blocks a batch allocation is to leave free, there are draws that leave exactly it |
| RequestsGenerator.MayWriteCounts | requests_generator.py:51-106 | over any run allocated minus freed blocks changes by the loss of free blocks; both counters only grow and the free counter stops at its target |
| RequestsGenerator.AllocsStop | requests_generator.py:51-75 | no allocation starts once its target is met, so only the last one may exceed it |
| RequestsGenerator.AllocSizes | requests_generator.py:53-60 | no written allocation asks for more than 2016 blocks |
| RequestsGenerator.AnyAllocSize | requests_generator.py:53-60 | any number up to 2016, with that many blocks free, may be asked for |
| RequestsGenerator.NeverDone | requests_generator.py:51-106 | targets out of reach are never met, whatever is drawn |
| RequestsGenerator.FinishIff | requests_generator.py:51-106 | in either mode, from any state, some run ends with both targets met exactly when the numbers of free blocks, blocks, allocations to go and frees to go allow it |
| RequestsGenerator.WhatWasWritten | requests_generator.py:51-106 | after any run: the counters, legality and free set of a targeted trace, and what a batch trace without frees asks for |
| RequestsGenerator.Generator.Iterate | requests_generator.py:51-106 | which kind of request one pass writes, if any, and how it changes the free blocks and both counters |
| RequestsGenerator.Generator.Generate | requests_generator.py:51-106 | any number of passes: the trace is one the relation above allows, the counters move with the free list, stopping early means both targets are met, targets out of reach mean never stopping; targeted traces are legal and describe the free set |
| Traces.TraceAppend | apl.c:436-560 | a valid run goes on with exactly the requests that its last state accepts |
| Replay.BatchReplay | requests_generator.py:55-75 | a batch trace without frees never takes from an empty list |
| Replay.TargetedReplay | requests_generator.py:77-106 | a targeted trace is legal for the list started from the same map, and both agree on the free blocks |
| Replay.BatchLegal | requests_generator.py:51-106 | with no allocations, no frees, or never two free blocks while a free is to come, every batch trace is legal and the list keeps as many free blocks as the generator |
| Replay.BatchIllegal | requests_generator.py:51-106 | otherwise some batch trace is not: the generator takes a block that the list keeps, and frees it |
| Replay.BatchLegalIff | requests_generator.py:51-106 | all batch traces from a map of full rounds are legal for the list started from it exactly when nAlloc <= 0, nFree <= 0 or min(free + nFree - 1, blocks) < 2 |
| Replay.BatchFreeExample | requests_generator.py:64-97 | the trace "a 1, f 1", which the generator may write from two free blocks and the list must not serve |
| HashTable.BuildHashTable | coro/coro.c:34-52 | a C int is in bucket b exactly when it was inserted and b is its remainder, taken after adding 2 to the power of 64 when it is negative; each bucket holds its keys as often as they occur, the latest first |
| HashTable.BucketOf | coro/coro.c:43-43 | the bucket of a C int as a remainder |
| HashTable.SearchStops | coro/coro.c:133-146 | a search steps past the nodes in front of the first one with the key, or past all |
| HashTable.NaiveSearch | coro/coro.c:133-146 | sequential search decides membership, for signed keys too |
| HashTable.NaiveOps | coro/coro.c:233-240 | the naive loop counts the keys that are found |
| Coroutines.VisitConserves | coro/coro.c:192-218 | a visit to a live coroutine does one unit of the work left and keeps counted plus coming operations; other visits change nothing |
| Coroutines.AnyInterleaving | coro/coro.c:70-104 | in whatever order the coroutines are visited, when all are destroyed the count is that of sequential search over the assigned keys, and the live visits are the nodes stepped past plus three per key |
| Coroutines.Coroutine | coro/coro.c:70-104 | one resumption of a probe |
| Coroutines.RunCoroutines | coro/coro.c:179-219 | the scheduler ends, with that count, after one live turn per chain node stepped past plus three per key; all its contexts are then destroyed and no other one has changed |
| Coroutines.SameAsNaive | coro/coro.c:232-240 | with no more coroutines than keys the count is that of the naive loop, for any table |
| Coroutines.OwnTableOps | coro/coro.c:168-240 | on the table built from the keys the counts agree exactly when there are no more coroutines than keys |
| Coroutines.SurplusOps | coro/coro.c:168-240 | for any table, more coroutines than keys count whole rounds of the key list and the keys of the last, partial round once more |
| SimplifiedTasks.VisitSafe | coro/coro_simplified.c:151-176 | an active task never reads through a null pointer |
| SimplifiedTasks.VisitConserves | coro/coro_simplified.c:151-176 | a visit to an active task does one unit of work, keeps counted plus coming hits, and never frees a stuck task |
| SimplifiedTasks.PoisonNeverEnds | coro/coro_simplified.c:144-177 | with the key -1 in the input the loop never ends, in whatever order the tasks are visited |
| SimplifiedTasks.RunTasks | coro/coro_simplified.c:133-177 | without it the loop ends, counts the larger of the numbers of tasks and keys, takes one turn per node stepped past plus one per key, and leaves every task marked with -1 |
| MemmapInit.SkipUnmapped | kernel_code/mm_init.c:59-63 | skipping to the end of an unmapped pageblock skips no page to initialise |
| MemmapInit.MemoryMap.InitUnavailableRange | kernel_code/mm_init.c:50-72 | initialises and reserves exactly the filter of the range by mapped pageblocks, in order, and counts it |
| MemmapInit.MemoryMap.InitRange | kernel_code/mm_init.c:83-146 | initialises every page of the range in order, none for size 0, and raises highest_memmap_pfn to the page number before its end, which wraps around when the end is 0 |
| MemmapInit.MemoryMap.InitZoneRange | kernel_code/mm_init.c:148-170 | writes the clamped piece and the hole in front of it and moves hole_pfn to its end; nothing for an empty piece |
| MemmapInit.MemoryMap.Run | kernel_code/mm_init.c:172-209 | writes the sweep over all pieces and the last hole, and raises highest_memmap_pfn piece by piece |
| MemmapCoverage.AscendingBounds | kernel_code/mm_init.c:166-169 | over ascending pieces hole_pfn never decreases and stays above everything initialised |
| MemmapCoverage.PiecesAscend | kernel_code/mm_init.c:157-161 | for ascending ranges and zones the clamped pieces ascend without overlap |
| MemmapCoverage.SweepCovers | kernel_code/mm_init.c:172-209 | every page below the end is initialised once if it is memory or its pageblock is mapped, and no other page is |
| MemmapCoverage.SweepAssigns | kernel_code/mm_init.c:36-48 | memory pages stay unreserved and hole pages are reserved; each is linked to its own piece, the next one above, or behind the last one to the last zone |
| MemmapCoverage.FlatmemNop | kernel_code/mm_init.c:195-208 | without CONFIG_SPARSEMEM the last call writes nothing exactly when no mapped page lies between hole_pfn and the end of the last range |
| MemmapCoverage.FlatmemExample | kernel_code/mm_init.c:195-208 | a range that ends above its zone makes it reserve a page |
| MemmapLinks.EveryPageOnce | kernel_code/mm_init.c:172-209 | the same with the end written out (the least multiple of the section size not below the last range with CONFIG_SPARSEMEM) and the first page of the pageblock deciding |
| MemmapLinks.MemoryLinked | kernel_code/mm_init.c:148-165 | a page of a range in populated zone j of the range's node is linked to zone j and that node, and not reserved |
| MemmapLinks.HoleLinked | kernel_code/mm_init.c:166-169 | a page of a hole is linked to the zone and node of the nearest memory page above it, and reserved |
| MemmapLinks.TailLinked | kernel_code/mm_init.c:195-208 | a page above all memory is linked to the last zone and the last range's node, and reserved |
| MemmapLinks.LastZoneIs | kernel_code/mm_init.c:174-190 | that zone is the highest populated one of the last node in range order that has one, or 0 |
| MemmapLinks.RoundUpLeast | kernel_code/mm_init.c:205-205 | rounding up gives the least multiple of the section size that is not below |
| MemmapLinks.FlatmemNopIff | kernel_code/mm_init.c:195-208 | for ordered memory, without CONFIG_SPARSEMEM the last call writes nothing exactly when no mapped page below the end has all memory below it |
| MemmapLinks.HighestIsMemory | kernel_code/mm_init.c:91-91 | highest_memmap_pfn ends as the higher of its old value and the highest memory page |
| MemmapLinks.SweepOrder | kernel_code/mm_init.c:148-209 | pages are initialised in ascending order, except that a hole below memory comes after memory above it |

## Left out

- File parsing, printing, timing, perf and VTune control, prefetching, pipeline flushing, cache overwriting and `int_hash`: no effect on the lists.
- `apl_display_list`, and the reporting after the request loops: they only print.
- Integer widths: counters such as `n_requests` and `total_ops`, indices and page frame numbers are unbounded; only the constants of `apl_count_nodes` and the conversion of keys to `size_t` are modelled by width.
- Memory safety of inputs outside the files' format: a map row outside `0..nb`, a wrong header or a block number outside the array is undefined in the source and a precondition here.
- Chain nodes and tables of the hash probes are values: they never change once built, so no aliasing is lost. `free_hash_table` is not part of this model.
- AplInit.InitialBalance: with a remainder the last blocks keep arbitrary tags and are missing from the counters, so the operations are proved only up to where they get stuck (`AplInit.RemainderStrands`).
- RequestsGenerator.Generator.Generate: the number of passes is bounded by a parameter, because the original loop need not end: `RequestsGenerator.FinishIff` says when it can, and then it still depends on the draws.
- Replay.BatchLegalIff: stated for maps whose length is a multiple of the number of access points; from other maps the list cannot be drained at all (`AplInit.DrainsCompletely`).
- MemmapInit.MemoryMap.InitRange: deferred initialisation, mirrored memory, ZONE_DEVICE and `set_pageblock_migratetype` are not modelled.
- MemmapCoverage.SweepCovers: needs ranges and the populated zones of each node in ascending order without overlap, as memblock delivers them.
- `kernel_code/page_alloc.c`, `kernel_code/mm_types.h`, `old/`, `test_runner.py` and the data files are not part of this model.

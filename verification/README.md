# Verified models of the operating-systems exercises

Dafny models of the three exercises of this repository that keep state under stress, with proofs of
what each is for. `dafny verify dfyconfig.toml` checks the whole project.

**Ex04, paged virtual memory.** `VMread` and `VMwrite` present a flat memory on top of a few frames, a
page-table tree stored in those same frames, and a swap file. The class `VirtualMemory` works on RAM and
swap in place, as the source does; a ghost map records the frame at each path from the root, and is shown
to say nothing that RAM does not (`PageFault.ResidentIffWalkable`). The abstraction is the map from touched
pages to contents, whether resident or swapped; every fault keeps it. The widths of `MemoryConstants.h`
are symbolic: any page size 2^O, any depth D >= 1, any number of frames; the shipped header is one instance.
The flat memory is proved for more frames than levels, and that this is needed is proved too. Contents of a page before its first touch are unspecified, as in `PMrestore`; they are fixed
from the first touch on.

| file | content |
|---|---|
| `MemoryConstants.dfy`, `Arithmetic.dfy`, `Bits.dfy` | widths and derived constants; shifts, masks and ors as quotients, remainders and sums |
| `Addressing.dfy` | the pure functions of `VirtualMemory.cpp`; paths and page numbers |
| `PageTable.dfy`, `FrameUse.dfy` | the tree invariant; which frames it uses, reclamation, the eviction argument |
| `FrameSearch.dfy` | what `search_frame` has to find |
| `FlatView.dfy`, `PageFault.dfy` | the flat view; one fault as a whole |
| `PageWalk.dfy` | a call as its faults; what `find_frame` decides |
| `PhysicalMemory.dfy`, `VirtualMemory.dfy` | the classes |
| `MemoryRuns.dfy` | whole runs against a flat memory |
| `TooFewFrames.dfy` | as many levels as frames or more |

**Ex03, the MapReduce job.** A transition system over any number of threads with one step per atomic
operation, section under a mutex, emitted element, barrier entry and barrier exit (`MapReduceJob.dfy`; that
it ends, in `JobTermination.dfy`), put together from the claiming loop shared by map and reduce
(`WorkQueue.dfy`), the counting barrier (`Barrier.dfy`), the packed progress word (`ProgressWord.dfy`) and
the shuffle (`Shuffle.dfy`), which is also proved as loops over vectors (`ShufflePhase.dfy`) with the same
steps. The client's `map` and `reduce`
are arbitrary functions from an input, or a group, to the sequence of pairs they emit; the order of keys is
any strict weak order.

**Ex02, the user-level thread scheduler.** Each API call and the timer tick as a function on the thread
records, the ready queue and the counters (`Scheduler.dfy`), properties of whole runs
(`SchedulerRuns.dfy`), and the library with its lists of thread objects updated in place
(`Uthreads.dfy`), each method proved to do to the records what the function says.

## Where the code and its documentation differ

* `Ex02/uthreads.h:89-90` counts a sleep in quantums that start for whatever reason. The code counts
  sleepers down only at timer ticks (`Ex02/uthreads.cpp:206`), so a sleep lasts longer whenever a quantum
  begins because a thread blocked itself, slept or terminated itself. `SchedulerRuns.LateIffVoluntary`
  gives the exact condition and `SchedulerRuns.SleepOutlastsItsQuantums` a run from `uthread_init`.
* `Ex02/uthreads.h:85` speaks of the BLOCKED state for a sleeping thread. In the code a sleeper is READY
  with its sleep flag set (`Ex02/uthreads.cpp:488-490`), so that it can be blocked and resumed besides.
* A sleep of zero or fewer quantums never ends (`Ex02/uthreads.cpp:127-128` tests for exactly 0 after the
  decrement); the model says so.
* `Ex04/VirtualMemory.cpp` takes for granted that there are more frames than levels. Without that the very
  first access after `VMinitialize`, to address 0, puts every frame on its own walk and then has `find_frame`
  evict the root table (`TooFewFrames.WalkAddressZero`, `TooFewFrames.RootIsReported`). That there are more
  frames than levels is the exact condition (`TooFewFrames.FirstWalkIffRoomy`, `PageFault.VictimIffRoomy`).

## Model

| member | source | states |
|---|---|---|
| `MemoryRuns.RunFromPowerUp` | Ex04/VirtualMemory.cpp:152-212 | From an initialised machine of any valid widths with more frames than levels, every finite sequence of read and write calls is answered as by one flat memory: out-of-range calls are refused, a read returns the value last written to its address or, before any write, one fixed initial value, however many evictions and restores came between |
| `MemoryRuns.Run` | Ex04/VirtualMemory.cpp:152-212 | The same from any state between calls: pages touched before keep the contents they had, in RAM or in swap, and the touched pages afterwards are exactly those and the pages called |
| `FlatView.ResidentOrSwapped` | Ex04/PhysicalMemory.cpp:42-70 | The touched pages are exactly those resident or in swap, and no page is both |
| `FlatView.ResidentPagesHaveOwnFrames` | Ex04/VirtualMemory.cpp:143-174 | Different resident pages lie in different frames, none of them a table's |
| `MemoryRuns.RunContinues` | Ex04/VirtualMemory.cpp:189-212 | One more call, described only by how it changes the touched pages, extends a flat-memory run by a flat-memory answer |
| `MemoryRuns.AgreesAfterWrite` | Ex04/VirtualMemory.cpp:202-212 | After a write every address of every touched page still holds what the flat memory holds; first contact fixes a page's initial contents |
| `MemoryRuns.AgreesAfterRead` | Ex04/VirtualMemory.cpp:189-199 | After a read the same, and the value returned is the flat memory's |
| `MemoryRuns.FlatReadAfterWrite` | Ex04/VirtualMemory.cpp:189-212 | What a flat memory is: a write is seen at its own address and at no other |
| `MemoryRuns.FlatUnwritten` | Ex04/VirtualMemory.cpp:189-212 | What a flat memory is: calls that do not write to an address leave it alone |
| `VirtualMemory.VirtualMemory.VMRead` | Ex04/VirtualMemory.cpp:189-199 | Succeeds exactly in range and then returns the addressed word of the flat view; every other touched page is unchanged; the state goes through the faults of that page; a refused call changes nothing |
| `VirtualMemory.VirtualMemory.VMWrite` | Ex04/VirtualMemory.cpp:202-212 | Succeeds exactly in range and then changes exactly the addressed word of the flat view; the state goes through the faults of that page and then has one word overwritten; a refused call changes nothing |
| `VirtualMemory.VirtualMemory.VMInitialize` | Ex04/VirtualMemory.cpp:183-186 | Clears frame 0 and nothing else, leaving a lone empty root table; the flat view is then what swap holds |
| `VirtualMemory.VirtualMemory.TranslateAddress` | Ex04/VirtualMemory.cpp:152-180 | Keeps tree, contiguity and reclamation invariants, loses no touched page, makes the page resident in the frame that the walk by calculate_bits reaches in the final RAM; for a page already resident it changes neither RAM nor swap, so a second call returns the same frame; level by level the state is left alone where there is an entry to follow, and elsewhere undergoes a fault for the page of this address: find_frame for that page, then a cleared table or the restored page linked at that entry |
| `VirtualMemory.VirtualMemory.Fault` | Ex04/VirtualMemory.cpp:164-176 | One fault on the walk: the entry that was empty leads to a linked frame, the tables already followed stay, no touched page changes; the frame is the one find_frame chooses for the page of the call, cleared as a table or holding the restored page |
| `VirtualMemory.VirtualMemory.InstallTable` | Ex04/VirtualMemory.cpp:166-175 | The chosen frame is cleared and becomes the next table of the walk; the flat view is unchanged |
| `VirtualMemory.VirtualMemory.InstallPage` | Ex04/VirtualMemory.cpp:171-175 | The page is restored into the chosen frame, which becomes the end of the walk: every touched page, this one included, keeps its contents, and a page seen for the first time becomes touched |
| `VirtualMemory.VirtualMemory.FindFrame` | Ex04/VirtualMemory.cpp:120-149 | Unlinks an empty table other than the faulting one if there is one, else takes frame max_frame + 1, which is then the number of frames in use, else evicts the resident page of greatest cyclic distance, the smallest page number on ties; the assertions of PMevict are met |
| `VirtualMemory.VirtualMemory.ClearEntry` | Ex04/VirtualMemory.cpp:135 | Writing 0 to the recorded parent entry takes exactly that node out of the tree |
| `VirtualMemory.VirtualMemory.SearchFrame` | Ex04/VirtualMemory.cpp:72-117 | The recursive search of a subtree: reports an empty table other than the protected frame with its parent entry if the subtree has one, else the greatest linked frame and the best victim with its frame, page number, parent entry and distance |
| `VirtualMemory.VirtualMemory.SearchEntries` | Ex04/VirtualMemory.cpp:90-109 | The loop over a table's entries visits the subtrees in order and finds out whether the table is empty |
| `VirtualMemory.VirtualMemory.VisitEntry` | Ex04/VirtualMemory.cpp:96-108 | One entry: zero exactly if there is no child; otherwise the child's frame is recorded and its subtree searched |
| `VirtualMemory.VirtualMemory.UpdateDistance` | Ex04/VirtualMemory.cpp:54-69 | The victim so far is replaced only by a page at strictly greater distance |
| `VirtualMemory.VirtualMemory.InitializeFrame` | Ex04/VirtualMemory.cpp:31-37 | The frame becomes all zero and no other frame changes |
| `PageWalk.FarthestIsEvicted` | Ex04/VirtualMemory.cpp:40-67 | The page evicted is the resident one that needs the most steps from the page brought in around the cycle of pages, in either direction, and the smallest number among those: every other resident page is reached in no more steps, in fewer if its number is smaller |
| `PageWalk.FindFrameDecides` | Ex04/VirtualMemory.cpp:132-148 | An empty table other than the faulting one is taken back if there is one, with swap unchanged; else the next unused frame is taken and nothing changes; else one data page goes from its frame to swap with its contents |
| `PageWalk.FaultIsStep` | Ex04/VirtualMemory.cpp:164-176 | A fault at a level of a call is that level's step of the call, for the page of the call |
| `PageFault.SearchResult` | Ex04/VirtualMemory.cpp:120-148 | The out-parameters of the whole search: an empty table exactly if one can be reclaimed, never the root; max_frame is the last frame in use; with all frames in use a victim has been recorded |
| `PageFault.SearchRecordsVictim` | Ex04/VirtualMemory.cpp:58-67 | With all frames in use and no table to reclaim some data page is resident, and since it is not the page brought in its distance is positive, so the search records it |
| `FrameUse.VictimExists` | Ex04/VirtualMemory.cpp:120-149 | The counting argument: with more frames than levels, all frames in use and no table but the walk's own empty, a data page is resident |
| `PageFault.VictimIffRoomy` | Ex04/VirtualMemory.cpp:137-147 | Whenever find_frame comes to evict there is a resident page to evict if and only if NUM_FRAMES exceeds TABLES_DEPTH |
| `PageFault.FrameIffCanChoose` | Ex04/VirtualMemory.cpp:132-148 | For every faulting state find_frame has a frame to give if and only if there is an empty table to take back, an unused frame, or NUM_FRAMES exceeds TABLES_DEPTH |
| `TooFewFrames.FirstWalkIffRoomy` | Ex04/VirtualMemory.cpp:152-180 | From the state VMinitialize leaves, whatever RAM and swap hold, every first walk gets a frame at each fault it comes to if and only if NUM_FRAMES exceeds TABLES_DEPTH |
| `TooFewFrames.WalkAddressZero` | Ex04/VirtualMemory.cpp:120-178 | With as many levels as frames or more, the code's own faults on address 0 after VMinitialize put every frame on the walk, and its search then reports frame 0, page 0 and parent entry 0 |
| `TooFewFrames.DescentGoesOn` | Ex04/VirtualMemory.cpp:138-175 | A fault on that walk takes case 2, adds exactly the next table below it, and leads to a fault one level deeper |
| `TooFewFrames.NoFrameLeft` | Ex04/VirtualMemory.cpp:143-147 | At the end of that walk there is no empty table to take back, no unused frame and no data page |
| `TooFewFrames.RootIsReported` | Ex04/VirtualMemory.cpp:122-147 | What the search can report there is frame 0 alone, so find_frame goes on to clear entry 0 of the root table and to evict it |
| `TooFewFrames.FaultLeadsOn` | Ex04/VirtualMemory.cpp:159-178 | After a fault above the last level the walk is at the new table, and the entry it needs next is empty |
| `PageFault.BestExists` | Ex04/VirtualMemory.cpp:54-69 | Among finitely many pages one is at the greatest distance with the smallest number on ties |
| `FrameUse.OffWalkReachesData` | Ex04/VirtualMemory.cpp:94-109 | A node off the walk leads down to a data page when no table off the walk is empty |
| `PageFault.ChosenFrameIsSafe` | Ex04/VirtualMemory.cpp:132-148 | In each of the three cases the returned frame is not the root nor on the walk, is unused, every frame of the walk keeps its place, and no touched page is lost |
| `PageFault.FollowEntry` | Ex04/VirtualMemory.cpp:159-164 | On the walk of a page the entry read is zero exactly where the walk leaves the tree, which it does not for a resident page |
| `PageFault.AfterFault` | Ex04/VirtualMemory.cpp:164-177 | After a fault the walk continues one level deeper with all that held before |
| `PageFault.WalkDone` | Ex04/VirtualMemory.cpp:177-179 | At the end of the loop the page is resident in the frame returned and what holds between calls holds again |
| `PageFault.WalkFollowsTree` | Ex04/VirtualMemory.cpp:159-178 | The frames visited by following calculate_bits through RAM are the tree's |
| `PageFault.ResidentIffWalkable` | Ex04/VirtualMemory.cpp:159-164 | The ghost tree adds nothing to RAM: a page is resident exactly if the walk by calculate_bits meets no zero entry |
| `PageFault.TableLinked` | Ex04/VirtualMemory.cpp:166-175 | Linking a zeroed free frame below the walk keeps tree, contiguity and the bound of one empty table, and no page changes |
| `PageFault.PageLinked` | Ex04/VirtualMemory.cpp:171-175 | Linking the page's frame keeps the same and gives the page the frame's contents |
| `PageFault.RootCleared` | Ex04/VirtualMemory.cpp:183-186 | Clearing frame 0 establishes what holds between calls |
| `FrameSearch.Compose` | Ex04/VirtualMemory.cpp:94-109 | Searching two sets of nodes one after the other, the second of larger page numbers, is searching their union: the first maximum wins ties |
| `FrameSearch.ScanNext` | Ex04/VirtualMemory.cpp:96-108 | One turn of the loop extends the search by the subtree of that entry |
| `FrameSearch.ScanEnd` | Ex04/VirtualMemory.cpp:111-116 | Judging the table itself after the loop completes the search of its subtree |
| `FrameSearch.EarlierSubtreesEarlierPages` | Ex04/VirtualMemory.cpp:94-108 | Pages below an earlier entry have smaller numbers |
| `PageTable.EntryIffChild` | Ex04/VirtualMemory.cpp:162-164 | An entry of a reachable table is the child's frame if there is a child and zero if not |
| `PageTable.PrefixClosed` | Ex04/VirtualMemory.cpp:159-178 | Every table on the path to a reachable frame is reachable |
| `PageTable.Link` | Ex04/VirtualMemory.cpp:175 | Writing a free frame into an empty entry adds exactly that node to the tree |
| `PageTable.Unlink` | Ex04/VirtualMemory.cpp:133-147 | Clearing the parent entry of a leaf removes exactly that node from the tree |
| `PageTable.Refill` | Ex04/VirtualMemory.cpp:171-174 | Overwriting frames that are not tables leaves the tree alone |
| `FlatView.Recycle` | Ex04/VirtualMemory.cpp:133-136 | Taking back an empty table changes no page |
| `FlatView.Evict` | Ex04/VirtualMemory.cpp:143-147 | The evicted page was resident, was not in swap, and keeps its contents there; no other page changes |
| `FlatView.VictimKeepsContents` | Ex04/VirtualMemory.cpp:145-146 | Clearing the victim's parent entry before PMevict does not touch the frame to be saved |
| `FlatView.FillFree` | Ex04/VirtualMemory.cpp:169 | Overwriting an unused frame changes no page |
| `FlatView.LinkTable` | Ex04/VirtualMemory.cpp:169-175 | Linking a zeroed frame as a table changes no page |
| `FlatView.LinkData` | Ex04/VirtualMemory.cpp:173-175 | Linking a page's frame and dropping it from swap gives that page the frame's contents and changes no other |
| `FlatView.WriteResident` | Ex04/VirtualMemory.cpp:210 | Writing into a resident page changes that page of the view alone |
| `FrameUse.MaxFrameIsLast` | Ex04/VirtualMemory.cpp:101-104 | The frames in use are 0..max_frame, so max_frame + 1 is unused |
| `FrameUse.UnlinkMakesSpare` | Ex04/VirtualMemory.cpp:133-148 | Taking a node out leaves its frame as the only gap |
| `FrameUse.LinkMakesContiguous` | Ex04/VirtualMemory.cpp:175 | Linking the one spare frame makes the frames in use contiguous again |
| `FrameUse.UnlinkAtMostOne` | Ex04/VirtualMemory.cpp:133-147 | Recycling the one empty table, or evicting when there is none, leaves at most one empty table besides the walk's |
| `FrameUse.LinkAtMostOne` | Ex04/VirtualMemory.cpp:175 | Linking below the walk leaves at most one empty table besides the new one |
| `Addressing.CalculateBitsIsDigit` | Ex04/VirtualMemory.cpp:7-21 | For all widths, addresses and levels the bits extracted are the page number's digit of that level, below PAGE_SIZE, also where the root level is narrower |
| `Bits.ShiftRightIsQuot` | Ex04/VirtualMemory.cpp:17 | Shifting right by k, bit by bit, is the quotient by 2^k |
| `Bits.MaskIsRem` | Ex04/VirtualMemory.cpp:15-19 | Masking with (1 << k) - 1, bit by bit, is the remainder by 2^k |
| `Bits.OrIsJoin` | Ex04/VirtualMemory.cpp:105 | (curr_path << k) | i, bit by bit, is curr_path * 2^k + i for an i of at most k bits |
| `Addressing.FindOffsetIsLowBits` | Ex04/VirtualMemory.cpp:24-28 | The double shift in 64 bits is the remainder by the page size |
| `Addressing.CyclicalDistanceIsLeast` | Ex04/VirtualMemory.cpp:40-51 | The distance is the least number of steps between two pages around the cycle of pages, symmetric, and zero only for equal pages |
| `Addressing.PathRoundTrip` | Ex04/VirtualMemory.cpp:105-107 | The page number rebuilt on the descent by shifting and or-ing is the page whose digits were followed |
| `Addressing.ValueRoundTrip` | Ex04/VirtualMemory.cpp:105-107 | Every full path is the digit path of the number rebuilt on it |
| `Addressing.DepthFirstIsPageOrder` | Ex04/VirtualMemory.cpp:94-108 | Depth-first order is increasing page order |
| `MemoryConstants.ShapeIsValid` | Ex04/MemoryConstants.h:10-33 | For any valid widths the TABLES_DEPTH levels of PAGE_SIZE entries are enough for NUM_PAGES pages, and pages times page size is the virtual memory size |
| `MemoryConstants.DepthIsLeast` | Ex04/MemoryConstants.h:32-33 | TABLES_DEPTH is the quotient (V - O) / O rounded up: the least number of levels that hold the bits above the offset |
| `MemoryConstants.ShippedIsValid` | Ex04/MemoryConstants.h:11-33 | The shipped widths are valid, with more frames than levels: pages of 16 words, depth 4, 64 frames, 65536 pages |
| `PhysicalMemory.RamHoldsFrames` | Ex04/MemoryConstants.h:19-27 | RAM is a whole number of frames |
| `Arithmetic.QuotIsDivision` | Ex04/PhysicalMemory.cpp:26-27 | The quotient and remainder used for addresses are / and % on unsigned numbers |
| `PhysicalMemory.FrameAddress` | Ex04/VirtualMemory.cpp:96 | frame * PAGE_SIZE + i is below RAM_SIZE, and frame and i are recovered from it |
| `PhysicalMemory.PhysicalMemory.PMRead` | Ex04/PhysicalMemory.cpp:19-29 | Returns the addressed word of the addressed frame |
| `PhysicalMemory.PhysicalMemory.PMWrite` | Ex04/PhysicalMemory.cpp:31-40 | Changes that word and nothing else |
| `PhysicalMemory.PhysicalMemory.PMEvict` | Ex04/PhysicalMemory.cpp:42-53 | Saves the frame under a page number not yet in swap; the source's assertions are preconditions |
| `PhysicalMemory.PhysicalMemory.PMRestore` | Ex04/PhysicalMemory.cpp:55-70 | Moves a swapped page into the frame and out of swap; a page not in swap leaves everything as it is |
| `MapReduceJob.FinishedJobIsCorrect` | Ex03/MapReduceFramework.cpp:152-328 | On every run, for any number of threads and any interleaving: when all threads have returned, the groups reduced are the partition by key equivalence, in descending key order, of all pairs emitted by mapping each input once; outputVec is as a multiset what reducing each group once emits; the count has reached the total |
| `JobTermination.EveryJobFinishes` | Ex03/MapReduceFramework.cpp:286-310 | Whatever thread moves next, as long as some thread that can move does, the job gets finished, with correct groups and output |
| `JobTermination.StepIsLess` | Ex03/MapReduceFramework.cpp:152-310 | Every step of every thread makes a lexicographic measure smaller: phases, then thread 0's position, then pairs not yet grouped, then work left in the loops |
| `JobTermination.WorkGetsLess` | Ex03/MapReduceFramework.cpp:165-179 | Each step of the claiming loop uses up work that nothing gives back |
| `MapReduceJob.FinishedIsCorrect` | Ex03/MapReduceFramework.cpp:286-310 | In any state that satisfies the invariant with all threads returned, groups, output and progress word are as they should be |
| `MapReduceJob.GroupsAreScheduleIndependent` | Ex03/MapReduceFramework.cpp:215-243 | Any two finished runs have the same groups up to the order of pairs within a group |
| `MapReduceJob.OutputIsScheduleIndependent` | Ex03/MapReduceFramework.cpp:246-261 | If reduce does not depend on the order within its group, outputVec is the same multiset on any two finished runs |
| `MapReduceJob.EachInputOnce` | Ex03/MapReduceFramework.cpp:165-181 | When all threads have left the map loop every input has been claimed by one thread, mapped to the end and counted, and the threads' vectors together hold what map emits for each input once |
| `MapReduceJob.EachGroupOnce` | Ex03/MapReduceFramework.cpp:246-261 | When all threads have left the reduce loop every group has been claimed by one thread, reduced to the end and counted, and outputVec holds what reduce emits for each group once |
| `MapReduceJob.MapEmitsNext` | Ex03/MapReduceFramework.cpp:176-177 | A thread in the middle of input i emits the next pair that map emits for input i, to its own vector |
| `MapReduceJob.ReduceEmitsNext` | Ex03/MapReduceFramework.cpp:257-258 | A thread in the middle of group i emits the next pair that reduce emits for group i, to outputVec |
| `MapReduceJob.EmittedByOneMore` | Ex03/MapReduceFramework.cpp:176-177 | What is emitted for a sequence of arguments: nothing for none, and one argument more adds what is emitted for that one |
| `MapReduceJob.ShuffleRunsAlone` | Ex03/MapReduceFramework.cpp:286-310 | While thread 0 works between the barriers every other thread waits at one of them or is about to enter the second |
| `MapReduceJob.NoDeadlock` | Ex03/MapReduceFramework.cpp:286-310 | On every run some thread can move until all have returned |
| `MapReduceJob.ProgressIsSane` | Ex03/MapReduceFramework.cpp:380-393 | At any moment the word decodes to a stage and a count not above its total, the total being the number of inputs or of pairs |
| `MapReduceJob.ProgressIsMonotone` | Ex03/MapReduceFramework.cpp:380-393 | On a run the word never decreases, and neither does what is read from it, (stage, count) lexicographically |
| `MapReduceJob.StageEndsFull` | Ex03/MapReduceFramework.cpp:293-302 | A new stage is published only when count equals total, and stages follow one another by one |
| `MapReduceJob.StepKeeps` | Ex03/MapReduceFramework.cpp:152-328 | Every step of every thread keeps the invariant of the job, which accounts for every pair emitted, pushed, grouped and reduced |
| `MapReduceJob.MapComplete` | Ex03/MapReduceFramework.cpp:165-181 | When the last thread arrives at the first barrier all pairs of all inputs have been pushed and the count is the number of inputs |
| `MapReduceJob.CoordData` | Ex03/MapReduceFramework.cpp:293-302 | Each of thread 0's steps between the barriers leaves the data as the next step needs it |
| `MapReduceJob.StuckMeansFinished` | Ex03/Barrier.cpp:33-44 | If no thread can move, none waits at the barrier: the job is finished |
| `WorkQueue.StepKeeps` | Ex03/MapReduceFramework.cpp:165-179 | Each step of the claiming loop keeps: one owner per claimed item, the word counts exactly the finished items, a thread has left only if nothing is unclaimed; the word never decreases |
| `WorkQueue.LeavesWithoutItem` | Ex03/MapReduceFramework.cpp:168-179 | A thread leaves the loop only when the first word it loads is full or its ticket is past the end; after counting an item it claims again |
| `WorkQueue.FullCountMeansAllCounted` | Ex03/MapReduceFramework.cpp:250 | The early exit on count >= total is sound because no item has weight zero: the count is full only when every item is finished |
| `WorkQueue.AllExitedMeansAllDone` | Ex03/MapReduceFramework.cpp:250-260 | When all threads have left the loop every item has been claimed by one thread, fully emitted and counted |
| `WorkQueue.StepTakes` | Ex03/MapReduceFramework.cpp:177-178 | A step emits exactly the next element of its item or nothing |
| `WorkQueue.TakenAtEnd` | Ex03/MapReduceFramework.cpp:165-179 | When all threads have left, each item has emitted exactly its own elements |
| `ShufflePhase.Job.ShufflePhase` | Ex03/MapReduceFramework.cpp:215-243 | On any number of sorted vectors it terminates with every vector empty; the groups are non-empty, each of one key, in strictly descending order, and together hold exactly the given pairs; the progress count is the number of pairs |
| `ShufflePhase.Job.CollectGroup` | Ex03/MapReduceFramework.cpp:219-242 | One group: all pairs of the greatest key are moved, at least one, and counted one by one |
| `ShufflePhase.Job.MaxKey` | Ex03/MapReduceFramework.cpp:184-212 | Null exactly if all vectors are empty, otherwise the greatest last key |
| `Shuffle.MaxKeyIsMax` | Ex03/MapReduceFramework.cpp:200-210 | The key found is one of the last keys and none of them is above it |
| `Shuffle.MaxKeyDominates` | Ex03/MapReduceFramework.cpp:184-212 | In sorted vectors no key at all is above it |
| `Shuffle.PickKeeps` | Ex03/MapReduceFramework.cpp:217-219 | When no key is left the groups are the partition of all pairs and the vectors are empty |
| `Shuffle.PopKeeps` | Ex03/MapReduceFramework.cpp:228-238 | Moving a pair conserves the pairs, and the group stays of one key |
| `Shuffle.SkipKeeps` | Ex03/MapReduceFramework.cpp:222-239 | A vector passed over has only smaller keys left |
| `Shuffle.CloseKeeps` | Ex03/MapReduceFramework.cpp:240-241 | The pushed group is non-empty and above everything left |
| `ShufflePhase.GroupIsClass` | Ex03/MapReduceFramework.cpp:215-243 | A group holds every pair with an equivalent key, as often as there are such pairs, and no other |
| `ShufflePhase.PartitionIsUnique` | Ex03/MapReduceFramework.cpp:215-243 | Two partitions of the same pairs agree group by group up to order within the group |
| `Barrier.BarrierSeparatesRounds` | Ex03/Barrier.cpp:27-49 | For any number of threads and rounds: no thread has finished its m-th call before every thread has begun its m-th call, and count is the number of waiting threads |
| `Barrier.EnterKeeps` | Ex03/Barrier.cpp:33-44 | Entering keeps the barrier's accounts; a broadcast happens only when all others wait |
| `Barrier.LeaveKeeps` | Ex03/Barrier.cpp:34-48 | Leaving keeps the barrier's accounts |
| `ProgressWord.Decode` | Ex03/MapReduceFramework.cpp:11-13 | The getters invert the store and the additions as long as the count stays within the total and the total below 2^31 |
| `ProgressWord.AddKeepsFields` | Ex03/MapReduceFramework.cpp:178 | A fetch_add within the total changes the count alone, with no carry and no wrap-around |
| `ProgressWord.FieldsAreBits` | Ex03/MapReduceFramework.cpp:9-13 | The store of reset_counter and the three getters, bit by bit and with the literal shifts and masks of the macros |
| `ProgressWord.ShiftsAreSums` | Ex03/MapReduceFramework.cpp:9-10 | The shifts and the bitwise or of reset_counter are sums in 64 bits |
| `ProgressWord.WordsInOrder` | Ex03/MapReduceFramework.cpp:384-387 | Of two words with equal totals in equal stages the greater shows a later stage, or the same stage and a count at least as high |
| `ProgressWord.WordOrder` | Ex03/MapReduceFramework.cpp:384-387 | A later stage, or a higher count of the same stage, is a greater word |
| `Scheduler.TickKeeps` | Ex02/uthreads.cpp:202-233 | A timer tick keeps the scheduler's invariant: no duplicates in the ready queue, its front the one RUNNING thread, members exactly the RUNNING thread and those READY and not asleep, ids in use exactly those listed, quantums accounted for |
| `Scheduler.SpawnKeeps` | Ex02/uthreads.cpp:309-333 | So does spawn; the new id belonged to no listed or queued thread |
| `Scheduler.TerminateKeeps` | Ex02/uthreads.cpp:346-388 | So does terminating any thread but the main one, running or not; the queue is not left empty |
| `Scheduler.BlockKeeps` | Ex02/uthreads.cpp:400-430 | So does block; popping the running thread never leaves the queue empty |
| `Scheduler.ResumeKeeps` | Ex02/uthreads.cpp:441-463 | So does resume, also of a thread that is still asleep |
| `Scheduler.SleepKeeps` | Ex02/uthreads.cpp:479-494 | So does sleep |
| `Scheduler.DispatchKeeps` | Ex02/uthreads.cpp:148-155 | Dispatching the front of the queue restores the invariant after the running thread has given up the processor |
| `Scheduler.MainIsQueued` | Ex02/uthreads.cpp:400-415 | Thread 0 is always in the queue, so another thread that gives up the processor leaves at least one behind |
| `Scheduler.InitKeeps` | Ex02/uthreads.cpp:249-294 | The state after uthread_init satisfies the invariant |
| `SchedulerRuns.WaitingIsBounded` | Ex02/uthreads.cpp:121-233 | Over any run: a thread at place k that nobody blocks or terminates is RUNNING after at most k context switches, whatever else happens |
| `SchedulerRuns.WaitingMovesForward` | Ex02/uthreads.cpp:109-119 | A waiting thread moves forward exactly one place at a context switch, at most one at any other call, and never back |
| `SchedulerRuns.QuantumsAreConserved` | Ex02/uthreads.cpp:140-233 | Over any run total_quantum grows by one per context switch and equals the counters of the live threads plus the final counters of all terminated ones |
| `SchedulerRuns.NextWasReady` | Ex02/uthreads.cpp:148-153 | A context switch dispatches a READY thread, or at a tick the running one again when it alone is queued and no sleeper wakes |
| `SchedulerRuns.BlockedExactly` | Ex02/uthreads.h:59-79 | A thread is BLOCKED exactly from a block call on it to a resume call on it |
| `SchedulerRuns.ListedExactly` | Ex02/uthreads.h:31-56 | A thread exists exactly from the spawn that returned its id to a terminate call on it |
| `SchedulerRuns.CallsFailAsDocumented` | Ex02/uthreads.h:31-95 | A call returns -1 exactly in the documented cases, spawn in particular exactly for a null entry point or with every id in use, and then changes nothing |
| `SchedulerRuns.FullTable` | Ex02/uthreads.cpp:86-97 | There are as many threads as ids if and only if available_index finds none free |
| `SchedulerRuns.ThreadLimit` | Ex02/uthreads.h:9 | On no run are there more than MAX_THREAD_NUM threads |
| `SchedulerRuns.HundredThreads` | Ex02/uthreads.cpp:309-333 | With nothing terminated the n-th spawn after uthread_init returns n for n up to 99; the hundredth returns -1, and there are then 100 threads |
| `SchedulerRuns.SpawnTakesSmallestId` | Ex02/uthreads.cpp:86-97 | Spawn takes the smallest id that no thread has; the new thread is READY, awake and last in the queue |
| `SchedulerRuns.InitRunsMain` | Ex02/uthreads.cpp:278-285 | After uthread_init thread 0 alone exists, RUNNING in its first quantum, with the other 99 ids free |
| `SchedulerRuns.QuantumsExactly` | Ex02/uthreads.h:117-126 | A context switch adds one to the counter of the thread it dispatches, and no counter changes otherwise |
| `SchedulerRuns.WokenInListOrder` | Ex02/uthreads.cpp:121-138 | Of two threads that wake at the same tick the one listed first is queued first |
| `SchedulerRuns.TickQueue` | Ex02/uthreads.cpp:206-212 | After a tick the preempted thread is last in the queue and the threads that were waiting come first, in their order |
| `SchedulerRuns.SleepPutsToSleep` | Ex02/uthreads.cpp:488-491 | The caller of sleep is asleep for the number it asked for and another thread runs |
| `SchedulerRuns.SleeperStep` | Ex02/uthreads.cpp:121-138 | Only a tick makes a sleeper's counter go down; at 1 the thread wakes and is queued unless it is blocked |
| `SchedulerRuns.SleepsUntilTick` | Ex02/uthreads.cpp:121-138 | Over any run a thread put to sleep for n > 0 sleeps through n - 1 ticks; for n <= 0 it never wakes |
| `SchedulerRuns.WakesAtTick` | Ex02/uthreads.cpp:121-138 | It wakes at the n-th tick |
| `SchedulerRuns.LateIffVoluntary` | Ex02/uthreads.h:89-90 | When the n-th quantum after the call starts, where the header has the sleeper wake, the code has it asleep if and only if one of those quantums was not started by a tick |
| `SchedulerRuns.SleepOutlastsItsQuantums` | Ex02/uthreads.h:89-90 | On a concrete run from uthread_init, of six calls and ticks, two quantums have started since a thread went to sleep for two and it is still asleep |
| `SchedulerRuns.NapIsReached` | Ex02/uthreads.cpp:309-494 | Two spawns, a tick and a sleep after uthread_init lead to the state in which one thread sleeps for two quantums and another runs |
| `SchedulerRuns.QuantumsAreTicksIffNoneVoluntary` | Ex02/uthreads.cpp:204-206 | Context switches are ticks plus voluntary switches |
| `Uthreads.Uthreads.Perform` | Ex02/uthreads.cpp:202-494 | The library object with its lists of thread objects, driven by any sequence of calls and ticks, does a run of the scheduler above |
| `Uthreads.Uthreads.UthreadInit` | Ex02/uthreads.cpp:249-294 | Refuses a non-positive quantum; otherwise the main thread is listed, queued and RUNNING in its first quantum |
| `Uthreads.Uthreads.UthreadSpawn` | Ex02/uthreads.cpp:309-333 | The list manipulation does to the thread records what the scheduler's spawn does, and returns its answer |
| `Uthreads.Uthreads.UthreadTerminate` | Ex02/uthreads.cpp:346-388 | The same for terminate; on the main thread the process ends with all lists cleared |
| `Uthreads.Uthreads.UthreadBlock` | Ex02/uthreads.cpp:400-430 | The same for block |
| `Uthreads.Uthreads.UthreadResume` | Ex02/uthreads.cpp:441-463 | The same for resume |
| `Uthreads.Uthreads.UthreadSleep` | Ex02/uthreads.cpp:479-494 | The same for sleep |
| `Uthreads.Uthreads.TimeHandler` | Ex02/uthreads.cpp:202-233 | The same for the timer tick |
| `Uthreads.Uthreads.SleepCheck` | Ex02/uthreads.cpp:121-138 | Counts down every sleeper and queues those that wake READY, in list order |
| `Uthreads.Uthreads.BlockHandler` | Ex02/uthreads.cpp:140-173 | Takes the running thread off the queue, BLOCKED if asked, and dispatches the front |
| `Uthreads.Uthreads.TerminateHandler` | Ex02/uthreads.cpp:175-200 | Takes the running thread off every list and frees its id, then dispatches the front |
| `Uthreads.Uthreads.AvailableIndex` | Ex02/uthreads.cpp:86-97 | The first free id, or -1 if there is none |
| `Uthreads.Uthreads.SearchThread` | Ex02/uthreads.cpp:99-107 | The first listed thread with that id, or null if there is none |
| `Uthreads.Uthreads.DeleteFromReadyQueue` | Ex02/uthreads.cpp:109-119 | Takes the first thread with that id out of the queue and leaves the others in order |
| `Uthreads.Uthreads.CheckIfThreadExist` | Ex02/uthreads.cpp:70-83 | 0 exactly for an id in use, -1 for any other number, negative or too large included |

## Left out

Whole programs and repository-wide:

- Ex01 (timing, plotting, file copying) is not modelled; it has no state worth an invariant.
- The copies `Ex03/Barrier/Barrier.cpp`, the atomic demos, the sample client and the makefiles.

Ex04:

- Lazy initialisation of RAM, `printRam`, the eviction counter, and a second `VMinitialize` on a used machine. `VMInitialize` itself may start from any RAM and any swap of whole pages.
- Contents of pages before they are first touched are left open, as the source leaves them.
- `search_frame` is one procedure in the source; here the loop over the entries (`SearchEntries`) and its body (`VisitEntry`) are methods of their own, and the out-parameters travel as one record. RAM is a field holding a sequence of pages, for the source's vector of vectors, reassigned on each write.
- The widths admitted (`Config.Valid`) have fewer than 64 virtual bits and frame and page numbers that fit a 32-bit `word_t`, which the source takes for granted. What the code does once `find_frame` has evicted the root table, with too few frames, is not followed further.

Ex03:

- Spurious wakeups: the barrier waits in an `if` (`Ex03/Barrier.cpp:33-34`), which is sound only if `pthread_cond_wait` (IEEE Std 1003.1) returns after a broadcast alone. The model assumes that.
- `std::sort` is any sorted rearrangement; its body is not part of this model.
- Failures of pthread calls, allocation, `free_resources`, `waitForJob`, `closeJobHandle`, and the floating-point percentage (0/0 for a job without inputs or pairs).
- Jobs of 2^31 inputs or pairs and more, for which the fields of the progress word overflow; the 32-bit `atomic_next_to_process` is unbounded here, which matters only beyond those sizes.
- The element order of `outputVec` and the order of pairs within a group, which depend on the schedule.
- A client whose `map` or `reduce` is not a function of its arguments.

Ex02:

- `sigsetjmp`, `siglongjmp`, stacks, signal masks and the timer: each API call and each tick is one atomic step, as the masks intend. The deferred `delete` of a thread that terminated itself is not modelled.
- Terminating another thread erases a list node and then dereferences the iterator (`Ex02/uthreads.cpp:379-381`); the model takes it as removal from the list.
- The part that the three handlers have in common, written out three times in the source, is one method (`RunFront`) here.
- 32-bit wrap-around of quantum counters and of a sleep counter that has gone negative.
- The getters, which read one field each, and errors of system calls, which end the process.

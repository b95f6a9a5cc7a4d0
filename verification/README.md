# Verification of four of the repository's components

This project models, and proves properties of, the four components of the repository whose logic is hard:

1. **The relocating allocator** (`p1/allocator.cpp`), a best-fit allocator over one region of bytes. Its area
   table tiles the region, handles refer to list nodes rather than addresses, and `realloc` and `defrag` move
   live bytes. The main theorem is a refinement: over every run of `alloc`, `free`, `realloc`, `defrag` and
   writes through handles, the allocator is a plain map from live handle to bytes, and `defrag` is the identity
   on that map.
   (`Areas`, `HeapModel`, `Refinement`, `Fragmentation`, `Layout`, `RelocatingAllocator`)
2. **The bottom-up merge sort between two buffers** (`p9/openmp_sort.cpp`), sequential and with OpenMP, for any
   number of elements and any contents.
   (`MergeSpec`, `MergeAsWritten`, `MergeSort`, `ParallelPass`)
3. **The shell line parser** (`p4/tokens.cpp`), with the answer to every line, and a printer and a round trip in both
   directions.
   (`ShellGrammar`, `ShellWords`, `ShellRedirections`, `ShellRoundTrip`, `ShellReadings`, `ShellParser`)
4. **The shared key-value store and the dispatch of clients** (`p6`, and `p5` as the variant without times), as
   transition systems with arbitrary interleaving.
   (`KeyValueSpec`, `KeyValueStore`, `KeyValueLock`, `Dispatch`)

`Basics` holds what several modules need.

Each component has a specification on values (functions on sequences, maps and snapshots), imperative code in the
form of the program (classes and arrays updated in place, the program's loops) whose `ensures` tie it to the
specification, and lemmas about the specification.

`dafny verify dfyconfig.toml` verifies the whole project.

## Where the code does not do what it means to

The model keeps the code as it is, next to what it intends, and says exactly when the two agree.

- **The last loop of `merge`** (`p9/openmp_sort.cpp:106`) stops at part 1's end instead of part 2's. The data type
  `TailBound` selects the bound. With the intended one the program sorts every input (`SortCorrect`). As written, a
  merge leaves out the elements of part 2 that are not below part 1's last. It is right for every content of its
  output exactly when there are none (`AsWrittenExactly`), and for a given content exactly when they are already in
  place (`MergedExactly`). The same holds of each merge of a pass (`PassAsWrittenExactly`, `PassInPlaceExactly`) and
  of each merge of the whole program (`EveryMergeSortsExactly`). The program checks itself on a descending input,
  which is always sorted (`AsWrittenSortsDescending`); `[1, 2]` is not (`AsWrittenFails`).
- **`delete` in p6** (`p6/worker_routines.cpp:180-183`) shifts keys and values but neither times to live nor times
  of setting, while `clean_old_entries` shifts whole records. The store is parameterised by what a shift carries
  along. Deleting as written removes the key and changes no stored field of another entry exactly when the deleted
  record and all after it have the same times (`DeleteAsWrittenExactly`). It removes the key and changes nothing a
  client can see exactly when they have the same deadline, or none (`DeleteSeenExactly`). `DeleteAsWrittenFails`
  shows a record that was set for ever and expires. The values, without times, form the expected map even so
  (`Variants`).
- **A worker that fails to register a client** (`p6/worker_routines.cpp:305-309`), or to notify the master
  (`p6/worker_routines.cpp:316`), is never given a client again. A worker can be marked free again exactly when it
  has never failed so (`FreeAgainExactly`); two actions suffice to lose one (`AWorkerStrands`).
- **Adjacent free areas** in the allocator: only `realloc` leaves them, exactly under the condition `Fragments`, which
  an allocation and a shrink bring about (`FragmentsReached`).
- **Index overflow in the sort**: the signed computations `2 * (int)part_size` and `i += cycle_step` stay inside 32
  bits exactly for up to 2^30 elements (`NoOverflowExactly`).

## Model

| member | source | states |
|---|---|---|
| Refinement.RunRefines | p1/allocator.cpp:302-483 | every run of the allocator, of any length, is a run of the map from live handle to bytes, and every state on the way is tiled with distinct nodes |
| Refinement.StepRefines | p1/allocator.cpp:302-483 | one operation keeps the tiling invariant and does to the map what the interface promises, failures included |
| Refinement.UntouchedBytesSurvive | p1/allocator.cpp:302-483 | a live handle keeps its node and its bytes through every run that does not free, reallocate or write through that handle, even when its area moves |
| Refinement.CopiesGoStaleExactly | p1/allocator.cpp:62-69 | copies of a handle share its node, and stay valid through any operation on any of them if and only if it does not take the node away: a free, or a reallocation to nothing or to another node |
| Refinement.AllocRefines | p1/allocator.cpp:302-364 | an allocation gives a handle that was not live and holds exactly n bytes, or nothing for n = 0, or fails; all other handles keep their bytes |
| Refinement.ReallocRefines | p1/allocator.cpp:384-435 | on every path (shrink, equal, grow right, move left then grow, copy) the result has exactly n bytes, the first min(old, n) of which are the old ones, and no other handle's bytes change; on NoMemory nothing changes |
| Refinement.CopyGrowCorrect | p1/allocator.cpp:429-434 | allocate, copy, free: the new handle begins with all the old bytes, the old handle is gone, others are untouched |
| Refinement.DefragRefines | p1/allocator.cpp:456-483 | defragmentation is the identity on the map from handle to bytes |
| Refinement.StoreRefines | p1/allocator_test.cpp:25-31 | a write through a handle changes that byte of that handle's contents and nothing else |
| Refinement.InitialValid | p1/allocator.cpp:287-292 | a fresh allocator over a non-empty region is valid and holds no live handle |
| Refinement.LiveRangesDisjoint | p1/allocator.cpp:302-483 | in every valid state the areas, hence the live ranges, are ordered, pairwise disjoint and inside the region |
| Refinement.SizesConserved | p1/allocator.cpp:216-223 | in every valid state the live bytes and the free bytes add up to the region's size |
| HeapModel.RetileValid | p1/allocator.cpp:176-185 | replacing a stretch of areas by one or two that cover the same range keeps the tiling, positive sizes and distinct nodes; every operation is such a replacement |
| HeapModel.PlaceCorrect | p1/allocator.cpp:342-361 | taking n bytes of a free area adds one live node, placed at the area's start, and changes no other node's bytes |
| HeapModel.ReleaseCorrect | p1/allocator.cpp:447-449 | releasing an area, with the uniting that follows, removes that node from the map and nothing else |
| HeapModel.UnitedRun | p1/allocator.cpp:242-281 | uniting replaces exactly the maximal free run around its argument by one area of the summed size |
| HeapModel.UniteCorrect | p1/allocator.cpp:227-284 | uniting keeps the tiling and everything any live handle holds |
| HeapModel.ShrinkCorrect | p1/allocator.cpp:391-402 | shrinking keeps the first n bytes of that node and all other nodes |
| HeapModel.ExtendCorrect | p1/allocator.cpp:192-225 | growing to the right keeps the start, extends the old bytes and touches no other node, whether or not the free area is used up |
| HeapModel.MoveLeftCorrect | p1/allocator.cpp:137-190 | swapping an area with the gap before it, overlapping or not, leaves every node's bytes as they were |
| HeapModel.MoveLeftBlocks | p1/allocator.cpp:137-190 | the same swap keeps the sequence of live blocks, with their order and bytes |
| HeapModel.BestFit | p1/allocator.cpp:313-340 | the area chosen is the first of those with the least adequate size; none is chosen exactly when no free area is large enough |
| Fragmentation.AllocExactly | p1/allocator.cpp:302-364 | allocation fails exactly when no single free area is large enough; otherwise a best fit gives its first n bytes and every other area stays as it is |
| Fragmentation.ReallocExactly | p1/allocator.cpp:390-430 | reallocation fails if and only if the area is too small even with the free bytes on either one of its sides and no free area is large enough; then nothing has changed |
| Fragmentation.ReallocMissesBothSides | p1/allocator.cpp:408-427 | a reallocation that fails although the area and the free bytes on both of its sides suffice together |
| Fragmentation.ReallocAfterDefrag | p1/allocator.cpp:366-483 | after defragmentation a reallocation fails if and only if the block has to grow and the free bytes suffice neither for a copy nor, behind the last live area, for growing in place |
| Fragmentation.MoveThenExtendFits | p1/allocator.cpp:417-425 | after the move to the left the second extension, whose result the program ignores, always succeeds |
| Fragmentation.DefragPacks | p1/allocator.cpp:456-483 | afterwards the live blocks lie side by side from the base in their old order with their old bytes, followed by at most one free area that holds all the free bytes |
| Fragmentation.AllocAfterDefrag | p1/allocator.cpp:456-483 | after defragmentation an allocation of n > 0 bytes succeeds exactly when n is at most the total free size |
| Fragmentation.AllocKeepsUnited | p1/allocator.cpp:342-357 | allocation creates no two adjacent free areas |
| Fragmentation.FreeKeepsUnited | p1/allocator.cpp:447-449 | neither does free, whatever surrounds the freed area |
| Fragmentation.DefragUnites | p1/allocator.cpp:456-483 | after defragmentation no two free areas are adjacent, whatever the table was |
| Fragmentation.ReallocFragmentsExactly | p1/allocator.cpp:390-430 | from a table without adjacent free areas, reallocation leaves two exactly when it shrinks before a free area, or moves left without using up the gap while a free area follows |
| Fragmentation.FragmentsReached | p1/allocator.cpp:391-402 | from a fresh allocator, allocating and then shrinking leaves two adjacent free areas |
| Fragmentation.AllocThenFree | p1/allocator.cpp:302-454 | from a table without adjacent free areas, freeing what was just allocated restores the table by value, and the bytes |
| Layout.StepLeaves | p1/allocator.cpp:302-483 | where every operation leaves the areas and the bytes, position by position and from any table: an allocation at the start of a best fit; a free in one area over the whole free stretch around it, up to allocated areas; a reallocation in place when the size is the same, shrunk with the rest as a free area behind it, grown to the right when the free bytes after it suffice, only otherwise moved to the start of the gap before it when those suffice, only otherwise to a best fit, and otherwise nowhere |
| Layout.ReallocStepLeaves | p1/allocator.cpp:390-434 | the same for each path of a reallocation, with the order of the paths, the start of the block and what is left of the free areas beside it |
| Layout.FreedByRelease | p1/allocator.cpp:447-449 | from any table, adjacent free areas included, freeing leaves one free area from the start to the end of the free stretch around the area, no free area beside it, and all other areas as they were |
| RelocatingAllocator.MovedByChunk | p1/allocator.cpp:157-175 | copying one more chunk no longer than the gap is what copying everything at once would have done: no source byte is overwritten before it is copied |
| RelocatingAllocator.CopyGrowPlan | p1/allocator.cpp:429-434 | the old area and the area found for the copy do not overlap, both handles stay live until the old one is freed, and the new one is live afterwards |
| RelocatingAllocator.Pointer.Get | p1/allocator.cpp:74-81 | a valid handle's address is where the bytes that the map gives for its node lie now; an invalid handle has none |
| RelocatingAllocator.Allocator.constructor | p1/allocator.cpp:287-292 | a new allocator is valid, with the whole region free |
| RelocatingAllocator.Allocator.RangeMemoryAmount | p1/allocator.cpp:121-134 | sums the sizes of a range of areas |
| RelocatingAllocator.Allocator.UniteFreeSpace | p1/allocator.cpp:227-284 | unites the free run around the argument and returns its first area; does nothing at the end or at an allocated area |
| RelocatingAllocator.Allocator.Memcpy | p1/allocator.cpp:155-171 | copies between ranges that its precondition keeps apart, as section 7.24.2.1 of ISO/IEC 9899:2011 demands; every call in the model meets it |
| RelocatingAllocator.Allocator.MoveBytes | p1/allocator.cpp:155-175 | the chunk loop terminates and leaves what one simultaneous move would leave |
| RelocatingAllocator.Allocator.MoveToPreviousFree | p1/allocator.cpp:137-190 | moves exactly when the area is allocated and its predecessor free, keeps the allocator valid, and otherwise changes nothing |
| RelocatingAllocator.Allocator.ExtendToNextFree | p1/allocator.cpp:192-225 | extends exactly when the next area is free and large enough, and otherwise changes nothing |
| RelocatingAllocator.Allocator.FindBestFree | p1/allocator.cpp:313-333 | the search loop, with its running difference, finds the best fit |
| RelocatingAllocator.Allocator.Alloc | p1/allocator.cpp:302-364 | returns a new handle that is live, or null, or NoMemory, and leaves the areas as an allocation does: the first n bytes of a best fit taken, nothing else changed |
| RelocatingAllocator.Allocator.Free | p1/allocator.cpp:436-454 | refuses a null or foreign handle with nothing changed; otherwise invalidates the handle, takes its node out of the map, and leaves one free area over the whole stretch |
| RelocatingAllocator.Allocator.Realloc | p1/allocator.cpp:366-435 | on all paths, including the null handle and n = 0, does to the map and leaves in the table what a reallocation does; a foreign handle or NoMemory leaves state and handle as they were |
| RelocatingAllocator.Allocator.ReallocInPlace | p1/allocator.cpp:390-427 | succeeds exactly when the free bytes on one side suffice, taking the right side first, and otherwise changes nothing |
| RelocatingAllocator.Allocator.Defrag | p1/allocator.cpp:456-483 | terminates with the same live blocks in the same order side by side from the base, before at most one free area |
| MergeSpec.SortCorrect | p9/openmp_sort.cpp:157-224 | with the intended bound the passes leave a sorted permutation of the input, for every size and contents |
| MergeSpec.PassDoubles | p9/openmp_sort.cpp:191-217 | a pass turns sorted blocks of size s into sorted blocks of size 2s and permutes the elements, with ragged or missing last blocks |
| MergeSpec.WrittenSorts | p9/openmp_sort.cpp:89-109 | with the intended bound a merge writes a sorted permutation of its two parts |
| MergeSpec.Trace | p9/openmp_sort.cpp:89-109 | the three loops write the merge's elements one after the other, choosing the part at each step as the program does, and stop when it is complete |
| MergeAsWritten.AsWrittenExactly | p9/openmp_sort.cpp:101-109 | a merge as written fills its output with a sorted permutation, whatever the output held, if and only if part 2 is empty or its last element is less than part 1's last |
| MergeAsWritten.PassAsWrittenExactly | p9/openmp_sort.cpp:191-217 | a pass as written doubles the sorted blocks and permutes, whatever the other buffer held, if and only if that condition holds of each of its merges |
| MergeAsWritten.MergedExactly | p9/openmp_sort.cpp:101-109 | for a given content of its output, a merge as written leaves a sorted permutation if and only if the elements of part 2 that are not below part 1's last are already in place there |
| MergeAsWritten.PassInPlaceExactly | p9/openmp_sort.cpp:191-217 | for given buffers, each merge of a pass as written does its work if and only if what it leaves out is in place, and the pass is then the intended one |
| MergeAsWritten.EveryMergeSortsExactly | p9/openmp_sort.cpp:157-224 | for every input and every content of the other buffer, each merge of each pass of the program as written does its work if and only if what it leaves out is in place, which from the second pass on means in the input of the pass before |
| MergeAsWritten.AsWrittenSorts | p9/openmp_sort.cpp:157-224 | then the program as written sorts |
| MergeAsWritten.LastPassExactly | p9/openmp_sort.cpp:157-224 | when the passes before the last have done their work, the program as written sorts if and only if the last merge finds in place what it leaves out |
| MergeAsWritten.ThreeInPlace | p9/openmp_sort.cpp:157-224 | an input on which a merge leaves an element out that is in place, whatever the other buffer held |
| MergeAsWritten.StaleMayCoincide | p9/openmp_sort.cpp:157-224 | an input that is sorted although one of the merges fails, because what it loses is not read again |
| MergeAsWritten.AsWrittenSortsDescending | p9/openmp_sort.cpp:147-150 | for every n the program as written turns n, n-1, ..., 1 into 1, 2, ..., n |
| MergeAsWritten.AsWrittenFails | p9/openmp_sort.cpp:106-109 | an input the program as written does not sort |
| MergeSort.IntersectMeaning | p9/openmp_sort.cpp:26-59 | non-empty parts intersect exactly when they share an address; an empty part intersects what it begins inside of; the test is symmetric |
| MergeSort.Merge | p9/openmp_sort.cpp:67-110 | refuses parts that intersect, then a part that intersects the output, then sizes that do not add up, and changes nothing then; otherwise writes into the output part, on top of what it held, the merge of the two parts up to where its last loop stops, and nothing outside it |
| MergeSort.IterationNeverThrows | p9/openmp_sort.cpp:164-185 | for separate buffers in either address order no iteration of a pass fails a check of merge, even where an empty second part begins beyond its buffer |
| MergeSort.RunPass | p9/openmp_sort.cpp:191-217 | the loop over the blocks leaves in the other buffer the whole pass |
| MergeSort.Sort | p9/openmp_sort.cpp:157-224 | the current buffer at the end holds a sorted permutation of the input with the intended bound, and what the passes as written compute otherwise |
| MergeSort.NoOverflowExactly | p9/openmp_sort.cpp:155-163 | no signed index computation of any pass exceeds 32 bits if and only if there are at most 2^30 elements |
| ParallelPass.AnyScheduleIsThePass | p9/openmp_sort.cpp:161-189 | in whatever order the steps of the parallel iterations are interleaved, once all have finished the output buffer is that of the sequential pass |
| ParallelPass.StepInv | p9/openmp_sort.cpp:161-189 | a step of one iteration writes inside its own slice and keeps what every other iteration has written |
| ParallelPass.StepsCommute | p9/openmp_sort.cpp:161-189 | steps of different iterations commute |
| ParallelPass.IterationsApart | p9/openmp_sort.cpp:163-185 | the iterations' slices are inside the buffer and pairwise disjoint |
| ParallelPass.SlicesMakePass | p9/openmp_sort.cpp:161-189 | the slices cover the buffer: put together they are the sequential pass |
| ParallelPass.SomeScheduleFinishes | p9/openmp_sort.cpp:161-189 | from every reachable state the iterations can all finish, each step leaving less to do |
| ParallelPass.AnySchedulesSort | p9/openmp_sort.cpp:157-224 | the whole parallel sort, with any finishing schedule for each pass, ends with what the sequential sort leaves, with the intended bound a sorted permutation of the input |
| ParallelPass.SomeSchedulesSort | p9/openmp_sort.cpp:157-224 | for every input there are schedules with which the parallel sort ends |
| ShellRoundTrip.RoundTrip | p4/tokens.cpp:337-345 | every well-formed token list whose words are non-empty, without quotes and not a lone angle bracket is read back from its quoted printing, arguments and redirections included |
| ShellRoundTrip.ParseNormalizes | p4/tokens.cpp:337-345 | whatever line is accepted, its tokens are well-formed and printable, and printing and parsing them again gives the same tokens |
| ShellRoundTrip.CommandRoundTrip | p4/tokens.cpp:40-119 | a printed command is read back with its name, arguments and both files |
| ShellRedirections.CommandMeans | p4/tokens.cpp:76-118 | a command is accepted if and only if each redirection sign in it fits, judged by the words after it alone; then its name is the first word, its arguments the words that follow words, and its files the last word after each sign |
| ShellWords.WordsCut | p4/tokens.cpp:47-74 | at a blank or an angle bracket outside quotes, told by the parity of the quotes before it, the words before it end and those after it begin anew; the bracket is a word of its own |
| ShellWords.WordsWhole | p4/tokens.cpp:47-74 | a text without such a character is one word, its quotes removed, or none if nothing else is left |
| ShellReadings.AnswersExactly | p4/tokens.cpp:183-345 | the answer to every line: a line that reads as texts and operators, none of one character run into the next, is answered with its named commands and operators if they are in order, with BadShellLine(0) if not, and with BadCommand(0) if a text's redirections do not fit; a line that breaks, at a malformed operator or at its end inside quotes, with the position, unless a text before has been rejected; every line is of one kind or the other |
| ShellReadings.TokensOfReading | p4/tokens.cpp:183-290 | the scanner's tokens of a line that reads as texts and operators, commands without a name included |
| ShellReadings.TokensOfBroken | p4/tokens.cpp:183-290 | the scanner's failure, with its position, on a line that breaks |
| ShellReadings.WellFormedIsOrdered | p4/tokens.cpp:308-335 | the grammar by position: commands and operators alternate from a command on, a background operator comes only last, and no other operator does |
| ShellRoundTrip.TokensKeepLine | p4/tokens.cpp:237-287 | on success the commands' texts and the operators' spellings, in order, concatenate to the line |
| ShellRoundTrip.TokensArePlain | p4/tokens.cpp:183-290 | no word of any token holds a quote character or is a lone angle bracket |
| ShellParser.FindSpecial | p4/tokens.cpp:191-198 | the least of the four forward searches is the first special character at or after the start, or none |
| ShellParser.MinPosition | p4/tokens.cpp:157-166 | the lesser of two positions of which either may be missing |
| ShellParser.SplitWords | p4/tokens.cpp:42-74 | the loop cuts the text into the words of a character-by-character quote automaton |
| ShellParser.FromStdString | p4/tokens.cpp:40-119 | the loop over the words, with its two positions of pending redirections, gives the command, or the failure, of the state machine on words |
| ShellParser.ReadOperator | p4/tokens.cpp:207-235 | which operator stands at a position, for each of the three characters, alone, doubled, or before another one |
| ShellParser.LexicalParser | p4/tokens.cpp:183-290 | the scanner that jumps between special characters returns the tokens, or the failure with its position, of the character-by-character automaton |
| ShellParser.RemoveEmpty | p4/tokens.cpp:292-306 | erasing in place leaves exactly the tokens that are not commands without a name, in order |
| ShellParser.SyntaxValid | p4/tokens.cpp:308-335 | accepts exactly the empty list and Command (Op Command)* with an optional final Background, by structure and by position |
| ShellParser.ParseShellLine | p4/tokens.cpp:337-345 | returns the one answer to the line, as its reading says |
| KeyValueSpec.ExecRefinesMap | p6/worker_routines.cpp:145-189 | each command does to the packed records what it does to a map of at most 1024 entries, and replies what the map would |
| KeyValueSpec.ExecValid | p6/worker_routines.cpp:145-189 | keys stay unique and the number of records within 1024 |
| KeyValueSpec.KeptContents | p6/main_routines.cpp:315-336 | filtering the records removes from the map exactly the expired entries |
| KeyValueSpec.KeptInOrder | p6/main_routines.cpp:315-336 | and keeps the order of the others |
| KeyValueStore.Store.RunCommand | p6/worker_routines.cpp:134-196 | set maps the key to the data and succeeds unless the key is new and 1024 are stored; get changes nothing, succeeds exactly for a stored key and yields its data; any other word removes the key and nothing else and succeeds exactly for a stored key |
| KeyValueStore.Store.ShiftLeft | p5/worker_routines.cpp:139-143 | the shifting loop deletes one place and keeps the order of the rest |
| KeyValueStore.CleanOldEntries | p6/main_routines.cpp:306-341 | the sweep from the last record to the first leaves exactly the order-preserving filter of the records that are set for ever or not older than their time to live |
| KeyValueStore.DeadlineMeans | p6/main_routines.cpp:320-321 | an entry has expired exactly when it has a deadline and that is past |
| KeyValueStore.DeleteAsWrittenExactly | p6/worker_routines.cpp:178-188 | the delete as written removes the key and changes no stored field of another entry if and only if the records from its place on have the same times |
| KeyValueStore.DeleteSeenExactly | p6/worker_routines.cpp:178-188 | it removes the key and changes no value and no deadline of another entry, which is all that clients can see, if and only if the records from its place on share their deadline |
| KeyValueStore.DeleteShows | p6/worker_routines.cpp:178-188 | whatever is shown of entries, the delete as written shows the removal of the key and nothing else if and only if no later record shows another thing with the times of the record before it |
| KeyValueStore.DeleteAsWrittenFails | p6/worker_routines.cpp:180-183 | a store in which deleting one key makes another, set for ever, expire |
| KeyValueLock.MutualExclusion | p6/worker_routines.cpp:134-196 | in every run of any number of processes at most one is in the critical section, and all completed jobs have replied what a sequential store replies in lock order |
| KeyValueLock.Linearizable | p6/worker_routines.cpp:134-196 | in lock order every set, get and delete does to a map of at most 1024 entries what it should and replies what it would; a sweep in between removes exactly the entries expired by what is stored with them |
| KeyValueLock.RunLinearizes | p6/worker_routines.cpp:134-196 | every run is a run of a map of at most 1024 entries in lock order, beginning empty, with exact sweeps, and whenever nobody is in the critical section the shared array holds packed records with unique keys that stand for that map |
| KeyValueLock.Admits | p6/worker_routines.cpp:138-140 | whenever nobody is in the critical section, each waiting process can take the lock, with a POSIX semaphore and with a System V one |
| KeyValueLock.EveryJobCompletes | p6/worker_routines.cpp:134-196 | from every state of every run, each idle process can come with any job, and each waiting one can complete its job, with the sequential reply, after at most one other |
| KeyValueLock.RunsBegin | p6/main_routines.cpp:191-220 | runs begin, with any number of processes and any content of the unused memory |
| KeyValueLock.NextInv | p6/worker_routines.cpp:138-193 | every step of every process, one loop iteration at a time, keeps the invariant |
| KeyValueLock.WorksLocal | p6/worker_routines.cpp:145-189 | each step inside the critical section keeps what is known of the partly updated array |
| KeyValueLock.CanWork | p6/worker_routines.cpp:145-189 | the process in the critical section is never stuck before it gives the lock back |
| KeyValueLock.WorksEnd | p6/worker_routines.cpp:145-189 | each step in the critical section leaves fewer to come, down to giving the lock back, so every critical section ends |
| KeyValueLock.Variants | p5/worker_routines.cpp:87-157 | p5's store, and whole-record shifting, form the map with all data; p6 as written forms the map of values only |
| Dispatch.Conservation | p6/main_routines.cpp:269-304 | in every run each worker is in exactly one of five conditions (marked free, client in transit, serving, notification in transit, stranded), and each accepted client is closed, in transit or served |
| Dispatch.NoSecondClient | p6/main_routines.cpp:288-303 | no worker is handed or receives a client while it serves one or another is on its way to it |
| Dispatch.FreeWorkerServes | p6/main_routines.cpp:269-304 | any worker marked free can be handed any client, serve it and be marked free again, with nothing else changed |
| Dispatch.StrandedExactly | p6/worker_routines.cpp:302-317 | in every run the stranded workers are exactly those that have failed to register a client or to notify the master |
| Dispatch.StrandedForever | p6/worker_routines.cpp:302-317 | a stranded worker is never marked free again, whatever happens |
| Dispatch.FreeInThree | p6/worker_routines.cpp:302-318 | any other worker is at most three actions away from being marked free |
| Dispatch.FreeAgainExactly | p6/main_routines.cpp:407-417 | in every reachable state a worker can be marked free again if and only if it has never failed so |
| Dispatch.AWorkerStrands | p6/worker_routines.cpp:305-309 | a run of two actions, from the initial state, that strands a worker |
| Dispatch.NextTokens | p6/worker_routines.cpp:302-318 | every step of master and workers keeps each worker accounted for exactly once |
| Dispatch.NextClients | p6/main_routines.cpp:269-304 | every step keeps each accepted client accounted for |
| Dispatch.Master.ClientAccept | p6/main_routines.cpp:269-304 | refuses a client exactly when nobody is free; otherwise passes it to a worker marked free and marks only that one busy if the sending works, and closes it with nothing changed if not |
| Dispatch.Master.WorkerEvent | p6/main_routines.cpp:407-417 | marks exactly the worker with that descriptor free |

## Left out

- `Allocator::dump` (`p1/allocator.cpp:485`), which only prints.
- Raw addresses and C++ object lifetimes in p1: an address is an offset into one array of bytes, and a null base address, for which `get` would not tell a live handle from an invalid one, is excluded.
- A region of size 0, and the use of stale copies of a freed handle: both are excluded by precondition. With an empty free area the chunk loop of `moveToPreviousFree` would not progress.
- Handles of another allocator, beyond the check that refuses them.
- The handles' destructor and the allocation of the implementation structure are not modelled.
- The area list is a sequence whose elements carry their node's identity; list iterators are positions found from that identity.
- MergeAsWritten.AsWrittenSorts: goes one way. Whether each merge does its work is decided exactly (EveryMergeSortsExactly), and so is the last pass after passes that did (LastPassExactly); but the result can be sorted although a merge has failed, as StaleMayCoincide shows, namely when what it lost is not read again. Which inputs those are is not characterised.
- MergeSort.Merge: with the bound as written and a part 1 that ends beyond part 2's end, the last loop reads beyond part 2 and writes beyond the output; that call is excluded. In the program part 2 always begins at or after part 1's end.
- Timing, argument parsing, allocation failure and console output in p9.
- A step of a parallel iteration writes one element; reads and writes below that, and the memory model, are not modelled. They cannot interfere, since no iteration reads what another writes.
- `p4/shell.cpp`, and the destruction of tokens when parsing fails: exceptions are a failure result.
- Character encodings in p4: a line is a sequence of characters.
- Sockets, epoll, fork, signals, set-up and tear-down of shared memory, and the parsing of message texts in p5 and p6.
- The end of a worker or of the master, and what System V undo operations do then.
- The clock: `set` and the sweep take their time as a parameter, and its overflow is not modelled.
- Failures of `sem_wait`, `sem_post` and `semop`, which the program reports by an exception.
- Failures of `pass_fd_read` in a worker, which lose a descriptor, and of deregistering a client in `disconnect_client`, which leave it open.
- The copy of a passed descriptor that the master keeps open.
- The random draw among free workers: any choice is allowed.
- `p3`: asynchronous socket code over a library whose behaviour is not visible here.
- `p7`: mostly server input and output around one short scan.
- `p10` and `p11`: floating point on foreign runtimes.
- `p4/runlist.*`, `p5/keyvalue_sysv.cpp` and `p6/keyvalue_posix.cpp`: empty files or one-line entry points.

# Verified models of the NVM tools

This project models the algorithmic core of the deduplication benchmark tools and proves what they are for:

* the **insertion-ordered hash map** of `nvm_tools-J/helper/map.c` refines a finite map plus a sequence of keys, over
  every run, with every hash function, with and without the removable (tombstone) configuration;
* the **list sorts** on the same buckets: the merge sort's exact effect on the chain and exactly when it sorts, and
  the quicksort;
* the **trace replay** of `nvm_tools-J/helper/replay.c`: parallelising keeps every block's history, coalescing keeps
  the file and the dumped reads, together they fix what each block finally holds, whatever the random choices, and
  exactly which group sizes let the random choices leave a worker empty;
* the **copy scheduler** of `mcp/src/main.cpp`: Graham's bound for longest-first scheduling, attained for every number
  of threads;
* **MT19937** of `nvm_tools-J/helper/mt19937ar.c`: regeneration in place produces the linear recurrence of the
  Mersenne Twister (section 26.5.3.2 of ISO/IEC 14882:2011), in 32 bits;
* the **interference workload** of `nvm_tools-J/helper/rw_interference.cpp`: dup tasks write only prepared blocks, the
  others only fresh ones.

`dafny verify dfyconfig.toml` checks all files.

## How the code is modelled

A bucket pointer is a value, `Link`: null, the address of the map's `first` field (the alias that saves a branch), or
a slot of the table with a given allocation number. The table is an array that is updated in place, so during a resize
the chain really runs from the new table back into the old one. `removable` stands for the `__HASHMAP_REMOVABLE`
switch. Keys are an address with the bytes behind it, which do not change while the map refers to them; the hash
function is arbitrary. `hide` statements keep function bodies out of proofs that do not need them.

A trace record is identified by its position in the trace, as the containers' pointers do. The outcomes of `rand()`
are an argument, `draws`: `draws(g)` is what the call made for group g returns, if that call is made. The split is a
function of the group sizes and the draws, and the order of the groups is a function of the trace and the comparator,
so every statement about the plan is for all draws. The number of bytes a `pread` returns and the comparator are
unconstrained. A file is the sequence of its bytes. A worker without records makes the C program read out of bounds
(its sort calls with `size - 1`, unsigned); `PlanReplay` and `ReplayTrace` answer `None` exactly in that case. The
workers, which share nothing but the read-only trace, run one after the other; one generator object serves all of
them, since it is seeded anew for every piece of a block. The words of MT19937 are 64-bit vectors; the sum of a
seeding step is formed as a number and put back into a word, which loses nothing because it stays below 2^63
(`SeedSumFits`).

Five observations follow from the models:

* The replay does not always visit its groups "by lba". Two causes are told apart. First, the comparator returns the
  64-bit difference of two addresses as a 32-bit int. It is right about two addresses exactly if they are equal or
  their distance modulo 2^32 is between 1 and 2^31 - 1 (`AgreesExactly`): 2^31 apart each is less than the other, 2^32
  apart they are equal, 2^32 + 1 apart it is right again (`CutGoesWrong`). Addresses 0, 8 and 2^31 + 8, which occur in
  ascending order, are visited last first (`CutBreaksOrder`). Second, `hashmap_sort` need not sort even where the
  comparator is right: its first pass never moves anything, because with runs of one node the two content swaps cancel
  (`FirstPassIsIdle`), so addresses 16 and 8 are visited in falling order (`FallingPairStays`). For every comparator
  that orders the cells of the list, all passes are one merge of what they make of its two parts
  (`SortIsMergeOfHalves`), and the list comes out sorted if and only if those two runs are mergeable: heads in order
  and both sorted, or both sorted once heads and ends have changed places (`SortedExactly`). Where the comparator is
  right about a trace's addresses, this decides whether its groups are visited in ascending order
  (`VisitsAscendingExactly`); a guard on the first occurrences suffices for every number of addresses
  (`VisitsAscendingUnderGuard`), but is not necessary (`FallingTripleIsSorted`), and for two, three and four addresses
  the exact condition is on the addresses themselves. The replay needs only that the sort conserves the entries, which
  it does for every comparator (`PassesPermute`).
* The random choices can leave a worker without records. Three records of one address and one of another on two
  threads do it (`FirstWorkerStarves`). No outcome does if and only if the group sizes are `Safe`: giving groups to a
  worker until it has its quota reaches the last worker with something left for it, and no reachable state lets a
  group pass over a worker that has nothing (`NoneStarvesExactly`, `PlansExactly`). Such a group is one larger than
  the quota but not more than a hundred times as large (`SkipGuard`). Without groups of that kind only the first half
  matters (`ModerateSizesExactly`), and more than (threads - 1) * (per_thread_lines + largest - 1) records with no
  group above the quota are enough (`EnoughRecords`).
* A worker other than the last stays below `per_thread_lines` plus the size of its last group exactly if there are at
  least as many records as workers (`StaysBelow`, with the failing case in `TooFewRecords`).
* Filling a block stays within it only for some digests. Copies of the digest end with the block exactly for 1, 2, 4
  or 8 whole parts of 32 characters and run past it for 3, 5, 6 and 7 (`NullEndsExactly`); words also end with it for
  5, where pieces overlap, run past it for 3 and 7, and leave its last two bytes alone for 6 (`SeededEndsExactly`).
* Two digests can share a block. With the null generator the blocks are equal exactly if all eighths of the block come
  from equal parts of the digests (`DuplicateStructure`): for equally many whole parts, exactly if these parts agree
  (`SameLengthDuplicates`). So the last eight of forty characters are ignored (`TailIsIgnored`), and a digest of 32
  characters shares its block with its doubling (`DoublingIsDuplicate`).

## Files

| file | content |
|---|---|
| Basics.dfy | powers of two, products and permutations |
| Buckets.dfy | cells, links, probe paths, chains, entries as a finite map |
| ListSort.dfy, ListSortOrder.dfy, ListQuickSort.dfy | the sorts on the chain, and when the merge sort sorts |
| HashMap.dfy, HashMapRuns.dfy | the map class, and whole runs against the reference |
| Trace.dfy, Grouping.dfy, Visiting.dfy, LbaOrder.dfy, Splitting.dfy, Starvation.dfy, ArraySort.dfy, Hints.dfy | the replay planner's stages |
| Blocks.dfy, Replay.dfy, Effects.dfy, Planner.dfy, Outcomes.dfy | block contents, one worker's replay and its effect on the bytes, the whole tool, what it leaves on disk |
| Scheduler.dfy, SchedulerTight.dfy | longest-first scheduling and its worst case |
| Words.dfy, MersenneTwister.dfy, TwisterLaws.dfy | numbers as 64-bit words, the generator, and what it computes |
| Interference.dfy | the interference workload |

## Model

| member | source | states |
|---|---|---|
| HashMapRuns.Run | nvm_tools-J/helper/map.c:17-491 | every sequence of set, set_free, get_set, get, remove, size and iterate on a new map gives the answers of a finite map with its keys in insertion order, for every hash function and both configurations, across all resizes |
| HashMapRuns.Execute | nvm_tools-J/helper/map.c:186-491 | one operation moves the map as the reference moves and answers as it answers |
| HashMapRuns.SetView | nvm_tools-J/helper/map.c:186-206 | set and set_free are an update of the finite map; set keeps the stored key pointer, set_free replaces it |
| HashMapRuns.GetSetView | nvm_tools-J/helper/map.c:347-371 | get_set adds to the finite map only when the key is absent |
| HashMapRuns.DropView | nvm_tools-J/helper/map.c:419-434 | removal deletes the key from the finite map and from the insertion sequence |
| HashMapRuns.ListingIsEntries | nvm_tools-J/helper/map.c:465-491 | the entries in chain order are the keys in insertion order with their values in the map |
| HashMapRuns.AnswersAfter | nvm_tools-J/helper/map.c:347-452 | asking for a key gives what was last set, nothing after a removal, and after get_set what was there before, if anything |
| HashMapRuns.OthersKept | nvm_tools-J/helper/map.c:186-491 | no command changes the answer for another key |
| HashMapRuns.SizesAfter | nvm_tools-J/helper/map.c:455-463 | the size grows with new keys only and shrinks with removed ones only |
| HashMapRuns.PointersAfter | nvm_tools-J/helper/map.c:373-452 | set keeps the stored key pointer, set_free replaces it, and callbacks are handed what was stored |
| HashMapRuns.ListedAfter | nvm_tools-J/helper/map.c:465-491 | a new key is visited last; writing a known key changes no place |
| HashMaps.HashMap.constructor | nvm_tools-J/helper/map.c:17-35 | a new map is valid, empty, has capacity 20 and `last` aliasing `first` |
| HashMaps.HashMap.FindEntry | nvm_tools-J/helper/map.c:141-184 | the probe ends, at the bucket with the key or else at an empty bucket with the path to it in use and the key nowhere in the table |
| HashMaps.HashMap.Get | nvm_tools-J/helper/map.c:405-414 | returns whether the key is present and its value, or 0 |
| HashMaps.HashMap.Set | nvm_tools-J/helper/map.c:186-206 | keeps the invariant; overwrites the key's value or appends the entry |
| HashMaps.HashMap.GetSet | nvm_tools-J/helper/map.c:347-371 | keeps the invariant; returns the stored value, appending only if the key is absent |
| HashMaps.HashMap.SetFree | nvm_tools-J/helper/map.c:373-403 | keeps the invariant; the callback gets the overwritten entry and the new key pointer is stored |
| HashMaps.HashMap.Remove | nvm_tools-J/helper/map.c:419-452 | keeps the invariant with a tombstone in place of the entry; the callback gets the removed entry |
| HashMaps.HashMap.Size | nvm_tools-J/helper/map.c:455-463 | count less tombstones is the cardinality of the finite map |
| HashMaps.HashMap.Iterate | nvm_tools-J/helper/map.c:465-491 | the callback is called for every live entry once, in insertion order |
| HashMaps.HashMap.Resize | nvm_tools-J/helper/map.c:61-96 | doubles the capacity, drops exactly the tombstones, keeps entries, insertion order and the probe-path invariant |
| HashMaps.HashMap.ResizeEntry | nvm_tools-J/helper/map.c:44-59 | copies a bucket, with its link, into the first free slot of its probe path |
| HashMaps.HashMap.MoveNext | nvm_tools-J/helper/map.c:78-93 | one resize step keeps the state in which the list's prefix is in the new table and its suffix in the old one |
| HashMaps.HashMap.EnsureRoom | nvm_tools-J/helper/map.c:188-189 | the table doubles exactly if one more entry would exceed three quarters of the capacity; afterwards it fits, and the entries are unchanged |
| HashMaps.HashMap.Append | nvm_tools-J/helper/map.c:193-204 | hooking a filled bucket behind `last` keeps the invariant and appends one entry |
| HashMaps.HashMap.Overwrite | nvm_tools-J/helper/map.c:398-402 | overwriting a live bucket keeps the invariant and replaces, or drops, exactly its entry |
| HashMaps.HashMap.SetNext | nvm_tools-J/helper/map.c:30-33 | writing through the alias of `first` or through a bucket changes that link only |
| HashMaps.HashMap.Sort | nvm_tools-J/helper/map.c:342-345 | the chain stays acyclic and null-terminated over the same slots, its cells are those the pass function gives, and cells and entries are permuted |
| HashMaps.CapacityIsPower | nvm_tools-J/helper/map.c:12-14 | a valid capacity is 20 times a power of two |
| HashMaps.TableInsert | nvm_tools-J/helper/map.c:191-203 | inserting at the end of the probe path keeps every other key reachable |
| HashMaps.TableOverwrite | nvm_tools-J/helper/map.c:424-430 | a tombstone keeps all probe paths intact |
| HashMaps.MovingTake | nvm_tools-J/helper/map.c:91-92 | copying the next live node and relinking it keeps the mid-resize state |
| HashMaps.MovingSkip | nvm_tools-J/helper/map.c:80-88 | unlinking a tombstone keeps the mid-resize state |
| HashMaps.MovingEnd | nvm_tools-J/helper/map.c:93-95 | when the list is exhausted, the new table is well formed and holds the old entries in order |
| HashMaps.LivePermuted | nvm_tools-J/helper/map.c:342-345 | permuted cells have permuted live entries |
| Buckets.ProbeDecides | nvm_tools-J/helper/map.c:145-183 | an empty slot that ends the probe proves the key absent from the whole table |
| Buckets.EmptySlot | nvm_tools-J/helper/map.c:143-183 | a table with more slots than chain nodes has an empty slot, so every probe ends |
| Buckets.LiveUpdate | nvm_tools-J/helper/map.c:398-402 | overwriting one cell of the chain replaces, or drops, one entry and no other |
| Buckets.MapSize | nvm_tools-J/helper/map.c:455-463 | with unique keys the number of entries is the cardinality of the map |
| ListSort.MergeSort | nvm_tools-J/helper/map.c:288-340 | for every comparator the final chain visits the same slots once and ends in null, and its cells are exactly `Passes` of the old ones, a permutation |
| ListSort.MergePass | nvm_tools-J/helper/map.c:299-338 | one pass over the chain has the effect `Pass` and repairs all links |
| ListSort.MergeNext | nvm_tools-J/helper/map.c:300-337 | one iteration merges the next two runs and hooks them behind the merged part, whose last link may dangle |
| ListSort.MergePair | nvm_tools-J/helper/map.c:307-326 | finds two runs of at most `gap` nodes and merges them, unless there is only one |
| ListSort.Merge | nvm_tools-J/helper/map.c:255-286 | merging two neighbouring runs visits their slots once, from the same first node, with the cells `MergeRuns` gives, and touches nothing else |
| ListSort.Interleaving | nvm_tools-J/helper/map.c:268-285 | the splicing loop terminates and leaves the interleaving of the two runs |
| ListSort.CloseRun | nvm_tools-J/helper/map.c:282-285 | the rest of the second run is hooked on, or the end of the first run becomes the end |
| ListSort.SwapEnds | nvm_tools-J/helper/map.c:262-266 | first cells and last cells of the runs change places when the first compare greater |
| ListSort.SwapBucket | nvm_tools-J/helper/map.c:208-222 | swaps the contents of two buckets and no link |
| ListSort.Walk | nvm_tools-J/helper/map.c:308-320 | stops gap - 1 nodes further on or at the end of the chain |
| ListSort.PassesPermute | nvm_tools-J/helper/map.c:288-340 | for every comparator the sort conserves the multiset of cells |
| ListSort.FirstPassIsIdle | nvm_tools-J/helper/map.c:263-266 | with gap 1 no pass changes anything, for every comparator |
| ListSort.PairStaysUnsorted | nvm_tools-J/helper/map.c:342-345 | at most two entries keep their order, sorted or not |
| ListSortOrder.SortIsMergeOfHalves | nvm_tools-J/helper/map.c:288-340 | for every comparator and length, all passes together are one merge of the sorts of the first 2^j entries, 2^j the last gap, and of the others |
| ListSortOrder.SortedExactly | nvm_tools-J/helper/map.c:288-340 | for every list and every comparator that orders its cells, the result is sorted if and only if the two sorted parts are mergeable |
| ListSortOrder.MergeSortedExactly | nvm_tools-J/helper/map.c:255-286 | a merge yields a sorted run if and only if heads are in order and both runs sorted, or both are sorted after heads and ends changed places |
| ListSortOrder.InterleaveSortedExactly | nvm_tools-J/helper/map.c:268-285 | the splicing loop yields a sorted run if and only if both runs are sorted and their heads in order |
| ListSortOrder.SortsUnderGuard | nvm_tools-J/helper/map.c:263-266 | if at every gap the heads of neighbouring runs are in order, so that the exchange never fires, a list whose cells the comparator orders comes out sorted |
| ListSortOrder.SortedStays | nvm_tools-J/helper/map.c:288-340 | a sorted list stays as it is |
| ListSortOrder.ThreeComeOut | nvm_tools-J/helper/map.c:342-345 | for every comparator, the order in which three entries come out |
| ListSortOrder.PairSortedExactly | nvm_tools-J/helper/map.c:342-345 | two entries come out sorted if and only if they were |
| ListSortOrder.ThreeSortedExactly | nvm_tools-J/helper/map.c:342-345 | three entries come out sorted if and only if the second is not below both others |
| ListSortOrder.FourSortedExactly | nvm_tools-J/helper/map.c:342-345 | four entries come out sorted if and only if both pairs were sorted |
| ListQuickSort.QuickSort | nvm_tools-J/helper/map.c:224-242 | under any comparator that preorders the segment's cells the half-open segment is sorted and permuted; links and everything outside are unchanged |
| ListQuickSort.Partition | nvm_tools-J/helper/map.c:229-239 | the pivot ends between the smaller cells and the others, contents permuted, links unchanged |
| ListQuickSort.JoinSorted | nvm_tools-J/helper/map.c:239-241 | sorting both sides of the pivot sorts the segment |
| Grouping.BuildTraceContainers | nvm_tools-J/helper/replay.c:542-560 | through the hash map, each address gets one container with exactly its records in trace order, the containers in the order of first occurrence |
| Grouping.AddRecord | nvm_tools-J/helper/replay.c:551-558 | adding one record keeps the grouping of the records before it |
| Grouping.SameKeySameLba | nvm_tools-J/helper/replay.c:552-556 | the eight key bytes determine the address |
| Grouping.FetchedPartition | nvm_tools-J/helper/replay.c:594-598 | in whatever order the list visits the entries, their containers partition the trace by address |
| Visiting.GroupTrace | nvm_tools-J/helper/replay.c:542-598 | building, sorting and visiting the map gives the groups in the order in which the sort leaves the first occurrences, and they partition the trace by address |
| Visiting.ChainIsList | nvm_tools-J/helper/replay.c:542-560 | the map's chain lists the first occurrence of every address, in trace order |
| Visiting.FetchedAre | nvm_tools-J/helper/replay.c:594-598 | the containers behind the visited entries are the groups of the visited keys |
| Visiting.VisitedNotEmpty | nvm_tools-J/helper/replay.c:594-598 | no visited group is empty |
| LbaOrder.AgreesExactly | nvm_tools-J/helper/replay.c:562-567 | the comparator's verdicts on two addresses are those of the addresses if and only if they are equal or their distance modulo 2^32 is 1 to 2^31 - 1 |
| LbaOrder.CutGoesWrong | nvm_tools-J/helper/replay.c:562-567 | addresses 2^31 apart are each less than the other, 2^32 apart equal, 2^32 + 1 apart right |
| LbaOrder.OrdersByAddress | nvm_tools-J/helper/replay.c:562-567 | right about every pair of a set of cells, the comparator orders them, by address |
| LbaOrder.CloseTraceAgrees | nvm_tools-J/helper/replay.c:562-567 | it is right about all addresses of a trace that are less than 2^31 apart |
| LbaOrder.VisitedAre | nvm_tools-J/helper/replay.c:594-598 | for every comparator, groups are visited by ascending address if and only if the list comes out so |
| LbaOrder.VisitsAscendingExactly | nvm_tools-J/helper/replay.c:594-598 | where the comparator is right about the trace's addresses, groups are visited in ascending order if and only if the two sorted parts of the list are mergeable |
| LbaOrder.VisitsAscendingUnderGuard | nvm_tools-J/helper/replay.c:594-598 | there, first occurrences whose runs start in address order at every gap are visited in ascending order |
| LbaOrder.TwoVisitAscendingExactly | nvm_tools-J/helper/replay.c:594-598 | two addresses, whatever they are, are visited in ascending order if and only if they occur so |
| LbaOrder.ThreeVisitAscendingExactly | nvm_tools-J/helper/replay.c:594-598 | three are if and only if the second to occur is not below both others |
| LbaOrder.FourVisitAscendingExactly | nvm_tools-J/helper/replay.c:594-598 | four are if and only if both pairs occur in ascending order |
| LbaOrder.FallingPairStays | nvm_tools-J/helper/replay.c:594-598 | a trace with addresses 16 and 8 is visited in falling order |
| LbaOrder.FallingTripleIsSorted | nvm_tools-J/helper/replay.c:594-598 | a trace with addresses 24, 16 and 8 is visited in ascending order although the guard fails |
| LbaOrder.CutBreaksOrder | nvm_tools-J/helper/replay.c:562-567 | a trace with addresses 0, 8 and 2^31 + 8 is visited last first |
| Splitting.SplitGroups | nvm_tools-J/helper/replay.c:570-623 | for every random outcome the workers are what the turns hand out: a group starts the next worker if one remains, the group overshoots the quota and draw mod 100, plus one, hundredths of the group are no more than what is missing; a worker that reaches the quota is done unless it is the last |
| Splitting.SplitIsHandedOut | nvm_tools-J/helper/replay.c:596-623 | the split of every outcome follows these turns and no other |
| Splitting.MovesExactly | nvm_tools-J/helper/replay.c:599-608 | a group starts the next worker if and only if a later one remains, size + lines > per and (draw mod 100 + 1) * size <= (per - lines) * 100 |
| Splitting.HundredDraws | nvm_tools-J/helper/replay.c:601-604 | of any hundred consecutive values of rand() exactly floor(100 * (per - lines) / size) do so |
| Splitting.TurnEndsExactly | nvm_tools-J/helper/replay.c:599-622 | a turn ends if and only if the draw moves on or the worker's records reach the quota, never for the last worker, and the count starts anew |
| Splitting.SplitIsFair | nvm_tools-J/helper/replay.c:570-623 | for every random outcome, workers hold consecutive whole groups, and every worker but the last had fewer than per_thread_lines records before its last group |
| Splitting.Percentage | nvm_tools-J/helper/replay.c:601-604 | the subtraction does not underflow and the percentage is the floor of the quotient, below 100 |
| Splitting.SplitConserves | nvm_tools-J/helper/replay.c:596-623 | the workers laid end to end are the groups laid end to end |
| Splitting.StaysBelow | nvm_tools-J/helper/replay.c:577-622 | a worker but the last holds fewer than per_thread_lines plus its last group's size if and only if there are at least as many records as workers |
| Splitting.TooFewRecords | nvm_tools-J/helper/replay.c:577-622 | for every outcome, one record for two workers goes to the first, which reaches that sum, and leaves the second empty |
| Splitting.NonEmptyNeedsGroups | nvm_tools-J/helper/replay.c:596-635 | workers can all have records only if there are as many addresses |
| Starvation.NoneStarvesExactly | nvm_tools-J/helper/replay.c:596-623 | for all group sizes, thread counts and quotas: no random outcome leaves a worker without a group if and only if the sizes are safe |
| Starvation.SplitNeverStarvesExactly | nvm_tools-J/helper/replay.c:596-623 | the same of the records each worker gets |
| Starvation.LazyIsLeast | nvm_tools-J/helper/replay.c:599-622 | after every group, every outcome is at least as far as the outcome that never starts the next worker early |
| Starvation.SkipStarves | nvm_tools-J/helper/replay.c:599-608 | a worker passed over before it has a group stays empty |
| Starvation.SkipHappens | nvm_tools-J/helper/replay.c:599-608 | every reachable chance to pass over an empty worker is taken by some outcome |
| Starvation.SkipGuard | nvm_tools-J/helper/replay.c:601-604 | an empty worker can be passed over exactly by a group larger than the quota and at most a hundred times as large |
| Starvation.ModerateSizesExactly | nvm_tools-J/helper/replay.c:596-623 | without such groups, no outcome leaves a worker empty if and only if filling each up to the quota reaches the last with a group left |
| Starvation.FrontStarves | nvm_tools-J/helper/replay.c:599-608 | such a group at the front can leave the first of several workers empty |
| Starvation.EnoughRecords | nvm_tools-J/helper/replay.c:577-623 | no group above the quota and more than (threads - 1) * (quota + largest - 1) records: no outcome leaves a worker empty |
| Starvation.FirstWorkerStarves | nvm_tools-J/helper/replay.c:599-608 | groups of three and one on two workers: drawing 0 leaves the first empty |
| Splitting.ParallelKeepsHistory | nvm_tools-J/helper/replay.c:570-635 | for every trace, split and visiting order: no record is lost, an address belongs to one worker, and its records are in order of time and trace position there |
| Splitting.HistoryOfBlock | nvm_tools-J/helper/replay.c:570-635 | the records of an address in its worker are its history, the one sequence of all its records ordered by time and trace position; other workers have none |
| Splitting.SortedHistory | nvm_tools-J/helper/replay.c:318-336 | sorting a container by time puts each address's records into history order |
| ArraySort.SortContainer | nvm_tools-J/helper/replay.c:330-336 | sorts a non-empty container in place |
| ArraySort.SortRange | nvm_tools-J/helper/replay.c:318-328 | the recursive sort changes only its range, to `SortedByTs` of it |
| ArraySort.MergeArray | nvm_tools-J/helper/replay.c:283-316 | merges two neighbouring runs through the buffer, left run first on ties |
| ArraySort.MergeFront | nvm_tools-J/helper/replay.c:290-300 | the first loop moves the smaller head until one run is used up |
| ArraySort.Drain | nvm_tools-J/helper/replay.c:302-310 | appends what is left of a run |
| ArraySort.CopyBack | nvm_tools-J/helper/replay.c:312-315 | the buffer replaces the range and nothing else |
| ArraySort.SortPermutes | nvm_tools-J/helper/replay.c:318-328 | the sort permutes |
| ArraySort.SortStable | nvm_tools-J/helper/replay.c:283-328 | the result is sorted, and any relation that held in order between records of equal time still does |
| Hints.ExtractHints | nvm_tools-J/helper/replay.c:636-675 | the hints tile the container, at most one per record, after those of earlier workers: addresses of a hint rise by 8 in one direction within the cap, and it ends with the container, at the cap, or before a record that is not 8 higher or goes the other way; the largest hint is returned |
| Hints.AdjacentExactly | nvm_tools-J/helper/replay.c:645-648 | two records are adjacent if and only if they go the same way and the second address is 8 higher, modulo 2^64 |
| Hints.AdjacentByAddress | nvm_tools-J/helper/replay.c:645-648 | with byte offsets below 2^63, if and only if it is 8 higher |
| Hints.TilesByAddress | nvm_tools-J/helper/replay.c:642-671 | tilings in terms of the addresses themselves |
| Hints.TilesUnique | nvm_tools-J/helper/replay.c:642-671 | the tiling is determined by container and cap |
| Hints.TilesCount | nvm_tools-J/helper/replay.c:951-951 | there are no more hints than records |
| Hints.AdjacentStep | nvm_tools-J/helper/replay.c:645-648 | the unsigned difference 8 means an address 8 higher |
| Blocks.FillAll | nvm_tools-J/helper/replay.c:120-147 | for every digest of one to eight whole parts, with any tail, stores exactly the bytes up to the end of its stores, each that of the last piece reaching it, for null and seeded generators |
| Blocks.FillBlk | nvm_tools-J/helper/replay.c:120-147 | where the stores end with the block, writes exactly its 4096 bytes, a function of the digest alone |
| Blocks.NullEndsExactly | nvm_tools-J/helper/replay.c:122-136 | copies end with the block if and only if there are 1, 2, 4 or 8 parts; otherwise they run past it |
| Blocks.SeededEndsExactly | nvm_tools-J/helper/replay.c:137-145 | words end with the block if and only if there are 1, 2, 4, 5 or 8 parts; 3 and 7 run past it, 6 end two bytes short |
| Blocks.FillPieceNull | nvm_tools-J/helper/replay.c:130-136 | a piece repeats its 32 digest characters |
| Blocks.FillPieceSeeded | nvm_tools-J/helper/replay.c:137-145 | a piece holds the words that follow its seed, low byte first |
| Blocks.DuplicateStructure | nvm_tools-J/helper/replay.c:120-136 | blocks of the null generator are equal if and only if the digests' parts agree for every eighth of the block, whatever their lengths |
| Blocks.SameLengthDuplicates | nvm_tools-J/helper/replay.c:120-136 | for equally many whole parts, blocks are equal if and only if these parts are |
| Blocks.TailIsIgnored | nvm_tools-J/helper/replay.c:122-128 | digests of 40 characters that differ in the last eight only share a block |
| Blocks.DoublingIsDuplicate | nvm_tools-J/helper/replay.c:122-136 | a digest of 32 characters shares its block with its doubling |
| Blocks.RandGener.FeedSeed | nvm_tools-J/helper/replay.c:77-108 | seeding restarts the generator's stream, also of a Mersenne Twister state that has never been initialised |
| Blocks.RandGener.GenRandom | nvm_tools-J/helper/replay.c:77-108 | call n after seeding gives word n of the stream, which for `mt19937ar` is output n of the recurrence |
| Blocks.MtPieceByte | nvm_tools-J/helper/replay.c:137-145 | with `mt19937ar`, byte r of a piece is byte r mod 4, low byte first, of output r / 4 after seeding with the part's first four characters |
| Blocks.SeededBlockWords | nvm_tools-J/helper/replay.c:137-145 | read low byte first, word j of a piece in the block is word j of the stream that follows the part's first four characters read the same way |
| Blocks.SeedIs | nvm_tools-J/helper/replay.c:139-139 | the seed is the number whose bytes, low byte first, are the part's first four characters |
| Blocks.SeedsAndWords | nvm_tools-J/helper/replay.c:78-86 | seeds and outputs keep their value modulo 2^32 on the way into and out of 64-bit words |
| Replay.ReplayWorker | nvm_tools-J/helper/replay.c:434-515 | in all three modes the loops leave the file and dump of one request per hint |
| Replay.FillRun | nvm_tools-J/helper/replay.c:441-448 | the buffer holds the blocks of the hint's records |
| Replay.ReadRun | nvm_tools-J/helper/replay.c:494-508 | for every pattern of short reads the buffer holds the file's bytes, then zeros |
| Replay.CoalescingPreserves | nvm_tools-J/helper/replay.c:434-515 | for every container, cap, mode and file, with fillable digests on the records that are written, hints leave the same file and dump as serving each record alone at lba * 512 |
| Replay.RunIsEach | nvm_tools-J/helper/replay.c:449-450 | one request for a run equals its records one by one |
| Effects.EachReplays | nvm_tools-J/helper/replay.c:434-515 | serving records one by one: appending puts their blocks behind the file in order; otherwise every byte is that of the last written block over it or the initial file's, in read-write mode counting records marked 'W' only, the length is that of the furthest write, and the dump is, 4 KiB per other record, what the records before it left at its address |
| Effects.AppendStep | nvm_tools-J/helper/replay.c:452-471 | one appended block lands behind all earlier ones, wherever its address is |
| Effects.WriteStep | nvm_tools-J/helper/replay.c:434-451 | one written block replaces the bytes at lba * 512 and no others |
| Effects.DumpStep | nvm_tools-J/helper/replay.c:491-514 | one read dumps what the records before it left at its address |
| Planner.RunWorker | nvm_tools-J/helper/replay.c:434-515 | a worker's hints have that effect on its file and dump |
| Planner.PlanReplay | nvm_tools-J/helper/replay.c:570-729 | for every trace, thread count, cap and random outcome: no plan exactly if the outcome's split leaves a worker empty, never if the sizes are safe; otherwise each container is its share of the split sorted by time, history is kept, every container is tiled by maximal runs of addresses 8 apart, all hints fit the shared array and every request fits its buffer |
| Planner.PlansExactly | nvm_tools-J/helper/replay.c:570-635 | every random outcome gives every worker records if and only if the sizes of the trace's groups are safe |
| Planner.AssignWorkers | nvm_tools-J/helper/replay.c:631-681 | sorting and hint extraction of all workers stay within one hint per record |
| Planner.WorkersSize | nvm_tools-J/helper/replay.c:577-623 | the workers' sizes add up to the number of records |
| Planner.ReplayTrace | nvm_tools-J/helper/replay.c:948-969 | no result exactly if the outcome's split leaves a worker empty, never if the sizes are safe; otherwise, with every generator, MT19937 included, each worker's file and dump hold, byte by byte, what its share, sorted by time, leaves there, with every block's history kept |
| Outcomes.ByteIsLastCover | nvm_tools-J/helper/replay.c:434-515 | overlapping addresses or not, every byte of a worker's file is that of its last record covering the byte, or the initial file's |
| Outcomes.ContentIsLastWrite | nvm_tools-J/helper/replay.c:434-515 | a block that no other address overlaps reads as its last write |
| Outcomes.BlockOutcome | nvm_tools-J/helper/replay.c:948-969 | after the replay such a block reads as its newest write by time and trace position, in the one file that has it, whatever threads, cap and random choices were |
| Outcomes.ByteOutcome | nvm_tools-J/helper/replay.c:948-969 | overlap or not: a byte reads as its newest cover in the file that has that record, whatever threads, cap and random choices were, if covers by other addresses are older |
| Outcomes.OverlapDependsOnDraws | nvm_tools-J/helper/replay.c:596-623 | a trace whose address 0 is half covered by a newer write to address 4: two random outcomes leave different bytes there, in the file of the worker that has address 0 |
| CopyScheduler.AssignWork | mcp/src/main.cpp:203-219 | the assignment is greedy, heap loads are the threads' sums, every file's descriptors, source first, stand once in its thread's list in order, and no load exceeds (4m-1)/3m of any other plan's busiest load |
| CopyScheduler.PlaceNext | mcp/src/main.cpp:213-219 | one iteration gives the file to the least loaded thread and keeps the loop state |
| CopyScheduler.Top | mcp/src/main.cpp:204-215 | the heap's top is the least pair of load and thread |
| CopyScheduler.LongestFirstBound | mcp/src/main.cpp:45-47 | Graham's bound 3mL <= (4m-1)C against every assignment, for every descending size list and m >= 1 |
| CopyScheduler.BoundForAnyPlan | mcp/src/main.cpp:203-219 | the bound holds against plans for the files in the order they were found |
| SchedulerTight.BoundIsAttained | mcp/src/main.cpp:203-219 | for every m there are 2m + 1 files on which the greedy assignment reaches 4m - 1 where another plan needs 3m |
| CopyScheduler.LargeFileFits | mcp/src/main.cpp:213-219 | a file larger than a third of the best busiest load is placed within it |
| CopyScheduler.AverageBound | mcp/src/main.cpp:213-219 | the load a file meets, times m, plus the file, is at most m times any plan's busiest load |
| CopyScheduler.LoadsConserve | mcp/src/main.cpp:213-219 | the loads add up to the sizes handed out |
| CopyScheduler.SpreadBound | mcp/src/main.cpp:213-219 | largest and smallest load never differ by more than the largest file |
| MersenneTwister.State.InitGenrand | nvm_tools-J/helper/mt19937ar.c:56-69 | whatever the state held, it holds words 0 to 623 of the sequence of the seed |
| MersenneTwister.State.Regenerate | nvm_tools-J/helper/mt19937ar.c:113-122 | in place, the window of 624 words becomes the next one |
| MersenneTwister.State.GenrandInt32 | nvm_tools-J/helper/mt19937ar.c:101-136 | call n after seeding returns the tempered word 624 + n, below 2^32; an unseeded state uses 5489 |
| MersenneTwister.Draw | nvm_tools-J/helper/mt19937ar.c:139-192 | for every seed and n, the first n outputs are those of the recurrence |
| MersenneTwister.MoveOne | nvm_tools-J/helper/mt19937ar.c:113-122 | one step is right although wrapped-around neighbours have already been overwritten |
| MersenneTwister.WordsFit | nvm_tools-J/helper/mt19937ar.c:56-69 | every word of the sequence fits into 32 bits of its 64-bit variable |
| MersenneTwister.OutputsFit | nvm_tools-J/helper/mt19937ar.c:129-135 | so does every output |
| TwisterLaws.StepLinear | nvm_tools-J/helper/mt19937ar.c:113-122 | a step of the recurrence commutes with exclusive or |
| TwisterLaws.StepMatrix | nvm_tools-J/helper/mt19937ar.c:45-50 | its matrix: the far word as it is, the old word's top bit to bit 30, the next word's lowest bit to 0x9908b0df |
| TwisterLaws.StepOnBits | nvm_tools-J/helper/mt19937ar.c:113-122 | every other bit of the next word moves down by one place |
| TwisterLaws.StepDistances | nvm_tools-J/helper/mt19937ar.c:113-122 | word k + 624 comes from words k + 397, k and k + 1 |
| TwisterLaws.TemperLinear | nvm_tools-J/helper/mt19937ar.c:129-133 | the tempering commutes with exclusive or |
| TwisterLaws.TemperLowBits | nvm_tools-J/helper/mt19937ar.c:129-133 | its values on the bits 0 to 15 |
| TwisterLaws.TemperHighBits | nvm_tools-J/helper/mt19937ar.c:129-133 | its values on the bits 16 to 31 |
| TwisterLaws.TemperInvertible | nvm_tools-J/helper/mt19937ar.c:129-133 | on 32-bit words it has an inverse |
| TwisterLaws.SeedArithmetic | nvm_tools-J/helper/mt19937ar.c:56-69 | seed word k + 1 is 1812433253 times word k xored with its top two bits, plus k + 1, modulo 2^32 |
| TwisterLaws.SeedSumFits | nvm_tools-J/helper/mt19937ar.c:56-69 | the sum does not wrap around in 64 bits |
| TwisterLaws.SeedStart | nvm_tools-J/helper/mt19937ar.c:56-69 | word 0 is the seed modulo 2^32 |
| TwisterLaws.KnownSeed | nvm_tools-J/helper/mt19937ar.c:104-107 | the default seed 5489 is followed by 1301868182 and 2938499221 |
| Interference.MakeTasks | nvm_tools-J/helper/rw_interference.cpp:42-117 | readers get ranges from 0 on and writers from the total on, each range beginning where the one before it ends, numbered in order; with both kinds the tasks of the measured one share out the q blocks with 4q <= total < 4q + 4 and the others total - q, a kind alone shares out the total; no plan exactly if the 32-bit count is zero |
| Interference.MeasuredFinishFirst | nvm_tools-J/helper/rw_interference.cpp:61-68 | with equally many readers and writers a measured task has no more blocks than the others |
| Interference.MakeFile | nvm_tools-J/helper/rw_interference.cpp:135-151 | every whole word of a block is the block's own magic number; bytes behind the last word are those the buffer was allocated with, the same in every block |
| Interference.PrepareWorkload | nvm_tools-J/helper/rw_interference.cpp:160-175 | the prepare stage writes each magic below the total number of task blocks once, in order, with the tail of the file it is in |
| Interference.DupExactly | nvm_tools-J/helper/rw_interference.cpp:78-109 | for all counts and totals a block's magic is prepared exactly if its writer is a dup task |
| Interference.RangesDisjoint | nvm_tools-J/helper/rw_interference.cpp:78-109 | the magic ranges of different tasks do not meet |
| Interference.BlockPrepared | nvm_tools-J/helper/rw_interference.cpp:135-175 | with at least one word per block, a block's content is among the prepared ones if and only if a dup task writes it and its bytes behind the last word are those of the prepared file with the task's number |
| Interference.WholeWordsPrepared | nvm_tools-J/helper/rw_interference.cpp:135-175 | with a granularity that is a multiple of 8, if and only if a dup task writes it |

## Left out

- HashMaps.HashMap.Sort: promises the exact result instead of a sorted order, which the code does not always produce, and no lookups afterwards, because contents move between buckets.
- HashMaps.HashMap.EnsureRoom: the comparison is exact; in C `count + 1` is rounded to binary32 beyond 2^24 entries, and `capacity` overflows `int` beyond 20 * 2^26.
- Interference.MakeTasks: the quarter is `total / 4`; the product with 1.0 / 4.0 may round beyond 2^53 blocks.
- MersenneTwister.State.GenrandInt32: one class stands for the static variables and for the reentrant struct, whose functions have the same bodies.
- Blocks.FillBlk: a digest without a whole part divides by zero in the code and is excluded, and so are those whose stores do not end with the block (`NullEndsExactly`, `SeededEndsExactly`); `FillAll` says what these store. A record's field has room for eight parts.
- Outcomes.BlockOutcome: speaks of addresses that no other address overlaps; `ByteOutcome` covers overlaps with older writes. Where a write of another address is not older, the random choices decide (`OverlapDependsOnDraws`), and `ByteIsLastCover` says what each file holds.
- Interference.BlockPrepared: a granularity below 8, where a block has no magic number at all, is left out.
- The array quicksort by timestamp, whose call is commented out, and the growth of containers by doubling.
- The bodies of hash_data, lcg.c and rand_r: only their determinism matters here.
- Wrap-around of 64-bit sums of file sizes, and byte offsets of 2^63 and more.
- Descriptors, directory walking, threads and their timing, option and trace parsing, path building and printing.
- Allocation failure and freeing of memory.
- init_by_array and the floating-point generators, which the header does not expose.
- The remaining helper programs, scripts, notebooks and result tables, which have no algorithm to speak of.

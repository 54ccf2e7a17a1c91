# Proofs about the C exercises

Nine of the exercises contain an algorithm or a protocol of their own.  This project models them in
Dafny 4.11 and proves what they are for.  `dafny verify dfyconfig.toml` checks everything.

| file | exercise | what it is about |
|---|---|---|
| `RingBuffer.dfy`, `BoundedQueue.dfy` | 24, threads | the ring buffer as a class, and the producer/consumer protocol around it as a machine of single steps: mutex owner, two wait sets, a program counter per thread, spurious wakeups |
| `TreiberStack.dfy`, `TreiberReuse.dfy`, `Spinlock.dfy` | 29, atomics | the lock-free stack as single loads, writes and weak compare-and-swaps over a heap of nodes, and a run that breaks it when a node is pushed again; the spinlock around a plain counter |
| `SortSpec.dfy`, `SimpleSorts.dfy`, `MergeSort.dfy`, `QuickSort.dfy`, `AllSorts.dfy` | 17, sorting | the five sorts on arrays of elements with a key (the `int` of the source) and a tag that tells equal keys apart, with ghost counters for swaps, shifts and comparisons |
| `HashMap.dfy` | 18, hash table | buckets, chains and relinking in place, against a finite map; load and amortised cost |
| `NewtonSqrt.dfy` | 20, error handling | the integer square root by 20 rounds of Newton's iteration |
| `BinarySearchTree.dfy`, `TreeShapes.dfy` | 15, binary search tree | insertion and three-case deletion in place, against a tree value, a set and the preorder traversal; what the height and the traversals are |
| `LinkedQueue.dfy`, `Brackets.dfy` | 16, stack and queue | the linked queue, the breadth-first numbering it drives, and the bracket matcher against a grammar |
| `Framing.dfy` | 26, sockets | length-prefixed messages over a stream that arrives in pieces |
| `LinkedList.dfy` | 10, linked lists | list surgery by rewriting `next` links |
| `Totals.dfy`, `Powers.dfy`, `Sequences.dfy`, `CInt.dfy` | | sums over threads, powers of two, sequences, the width of `int` |

Where the source changes fields, arrays or links, so do the classes and methods here; each of them
is tied by its contract to a function on sequences, trees, maps or machine states, and the lemmas
are about those.  The two concurrent cores are step machines: a lemma about every run quantifies
over all sequences of enabled steps, so over every schedule.

Choices that the code leaves to its environment are arbitrary in the model: which waiters a signal
wakes (at least one, if there is one), when spurious wakeups and spurious CAS failures happen, how a
stream is cut into receives, and the hash function.

## Where the code departs from its comments, and edge cases

The model follows the code.

- `error_handling.c:222` calls the loop the integer square root.  It is, unless x + 1 is a perfect
  square; then the result alternates with the number of rounds, and 20 rounds give 3 for 8 but 1
  for 3.  `NewtonSqrt.CorrectIff` says exactly when the result is right.  For INT_MAX the
  first sum overflows.
- `sorting.c:118` says that everything left of the pivot is smaller and everything right of it is
  larger.  With equal keys the code gives "at most" and "at least": no outcome on 2, 1, 2 is
  strict (`QuickSort.EqualKeysAreNotSeparated`).  `QuickSort.Partition` says that the separation is
  strict exactly if the pivot key, the lesser of two or the median of three, occurs once in the
  range before the call.
- `threads.c:201` says that a signal wakes one waiter.  POSIX.1-2008 promises at least one
  (`pthread_cond_signal`), and the model allows more.
- `sockets.c:140` says "exactly n bytes"; at the end of the stream there are fewer.
- `atomics.c:295-298` admits that a node pushed again is not handled.
  `TreiberReuse.ReuseBreaksTheStack` gives such a run.
- `sockets.c:199-203` and `sockets.c:216-222`: a message of 57 to 63 bytes is heard whole, but its
  echo does not fit the client's buffer (`Framing.Dialogue`).
- `linked_lists.c:231`: a negative index reads the front of the list.
- `stack_queue.c:272`: for n < 1 the root is still printed, and from n = 2^30 on `2 * node + 1`
  overflows.

## Model

| member | source | states |
|---|---|---|
| RingBuffer.PutAppends | exercises/24_threads/threads.c:229-231 | storing at `tail` and advancing it modulo the capacity appends to the queue read from `head` for `count` cells, and keeps tail = (head + count) mod capacity |
| RingBuffer.TakeRemovesFirst | exercises/24_threads/threads.c:244-246 | reading at `head` and advancing it removes exactly the oldest value |
| RingBuffer.BQueue.constructor | exercises/24_threads/threads.c:281 | an empty, open queue |
| RingBuffer.BQueue.Put | exercises/24_threads/threads.c:229-232 | the array version appends the value to the contents and returns the new size |
| RingBuffer.BQueue.Take | exercises/24_threads/threads.c:243-246 | the array version returns the oldest value and removes it, or reports an empty queue and changes nothing |
| RingBuffer.BQueue.Close | exercises/24_threads/threads.c:254 | the queue is closed and nothing else changes |
| BoundedQueue.InitInv | exercises/24_threads/threads.c:281-286 | the invariant holds when the threads are started |
| BoundedQueue.StepInv | exercises/24_threads/threads.c:225-275 | every step of every thread, spurious wakeups included, keeps the invariant: FIFO contents, mutual exclusion, no lost wakeup, totals |
| BoundedQueue.ProducerWakes | exercises/24_threads/threads.c:225-267 | no step of the producer loses a wakeup: waiting consumers leave count <= active consumers (+1 for a signal about to be sent), and nobody waits after the close was broadcast |
| BoundedQueue.ConsumerWakes | exercises/24_threads/threads.c:239-250 | no step of a consumer loses a wakeup, and a waiting producer faces a full queue or a consumer about to signal |
| BoundedQueue.RunInv | exercises/24_threads/threads.c:225-286 | the invariant holds after every run |
| BoundedQueue.FifoAndMutualExclusion | exercises/24_threads/threads.c:225-250 | in every reachable state the pushed values 0, 1, 2, ... are the popped ones followed by the ring contents, and no two threads are in a critical section |
| BoundedQueue.ConsumersStopAtTheEnd | exercises/24_threads/threads.c:239-275 | in every reachable state a consumer that has returned did so with the queue closed and empty and all items popped, and the consumers' totals account for everything popped |
| BoundedQueue.BlockedMeansDone | exercises/24_threads/threads.c:225-275 | if every thread waits or has returned, every thread has returned |
| BoundedQueue.Progress | exercises/24_threads/threads.c:225-275 | while a thread is unfinished, some thread can step without a spurious wakeup |
| BoundedQueue.StepMeasure | exercises/24_threads/threads.c:225-275 | every step that is not a spurious wakeup makes a measure smaller; a spurious one adds at most 3 |
| BoundedQueue.EveryRunEnds | exercises/24_threads/threads.c:259-290 | a run with n items and k consumers has at most n(14 + 3k) + 7k + 6 steps, plus 4 per spurious wakeup, whatever the schedule |
| BoundedQueue.SumUpto | exercises/24_threads/threads.c:292-293 | 0 + 1 + ... + (n-1) is n(n-1)/2 |
| BoundedQueue.StuckMeansComplete | exercises/24_threads/threads.c:269-293 | a run that cannot go on has finished: all threads returned, all items popped once and in order, and the consumers' totals are n items and n(n-1)/2 |
| BoundedQueue.ShareCounts | exercises/24_threads/threads.c:272 | the size of a consumer's share is the number of items that it took |
| BoundedQueue.EachConsumerCredited | exercises/24_threads/threads.c:269-275 | in every reachable state each consumer has counted and summed up, or is about to, exactly the items that it popped itself |
| BoundedQueue.EachConsumerPrints | exercises/24_threads/threads.c:272-273 | when a run cannot go on, `n` and `sum` of each consumer are the number and the sum of the items it popped itself |
| TreiberStack.StepInv | exercises/29_atomics/atomics.c:249-266 | every load, link, CAS, call and return keeps the invariant: the list from `head` is the abstract stack, and each thread's position agrees with the log of calls, commits and returns |
| TreiberStack.RunInv | exercises/29_atomics/atomics.c:249-266 | the invariant holds after every run |
| TreiberStack.EveryRunLinearizable | exercises/29_atomics/atomics.c:249-266 | for any number of threads and any interleaving, the history of calls and returns is linearizable to a stack, with the commit at the successful CAS or at the NULL load |
| TreiberStack.RunVisible | exercises/29_atomics/atomics.c:249-266 | the log without its commit points is the history that the callers observe |
| TreiberStack.HeapIsStack | exercises/29_atomics/atomics.c:245-266 | in every reachable state the list from `head` ends, repeats no node, and is exactly the stack that the committed operations leave |
| TreiberStack.NeverBlocked | exercises/29_atomics/atomics.c:251-264 | in every reachable state a thread in the middle of an operation can step: no pop reads a `next` that was never written |
| TreiberStack.Balance | exercises/29_atomics/atomics.c:249-266 | in every legal log the pushed nodes are the popped nodes and those still on the stack |
| TreiberStack.NothingLostOrReturnedTwice | exercises/29_atomics/atomics.c:249-266 | in every run each pushed node is either on the stack or was popped, not both, and only once |
| TreiberStack.StepStale | exercises/29_atomics/atomics.c:251-264 | a CAS that fails on a moved `head` uses up one stale load, and only a successful CAS makes loads stale, at most T-1 of them |
| TreiberStack.FailuresBound | exercises/29_atomics/atomics.c:251-264 | in every run of T threads there are at most T-1 genuine CAS failures for each success |
| TreiberReuse.SoloPush | exercises/29_atomics/atomics.c:249-255 | a push without interference puts its node in front of the heap list and of the stack |
| TreiberReuse.SoloPop | exercises/29_atomics/atomics.c:257-266 | a pop without interference takes the front node off both |
| TreiberReuse.SoloPopEmpty | exercises/29_atomics/atomics.c:261-262 | a pop without interference on an empty stack returns NULL and changes nothing |
| TreiberReuse.ReuseBreaksTheStack | exercises/29_atomics/atomics.c:295-298 | if a node may be pushed again, there is a run of two threads after which the operations leave an empty stack but `head` points to a node popped before |
| Spinlock.StepInv | exercises/29_atomics/atomics.c:196-217 | every step keeps the lock flag equal to the number of holders and the counter equal to the increments done |
| Spinlock.AtMostOneHolder | exercises/29_atomics/atomics.c:196-204 | in every reachable state at most one thread is between lock and unlock |
| Spinlock.FinalCount | exercises/29_atomics/atomics.c:209-231 | when all threads have returned the counter is threads * iterations |
| Spinlock.FreeLockIsTaken | exercises/29_atomics/atomics.c:196-200 | one test-and-set takes a free lock |
| Spinlock.StepRemaining | exercises/29_atomics/atomics.c:196-217 | every step but spinning on a taken lock brings the end nearer |
| Spinlock.AlwaysFinishable | exercises/29_atomics/atomics.c:209-231 | from every reachable state some schedule lets all workers return, with the full count |
| SortSpec.StableSortUnique | exercises/17_sorting/sorting.c:9-15 | there is only one stable sorted arrangement of an array |
| SortSpec.SameOrderPermutes | exercises/17_sorting/sorting.c:9-15 | an arrangement that keeps equal keys in order is a permutation |
| SortSpec.SwapInversions | exercises/17_sorting/sorting.c:40-41 | a swap of two adjacent elements out of order removes exactly one inversion |
| SortSpec.SwapKeepsOrder | exercises/17_sorting/sorting.c:40-41 | such a swap keeps the order of equal keys |
| SortSpec.ExchangeKeepsOrder | exercises/17_sorting/sorting.c:19 | an exchange of any two elements keeps equal keys in order if neither passes one |
| SortSpec.DistinctKeysKeepOrder | exercises/17_sorting/sorting.c:9-15 | where all keys are different every permutation is stable |
| SortSpec.InversionsCountsPairs | exercises/17_sorting/sorting.c:36-65 | the inversion number counts the pairs of positions i < j with a larger key at i |
| SortSpec.SortsAgreeOnKeys | exercises/17_sorting/sorting.c:189-212 | two sorted permutations of one array have the same key sequence |
| SimpleSorts.BubblePass | exercises/17_sorting/sorting.c:38-44 | one pass settles one more cell; a pass without swaps shows that the array is sorted |
| SimpleSorts.PairsIs | exercises/17_sorting/sorting.c:9-15 | the quadratic bound below is n(n - 1)/2 |
| SimpleSorts.BubbleSort | exercises/17_sorting/sorting.c:36-47 | the stable sort of every array, early exit included, with exactly as many swaps as the array had inversions, n-1 comparisons on a sorted array and at most n(n - 1)/2 on any |
| SimpleSorts.InsertionSort | exercises/17_sorting/sorting.c:55-65 | the stable sort of every array, with exactly as many shifts as inversions and at most n-1 more comparisons |
| SimpleSorts.SelectionSorts | exercises/17_sorting/sorting.c:72-80 | exchanging the first minimum to the front, again and again, sorts |
| SimpleSorts.SelectionPermutes | exercises/17_sorting/sorting.c:78 | and permutes |
| SimpleSorts.MinimumFrom | exercises/17_sorting/sorting.c:74-77 | the inner loop finds the first minimum of the rest, with one comparison for each other cell |
| SimpleSorts.SelectionSort | exercises/17_sorting/sorting.c:72-80 | the array version does just that: the result is that arrangement, sorted and a permutation, always with n(n - 1)/2 comparisons |
| SimpleSorts.SelectionSortIsUnstable | exercises/17_sorting/sorting.c:13 | selection sort is not stable, by an array of three elements |
| SimpleSorts.SelectionStable | exercises/17_sorting/sorting.c:72-80 | it is stable on every array where no exchange carries its element past an equal key |
| SimpleSorts.DistinctKeysPassNone | exercises/17_sorting/sorting.c:72-80 | that is so where all keys are different |
| SimpleSorts.PassingMayStillBeStable | exercises/17_sorting/sorting.c:72-80 | the converse fails: on 2, 2, 1, 1 two exchanges pass equal keys and restore their order |
| MergeSort.MergeSorted | exercises/17_sorting/sorting.c:88-99 | merging two sorted runs gives a sorted one |
| MergeSort.MergeStable | exercises/17_sorting/sorting.c:94 | taking the left element on equal keys keeps the merge stable |
| MergeSort.MergeFromIs | exercises/17_sorting/sorting.c:92-98 | the merge by positions is the merge of the two runs |
| MergeSort.MergeContinues | exercises/17_sorting/sorting.c:92-98 | what the merge loops write cell by cell is that merge |
| MergeSort.MergeRuns | exercises/17_sorting/sorting.c:88-99 | the two runs are merged in place through the buffer, the rest of the array is unchanged, and at most hi - lo comparisons are made |
| MergeSort.CeilLog2Is | exercises/17_sorting/sorting.c:14 | the logarithm in the bound is the least k with n <= 2^k |
| MergeSort.SplitCost | exercises/17_sorting/sorting.c:103-106 | n ceil(log2 n) is enough for the uneven split at `mid` and the merge |
| MergeSort.MergeSortRec | exercises/17_sorting/sorting.c:101-107 | the range is stably sorted, everything outside it unchanged, within that bound |
| MergeSort.MergeSort | exercises/17_sorting/sorting.c:109-114 | the stable sort of every array with at most n ceil(log2 n) comparisons |
| QuickSort.MedianOrder | exercises/17_sorting/sorting.c:123-129 | the three conditional exchanges put the median between the two others, and the pivot is the median |
| QuickSort.PivotIs | exercises/17_sorting/sorting.c:123-139 | the pivot key is the lesser of two cells, or the median of the first, middle and last |
| QuickSort.MedianOfThree | exercises/17_sorting/sorting.c:122-131 | a permutation of the range after which the first, last but one and last cell are in order |
| QuickSort.ScanUp | exercises/17_sorting/sorting.c:143 | the upward scan tests no bound, stays within the range, ends, and stops at the first element that is not smaller than the pivot, with one comparison for each cell |
| QuickSort.ScanDown | exercises/17_sorting/sorting.c:144 | the downward scan likewise |
| QuickSort.PartitionLoop | exercises/17_sorting/sorting.c:140-147 | the loop ends with the two scans crossed by one cell at most, nothing above the pivot on the left and nothing below it on the right, after at most hi - lo comparisons |
| QuickSort.StrictIff | exercises/17_sorting/sorting.c:118-119 | a separation is strict exactly if no other cell of the range has the pivot's key |
| QuickSort.Partition | exercises/17_sorting/sorting.c:133-150 | a permutation of the range in which everything left of p is at most a[p] and everything right of it at least; a[p] is the lesser of two cells or the median of three; and the separation is strict exactly if that key occurs once in the range before the call |
| QuickSort.EqualKeysAreNotSeparated | exercises/17_sorting/sorting.c:118-119 | no outcome on the keys 2, 1, 2 is strictly separated |
| QuickSort.SplitsCost | exercises/17_sorting/sorting.c:152-157 | no split of the other cells costs more comparisons than one against the rest |
| QuickSort.WorstCaseIsQuadratic | exercises/17_sorting/sorting.c:15 | that worst case is at most (n - 1)(n + 7) / 4 comparisons |
| QuickSort.QuickSortRec | exercises/17_sorting/sorting.c:152-157 | the range is sorted and permuted, the rest unchanged, for every range, within the worst case |
| QuickSort.QuickSort | exercises/17_sorting/sorting.c:159-162 | every array, duplicates included, is sorted and permuted with at most (n - 1)(n + 7) / 4 comparisons; three cells are put in order by the median-of-three exchanges |
| QuickSort.QuickSortIsUnstable | exercises/17_sorting/sorting.c:15 | quicksort is not stable, by an array of three elements |
| AllSorts.StableSortsAgree | exercises/17_sorting/sorting.c:11-14 | two stable sorts of one array are equal element by element, tags included |
| AllSorts.AllAgree | exercises/17_sorting/sorting.c:208-212 | the three stable sorts return the same array, and all five the same keys, so the same array where all keys are different |
| AllSorts.SortEachWay | exercises/17_sorting/sorting.c:208-212 | the driver's five sorts of copies of one array do agree in this way |
| HashChains.LinkFront | exercises/18_hash_table/hash_table.c:143-144 | an entry joins the front of one chain, the other chains are unchanged |
| HashChains.Unlink | exercises/18_hash_table/hash_table.c:167-168 | exactly one entry leaves its chain, at the front or after `prev`, the other chains are unchanged |
| HashChains.Relink | exercises/18_hash_table/hash_table.c:85-91 | one entry moves from the front of an old chain to the front of a new one |
| HashChains.PlacedPrepend | exercises/18_hash_table/hash_table.c:141-145 | a new key's entry in front of the chain its key hashes to keeps every entry in its place and keys unique |
| HashChains.PlacedRemove | exercises/18_hash_table/hash_table.c:166-172 | taking an entry out does as well |
| HashChains.VisitedAll | exercises/18_hash_table/hash_table.c:82-93 | the two rehash loops reach every entry |
| HashChains.RelinkBucket | exercises/18_hash_table/hash_table.c:83-92 | the inner loop moves all entries of a bucket, each to the chain its key hashes to in the new array |
| HashChains.RelinkBuckets | exercises/18_hash_table/hash_table.c:80-93 | the two loops move every entry, counted one by one, to the chain its key hashes to in the new array |
| HashMaps.LoadTest | exercises/18_hash_table/hash_table.c:136 | the division by the capacity compares 4(count + 1) with 3 capacity |
| HashMaps.HashMap.constructor | exercises/18_hash_table/hash_table.c:101-109 | the empty map |
| HashMaps.HashMap.EntriesAtHome | exercises/18_hash_table/hash_table.c:51-53 | in every valid state each entry is in the bucket h(key) mod capacity, is the only one of its key and holds the plain map's value; every key has one; `count` is the map's size |
| HashMaps.HashMap.Find | exercises/18_hash_table/hash_table.c:128-133 | the walk along one chain finds the key's entry if the map has the key at all |
| HashMaps.HashMap.Get | exercises/18_hash_table/hash_table.c:149-157 | a hit exactly for the keys of the plain map, with its value |
| HashMaps.HashMap.Rehash | exercises/18_hash_table/hash_table.c:73-95 | found at count = 3/4 capacity exactly; the plain map and count stay, the capacity doubles, and all entries are relinked |
| HashMaps.HashMap.Put | exercises/18_hash_table/hash_table.c:126-146 | update or insert as in the plain map, rehash included; the load stays within 3/4 and the capacity 8 * 2^k |
| HashMaps.HashMap.Delete | exercises/18_hash_table/hash_table.c:160-178 | removal as in the plain map, and whether the key was there |
| HashMaps.RehashCost | exercises/18_hash_table/hash_table.c:136-139 | a rehash happens at exactly 3/4 capacity and keeps the account of relinked entries |
| HashMaps.AmortizedCost | exercises/18_hash_table/hash_table.c:73-95 | in every reachable state all rehashes together relinked fewer than twice as many entries as there were inserting puts, and none before the first |
| HashMaps.CountOneMore | exercises/18_hash_table/hash_table.c:271-273 | one round counts one more word |
| HashMaps.CountWords | exercises/18_hash_table/hash_table.c:269-274 | the word-frequency loop computes the multiset of the words |
| NewtonSqrt.RoundAbove | exercises/20_error_handling/error_handling.c:225 | a round never goes below floor(sqrt x) |
| NewtonSqrt.RoundContracts | exercises/20_error_handling/error_handling.c:225 | a round at distance d above w = floor(sqrt x) + 1 leaves a distance d' with 2 r d' < d^2 |
| NewtonSqrt.NeverBelow | exercises/20_error_handling/error_handling.c:224-225 | after any number of rounds r >= floor(sqrt x) |
| NewtonSqrt.StaysNear | exercises/20_error_handling/error_handling.c:224-225 | floor(sqrt x) and one more are never left once reached |
| NewtonSqrt.NineteenRoundsReach | exercises/20_error_handling/error_handling.c:225 | for every 32-bit x >= 1 these two values are reached within 19 rounds |
| NewtonSqrt.ExactUnlessSquare | exercises/20_error_handling/error_handling.c:222-226 | the result is floor(sqrt x) if x + 1 is no perfect square |
| NewtonSqrt.SettlesIff | exercises/20_error_handling/error_handling.c:222-226 | the iteration settles exactly if x + 1 is no perfect square, and alternates between the two values otherwise |
| NewtonSqrt.DistanceRecurrence | exercises/20_error_handling/error_handling.c:225 | on x = w^2 - 1 a round takes the distance d above w to (d^2 - 1) / (2(w + d)), rounded down |
| NewtonSqrt.DescentArrives | exercises/20_error_handling/error_handling.c:224-225 | that descent brings r to w exactly |
| NewtonSqrt.CorrectIff | exercises/20_error_handling/error_handling.c:222-226 | after 20 rounds or more the result is floor(sqrt x) if and only if x + 1 is no perfect square, or its root is w and the number of rounds left after the descent from x to w is odd |
| NewtonSqrt.ResultIs | exercises/20_error_handling/error_handling.c:222-226 | the result is floor(sqrt x), or one more where x + 1 is its square |
| NewtonSqrt.EightIsWrong | exercises/20_error_handling/error_handling.c:222-226 | for 8 the result is 3 |
| NewtonSqrt.ThreeIsRight | exercises/20_error_handling/error_handling.c:222-226 | for 3, where x + 1 is a square as well, the result is right |
| NewtonSqrt.RoundsBound | exercises/20_error_handling/error_handling.c:225 | r stays between 1 and x, so no round divides by zero |
| NewtonSqrt.SumBound | exercises/20_error_handling/error_handling.c:225 | r + x/r is at most x + 1, so only INT_MAX overflows |
| NewtonSqrt.RiskySqrtApprox | exercises/20_error_handling/error_handling.c:220-227 | the error exit exactly below zero, overflow exactly at INT_MAX, otherwise the 20th round, which is floor(sqrt x) exactly under that condition, and one more otherwise |
| Trees.MinIsLeast | exercises/15_binary_search_tree/bst.c:161-164 | the leftmost value of an ordered tree is its least |
| Trees.MaxIsGreatest | exercises/15_binary_search_tree/bst.c:166-169 | the rightmost value is its greatest |
| Trees.InsertAdds | exercises/15_binary_search_tree/bst.c:130-138 | insertion keeps the order and adds the value to the set |
| Trees.InsertGrows | exercises/15_binary_search_tree/bst.c:130-138 | insertion raises the height by at most one, and the count exactly for a new value |
| Trees.DeleteRemoves | exercises/15_binary_search_tree/bst.c:179-204 | deletion keeps the order and removes the value from the set, in all three cases |
| Trees.DeleteShrinks | exercises/15_binary_search_tree/bst.c:179-204 | deletion never raises the height and lowers it by at most one, and lowers the count exactly for a present value |
| Trees.DeleteUndoesInsert | exercises/15_binary_search_tree/bst.c:130-204 | deleting a value just inserted restores the tree, shape included |
| Trees.RunRefinesSet | exercises/15_binary_search_tree/bst.c:130-204 | any run of inserts and deletes does to the values what it does to a set |
| Trees.InorderSorts | exercises/15_binary_search_tree/bst.c:208-213 | inorder is the set in increasing order, each value once |
| Trees.PreorderRebuilds | exercises/15_binary_search_tree/bst.c:215-220 | inserting the preorder values into an empty tree builds the same tree |
| Trees.PostorderIsReversedPreorder | exercises/15_binary_search_tree/bst.c:222-227 | postorder is the preorder of the mirror image backwards |
| Trees.CountBounds | exercises/15_binary_search_tree/bst.c:229-239 | height <= count <= 2^height - 1 |
| TreeShapes.HeightIsLongestWay | exercises/15_binary_search_tree/bst.c:229-234 | some way down visits as many nodes as the height says, and none more |
| TreeShapes.InsertAddsLeaf | exercises/15_binary_search_tree/bst.c:130-138 | a new value becomes a leaf, and without it the preorder traversal is the old one |
| TreeShapes.InsertIs | exercises/15_binary_search_tree/bst.c:130-138 | a present value changes nothing; a new one is that leaf |
| TreeShapes.DeletePreorder | exercises/15_binary_search_tree/bst.c:179-204 | deletion takes the value out of the preorder traversal, or, if its node has two children, takes its successor out and puts it in its place |
| TreeShapes.DeleteIs | exercises/15_binary_search_tree/bst.c:179-204 | so the result is determined; with two children at the root, the left subtree stays and the least value of the right one moves up |
| TreeShapes.PreorderVisits | exercises/15_binary_search_tree/bst.c:215-220 | every node is visited before its left subtree and that before its right subtree |
| TreeShapes.PostorderVisits | exercises/15_binary_search_tree/bst.c:222-227 | every left subtree is visited before its right sibling and both before their node |
| BinarySearchTrees.Node.constructor | exercises/15_binary_search_tree/bst.c:120-127 | a leaf |
| BinarySearchTrees.BstInsert | exercises/15_binary_search_tree/bst.c:130-138 | on unshared nodes: the tree after insertion, with at most one new node and the old root; on an ordered tree a new value is a new leaf with the rest in place, and a present one changes nothing |
| BinarySearchTrees.BstSearch | exercises/15_binary_search_tree/bst.c:150-154 | a node of the tree with the value, or NULL, which in an ordered tree means that the value is not there |
| BinarySearchTrees.BstContains | exercises/15_binary_search_tree/bst.c:156-158 | membership in the set of values |
| BinarySearchTrees.BstMin | exercises/15_binary_search_tree/bst.c:161-164 | the leftmost node |
| BinarySearchTrees.BstMax | exercises/15_binary_search_tree/bst.c:166-169 | the rightmost node |
| BinarySearchTrees.BstDelete | exercises/15_binary_search_tree/bst.c:179-204 | on unshared nodes: the tree after deletion, made of the old nodes except the one freed, if any; on an ordered tree the value's node goes, or takes over the least value above it, whose node goes instead, and the rest stays in place |
| BinarySearchTrees.BstInorder | exercises/15_binary_search_tree/bst.c:208-213 | prints the inorder values of the tree |
| BinarySearchTrees.BstPreorder | exercises/15_binary_search_tree/bst.c:215-220 | prints the preorder values |
| BinarySearchTrees.BstPostorder | exercises/15_binary_search_tree/bst.c:222-227 | prints the postorder values |
| BinarySearchTrees.BstHeight | exercises/15_binary_search_tree/bst.c:229-234 | the number of nodes on a longest way down |
| BinarySearchTrees.BstCount | exercises/15_binary_search_tree/bst.c:236-239 | the number of distinct nodes |
| LinkedQueues.Queue.constructor | exercises/16_stack_and_queue/stack_queue.c:196-200 | an empty queue |
| LinkedQueues.Queue.Enqueue | exercises/16_stack_and_queue/stack_queue.c:208-214 | the value joins the end, through the tail pointer |
| LinkedQueues.Queue.Dequeue | exercises/16_stack_and_queue/stack_queue.c:217-226 | the first value leaves and its node with it; an empty queue is refused |
| LinkedQueues.Queue.IsEmpty | exercises/16_stack_and_queue/stack_queue.c:233 | true exactly for the empty contents |
| BreadthFirst.Round | exercises/16_stack_and_queue/stack_queue.c:279-294 | after k dequeues the queue holds k+1..min(2k+1, n), and the line breaks exactly before a power of two |
| BreadthFirst.LevelsFlatten | exercises/16_stack_and_queue/stack_queue.c:269-271 | the levels in a row are the nodes in increasing order |
| BreadthFirst.Finish | exercises/16_stack_and_queue/stack_queue.c:279-295 | when the queue is empty all nodes have been printed and the last line is the last level |
| BreadthFirst.Visit | exercises/16_stack_and_queue/stack_queue.c:280-287 | one dequeue, and the children within 1..n queued in order |
| BreadthFirst.BfsOrder | exercises/16_stack_and_queue/stack_queue.c:272-297 | prints the nodes 1..n, each once and in order, level k on line k; overflow exactly if 2n + 1 is no int |
| Brackets.AcceptedCompletes | exercises/16_stack_and_queue/stack_queue.c:253-266 | what the stack accepts is derivable, its open brackets closed in order |
| Brackets.ReadsThrough | exercises/16_stack_and_queue/stack_queue.c:253-266 | a derivable string within the depth leaves the stack as it was |
| Brackets.AcceptsErased | exercises/16_stack_and_queue/stack_queue.c:255-264 | other characters do not matter |
| Brackets.DepthIsHighest | exercises/16_stack_and_queue/stack_queue.c:256 | the depth of a derivation is the greatest number of brackets open at once |
| Brackets.HighestBounds | exercises/16_stack_and_queue/stack_queue.c:256-257 | no prefix has more brackets open than that number |
| Brackets.HighestReached | exercises/16_stack_and_queue/stack_queue.c:256-257 | and some prefix has as many |
| Brackets.EraseOne | exercises/16_stack_and_queue/stack_queue.c:255-258 | erasing keeps exactly the six brackets |
| Brackets.EraseConcat | exercises/16_stack_and_queue/stack_queue.c:253-254 | one character after the other |
| Brackets.PairBalanced | exercises/16_stack_and_queue/stack_queue.c:261-263 | of all two-character strings exactly (), [] and {} are balanced |
| Brackets.AcceptsIff | exercises/16_stack_and_queue/stack_queue.c:248-267 | acceptance is derivability in the three-bracket grammar with at most `limit` brackets open |
| Brackets.BracketsBalanced | exercises/16_stack_and_queue/stack_queue.c:248-267 | 1 exactly if the brackets of the string are derivable and at most 256 are open at once; of the bracket pairs exactly (), [] and {} give 1 |
| Framing.Socket.RecvAll | exercises/26_sockets/sockets.c:141-149 | however the stream is cut, the first n bytes, or all there are, in order |
| Framing.Socket.SendMsg | exercises/26_sockets/sockets.c:152-156 | the stream grows by one byte, the length modulo 256, and by that many first bytes of the message |
| Framing.Socket.RecvMsg | exercises/26_sockets/sockets.c:158-165 | -1 at the end of the stream; else the first byte, clipped to bufsz - 1, says how many bytes follow into the buffer, or all there are; they are NUL-terminated, a C string if none is NUL, and the stream goes on after them |
| Framing.SentFrame | exercises/26_sockets/sockets.c:153-155 | those bytes are the frame of the message |
| Framing.TookReception | exercises/26_sockets/sockets.c:160-164 | what a call takes is determined by the stream and the buffer size |
| Framing.MessageRoundTrip | exercises/26_sockets/sockets.c:151-165 | a message comes back whole, with the stream at the next frame, if and only if it is shorter than 256 and than the buffer |
| Framing.ConversationRoundTrip | exercises/26_sockets/sockets.c:151-165 | a list of messages comes back in order if and only if all of them are that short |
| Framing.PayloadDecides | exercises/26_sockets/sockets.c:153-161 | any other message comes back shorter, as a prefix of itself |
| Framing.SendAll | exercises/26_sockets/sockets.c:152-156 | messages sent one after the other are their frames one after the other |
| Framing.ReceiveAll | exercises/26_sockets/sockets.c:158-165 | k calls into one buffer return and store what the stream holds, frame by frame, and the C string in the buffer after each call is the payload, if that has no NUL |
| Framing.Exchange | exercises/26_sockets/sockets.c:141-165 | under any cutting of the stream all messages sent come back in order, results and payloads, if and only if all fit; then the buffer reads as the message after each call |
| Framing.Pass | exercises/26_sockets/sockets.c:201-202 | one message on a drained stream is printed whole if and only if it fits, and leaves the stream drained |
| Framing.Dialogue | exercises/26_sockets/sockets.c:199-222 | the alternating demo: the server prints every message and the client every echo of it if and only if all messages are shorter than 57 bytes |
| LinkedLists.List.constructor | exercises/10_linked_lists/linked_lists.c:116-122 | an empty list |
| LinkedLists.List.PushFront | exercises/10_linked_lists/linked_lists.c:136-141 | one new node in front of the same nodes |
| LinkedLists.List.PushBack | exercises/10_linked_lists/linked_lists.c:143-153 | one new node behind the same nodes |
| LinkedLists.List.InsertAt | exercises/10_linked_lists/linked_lists.c:155-168 | one new node at the index clamped to 0..length |
| LinkedLists.List.PopFront | exercises/10_linked_lists/linked_lists.c:172-180 | the first node leaves; an empty list is refused |
| LinkedLists.List.DeleteValue | exercises/10_linked_lists/linked_lists.c:182-202 | the first node with the value leaves, or none |
| LinkedLists.List.DeleteAt | exercises/10_linked_lists/linked_lists.c:204-218 | the node at the index leaves, or none out of range |
| LinkedLists.List.Contains | exercises/10_linked_lists/linked_lists.c:222-229 | whether some node has the value |
| LinkedLists.List.Get | exercises/10_linked_lists/linked_lists.c:231-236 | the value at the index, at 0 for a negative one; refused beyond the end |
| LinkedLists.List.Reverse | exercises/10_linked_lists/linked_lists.c:250-260 | the same nodes in the opposite order |
| LinkedLists.Turn | exercises/10_linked_lists/linked_lists.c:253-258 | one round moves one node from the front of one chain to the front of the other |
| LinkedLists.ReverseChain | exercises/10_linked_lists/linked_lists.c:251-258 | the loop links the same nodes in the opposite order |
| SequenceSurgery.DeleteUndoesInsert | exercises/10_linked_lists/linked_lists.c:155-218 | deleting at the index of an insertion undoes it if and only if the index was not clamped |
| SequenceSurgery.InsertedCells | exercises/10_linked_lists/linked_lists.c:155-168 | cell by cell, what an insertion at the clamped index leaves |
| SequenceSurgery.DeletedCells | exercises/10_linked_lists/linked_lists.c:204-218 | cell by cell, what a deletion leaves, in and out of range |
| Sequences.ReversedPrefix | exercises/10_linked_lists/linked_lists.c:253-258 | the part already reversed grows by the current node in front |

## Left out

- Printing, `main`, the `section` demos beyond the loops named above, argument tables, benchmarks and `qsort`.
- Operating-system calls: `send` appends to a stream, `recv` takes any nonempty part of what is there, threads are program counters, the mutex is an owner field.
- Allocation failure and `exit(1)`: allocation succeeds; popping from an empty list or queue and reading beyond the end are reported as `ok == false` where the program exits.
- `list_free`, `queue_free`, `bst_free`, `hmap_free` and the linked stack of exercise 16: they would repeat the chain and tree arguments made here.
- Errors of `recv` other than the end of the stream, and partial `send`s.
- C integer widths outside `NewtonSqrt` and `BreadthFirst`: sizes, counts, capacities, totals and the spinlock counter are unbounded; the hash value is any natural number, for any hash function.
- Weak memory: atomics interleave as single steps.  The stack uses sequentially consistent operations, and the spinlock protects its counter by acquire and release.
- The stack values of exercise 29: a node stands for its value, which no operation changes.
- Fairness: a spinning thread may spin forever, so not every schedule of the spinlock ends; `Spinlock.AlwaysFinishable` says that one always can.
- Average costs of the sorts, the lower bound of quicksort's worst case, and the exact arrays on which selection sort and quicksort keep equal keys in order: equal keys may pass each other twice (`SimpleSorts.PassingMayStillBeStable`).
- Exercises 13, 30 and 34: bit operations of a fixed width, a counter behind a semaphore and a finite transition table, each settled by looking at its cases.  The growing vectors double their arrays as the hash map does.  The remaining exercises show library and operating-system calls.
- RingBuffer.BQueue.Put: the critical section after the wait loop; waiting, signalling and the mutex are steps of the machine in `BoundedQueue`.
- RingBuffer.BQueue.Take: the same for `bq_pop`.
- RingBuffer.BQueue.Close: the same for `bq_close`.
- BoundedQueue.StepInv: one producer, as in the program, and any number of consumers; the capacity is any positive number instead of 8.
- TreiberStack.StepInv: assumes that each node is pushed at most once and never reclaimed, because the file itself leaves the ABA problem open (`atomics.c:295-298`); without that it is false, see `TreiberReuse.ReuseBreaksTheStack`.
- TreiberStack.FailuresBound: does not count spurious failures of the weak CAS, which may happen at any time.
- Framing.Dialogue: a receive that would wait for more bytes counts as the end of the stream; that can only happen after a message or an echo that did not fit.
- Brackets.BracketsBalanced: takes the string without its terminating NUL, as a sequence.
- LinkedLists.List.InsertAt: node values are constants, as no operation of the exercise assigns them.

# LightUtils: sorting, allocator, locks, caches, ring buffer, trie

LightUtils is a C++ utility library. This project models the parts of it whose correctness rests on loops,
recursion or interleavings, and proves what they promise.

**Sorting** (`SortImpl.hpp`). `Order` says what stable and sorted mean. `Networks` has compare-exchange networks and
the 0-1 principle; `Bitonic` and `OddEven` are the two Batcher networks. `Phases` is the barrier that all threaded
sorts share: threads take one load, one store, or one access to the phase counter at a time, in any order. `FairRuns`
says that they come to an end. `ThreadedNetworks`, `BitonicThreads`, `OddEvenThreads` and `MergeThreads` are the
programs each thread runs, and `BitonicReach` says when the bitonic sort misses elements, and `BitonicAlone` runs its
loops on one thread. `Bitwise` has the source's bit operators. `Merging` is the merge as a function on sequences,
which the in-place `MergeSort` and the threads of `MergeThreads` both compute; `MergeEnds` counts the steps of those
threads. `MergeRecursive`, `QuickSort` and `QuickSortStack` work in place on arrays, and `StackDepth` says how much
stack the last one needs; `Counting` and `Radix` are the radix sort.

**General allocator** (`GeneralAllocatorImpl.hpp`). `Tiling` is the memory: pools cut into free entries and live blocks.
`FreeList` is the linked list, `Heap` what the list operations do to list and memory together, `Payload` what happens to
the bytes, and `GeneralAllocator.Allocator` the object. Addresses are counted in blocks of 32 bytes.

**Locks** (`RWLockImpl.hpp`, `RWLock.cpp`). `RWLock` and `FairRWLock` are transition systems with one atomic access per
step and any number of threads. The counters wrap at a modulus `m`; the code has `m = 2^32` for `RWLock` and `m = 2^16`
for `FairRWLock`. `Attempts`, `RWLockCalls` and `FairRWLockCalls` tie what a thread calls to what it gets.

**Caches**. `RecencyList` is the list of entries, most recently used first. `LRUCache.Cache` and `LRU8WayCache.Cache`
both implement it; `BitMatrix` and `MatrixOrder` are about the 8x8 bit matrix.

**Ring buffer** and **bit trie**: `RingBuffer.Buffer` against a queue, `BTree.BTree` against a finite map.

The exact conditions are, each proved in both directions:

* the bitonic sort sorts every array of a power-of-two length if and only if the length modulo the number of threads is
  at most 1 (`BitonicReach.BitonicSortsExactly`, for a type with two elements of which one is before the other);
* the iterative quicksort overflows its 32-slot stack if and only if the array needs a 17th pair, by recursion over the
  windows that the partitions leave (`QuickSortStack.SortQuickIterative`); for numbers, there is an array of a given
  length that does if and only if it has at least 33 * 2^16 elements (`QuickSortStack.SortNumbersInOrder`);
* the radix adapter sorts the values of an unsigned type, ascending or descending, if and only if they fit in 32 bits
  (`Radix.RightUpTo32Bits`);
* the locks exclude, and the fair lock serves in ticket order, if and only if there are at most as many threads as the
  counters count (`RWLock.MutualExclusion`, `FairRWLock.MutualExclusion`, `FairRWLock.FirstComeFirstServed`);
* the ring buffer's `size`, `back` and `full` are right if and only if the capacity is a power of two
  (`RingBuffer.RightIfDividing` with `RingBuffer.DividingIsPower`).

## Model

| member | source | states |
|---|---|---|
| Networks.ZeroOnePrinciple | include/lightsky/utils/generic/SortImpl.hpp:1164-1235 | A network that sorts a window of every array of booleans sorts it for every array and every strict weak order. |
| Bitonic.BitonicPermutes | include/lightsky/utils/generic/SortImpl.hpp:1190-1208 | Swaps of one step are disjoint and in bounds, so the whole network only rearranges. |
| Bitonic.StageSortsBlock | include/lightsky/utils/generic/SortImpl.hpp:1190-1208 | The steps j = k, k/2, ..., 1 turn a bitonic block of 2j elements into one sorted in the direction its bit 2k says. |
| Bitonic.StagedBlocks | include/lightsky/utils/generic/SortImpl.hpp:1188-1208 | After the stages below k every aligned block of k elements is sorted, ascending exactly when bit k of its start is 0. |
| Bitonic.BitonicSorts | include/lightsky/utils/generic/SortImpl.hpp:1164-1235 | For every power-of-two length and strict weak order, the network gives a sorted permutation. |
| BitonicThreads.JobAtIs | include/lightsky/utils/generic/SortImpl.hpp:1194-1203 | The loop body, which finds its pair by exclusive or and its direction by a mask, deals with the pair whose lower end is i, in the direction of bit 2k. |
| BitonicThreads.JobMatchesWires | include/lightsky/utils/generic/SortImpl.hpp:1194-1203 | What a thread does at index i is the network's comparison at i, in bounds. |
| BitonicThreads.BitonicSound | include/lightsky/utils/generic/SortImpl.hpp:1184-1214 | Within a round the chunks of different threads touch different cells, and the round's combined effect is one step of the network. |
| BitonicThreads.BitonicDeterministic | include/lightsky/utils/generic/SortImpl.hpp:1164-1235 | In every interleaving, for every length and number of threads, a thread that has returned leaves the same array, which BitonicAlone.SortInOrder makes one position after the other. |
| BitonicThreads.BitonicReturnsAtOnce | include/lightsky/utils/generic/SortImpl.hpp:1172-1176 | For a length that is not a power of two, every thread returns at once and the array stays as it is, in every interleaving. |
| BitonicThreads.BitonicRearranges | include/lightsky/utils/generic/SortImpl.hpp:1164-1235 | Whatever the length and the number of threads, the array at return holds the same elements. |
| BitonicThreads.BitonicLeaves | include/lightsky/utils/generic/SortImpl.hpp:1184-1187 | A position all of whose pairs have their lower end beyond the chunks keeps its element. |
| BitonicThreads.TooManyThreads | include/lightsky/utils/generic/SortImpl.hpp:1184-1187 | With more threads than elements the array stays as it is. |
| BitonicAlone.OneStep | include/lightsky/utils/generic/SortImpl.hpp:1192-1208 | The loop over the positions of all chunks, in order, carries out one step of the network. |
| BitonicAlone.SortInOrder | include/lightsky/utils/generic/SortImpl.hpp:1164-1235 | The loops run over all chunks by one thread leave what every interleaving leaves, for every length and number of threads. |
| BitonicThreads.BitonicThreadsSort | include/lightsky/utils/generic/SortImpl.hpp:1164-1235 | When a thread returns, in any interleaving, the array is a sorted permutation, if the length is a power of two and its remainder by the number of threads is at most 1. |
| BitonicThreads.BitonicFairRunsEnd | include/lightsky/utils/generic/SortImpl.hpp:1164-1235 | In every interleaving that never forgets a thread for good, all threads return, and the array then is the outcome for good, which is sorted under the condition above. |
| BitonicThreads.BitonicRaceFree | include/lightsky/utils/generic/SortImpl.hpp:1164-1235 | In every reachable state, no thread is about to access a cell that another one is about to write. |
| BitonicReach.Unreached | include/lightsky/utils/generic/SortImpl.hpp:1184-1187 | If the remainder is larger than 1, there is an array that comes out unsorted, because the chunks leave out the end. |
| BitonicReach.BitonicSortsExactly | include/lightsky/utils/generic/SortImpl.hpp:1184-1187 | All arrays of a power-of-two length are sorted if and only if the length modulo the number of threads is at most 1. |
| OddEven.BlockPaired | include/lightsky/utils/generic/SortImpl.hpp:1304-1323 | In each (p, k) round, the comparisons pair up disjoint positions within aligned blocks, though i has no guard of its own. |
| OddEven.StageMergesBlock | include/lightsky/utils/generic/SortImpl.hpp:1302-1323 | The steps k = p, p/2, ..., 1 merge two sorted halves of every aligned block of 2p booleans. |
| OddEven.StagedBlocks | include/lightsky/utils/generic/SortImpl.hpp:1300-1323 | After the stages below k, every aligned block of k elements is sorted, for every strict weak order. |
| OddEven.OddEvenSorts | include/lightsky/utils/generic/SortImpl.hpp:1282-1350 | For every power-of-two length and strict weak order, the network gives a sorted permutation. |
| OddEvenThreads.RunInBounds | include/lightsky/utils/generic/SortImpl.hpp:1309-1314 | The test j + k < count at the start of a run keeps all of the run's k pairs in bounds. |
| OddEvenThreads.PlaceInRun | include/lightsky/utils/generic/SortImpl.hpp:1304-1315 | The x-th pair of a thread begins in the run the loops say, at an offset without bit k; its partner has bit k. |
| OddEvenThreads.JobAtIs | include/lightsky/utils/generic/SortImpl.hpp:1313-1321 | Two positions that are equal when shifted are those in the same aligned block of 2p. |
| OddEvenThreads.OffsetIsMask | include/lightsky/utils/generic/SortImpl.hpp:1304 | k & (p - 1) is 0 in the first step of a stage, and k in the others. |
| OddEvenThreads.JobMatchesWires | include/lightsky/utils/generic/SortImpl.hpp:1313-1321 | What a thread does at a pair is the network's comparison there, in bounds. |
| OddEvenThreads.OddEvenSound | include/lightsky/utils/generic/SortImpl.hpp:1300-1328 | Within a round the threads' runs touch different cells and together make one step of the network. |
| OddEvenThreads.OddEvenThreadsSort | include/lightsky/utils/generic/SortImpl.hpp:1282-1350 | When a thread returns, in any interleaving of any number of threads, the array is a sorted permutation; a length that is no power of two leaves it as it was. |
| OddEvenThreads.OddEvenFairRunsEnd | include/lightsky/utils/generic/SortImpl.hpp:1282-1350 | In every such interleaving all threads return, and the array then is sorted for good. |
| OddEvenThreads.OddEvenRaceFree | include/lightsky/utils/generic/SortImpl.hpp:1282-1350 | In every reachable state, no thread is about to access a cell that another one is about to write. |
| Phases.Deterministic | include/lightsky/utils/generic/SortImpl.hpp:711-735 | A program whose threads own disjoint cells in each round ends, in every interleaving, with the rounds' effects one after the other: the monotone counter holds a thread back until all have arrived. |
| Phases.RaceFree | include/lightsky/utils/generic/SortImpl.hpp:711-735 | Such a program has no races, also between threads in different rounds. |
| FairRuns.SomeThreadMoves | include/lightsky/utils/generic/SortImpl.hpp:711-735 | While a thread has not returned, some thread has a step that changes the state: the barrier does not deadlock. |
| FairRuns.MovesBounded | include/lightsky/utils/generic/SortImpl.hpp:711-735 | In every interleaving the number of steps that are not spins is bounded by a number that only depends on the program. |
| FairRuns.FairRunsFinish | include/lightsky/utils/generic/SortImpl.hpp:711-735 | In every interleaving that never forgets a thread for good there is a time from which on all threads have returned and the memory is what the rounds make of it. |
| Merging.MergeStable | include/lightsky/utils/generic/SortImpl.hpp:602-626 | Merging two sorted runs keeps tied elements in order, those of the left run first. |
| Merging.PassStable | include/lightsky/utils/generic/SortImpl.hpp:588-632 | One pass over all runs keeps the order of tied elements, also when the last run is short or missing. |
| Merging.MergeSortStable | include/lightsky/utils/generic/SortImpl.hpp:579-634 | The passes k = 1, 2, 4, ... together are a stable sort, for every length. |
| MergeSort.MergeToTemp | include/lightsky/utils/generic/SortImpl.hpp:598-626 | The three loops write the merge of two runs into the buffer. |
| MergeSort.MergeRuns | include/lightsky/utils/generic/SortImpl.hpp:590-631 | Two runs are replaced by their merge, and nothing else in the array changes. |
| MergeSort.OnePass | include/lightsky/utils/generic/SortImpl.hpp:586-632 | The array becomes the pass function of what it was. |
| MergeSort.SortMergeIterative | include/lightsky/utils/generic/SortImpl.hpp:579-634 | The array becomes a stably sorted permutation, the result of the passes. |
| MergeThreads.StepKeeps | include/lightsky/utils/generic/SortImpl.hpp:676-707 | Every single load or store of a thread keeps its part of the round: what is merged is merged right, and only its own cells are touched. |
| MergeThreads.MergeSound | include/lightsky/utils/generic/SortImpl.hpp:657-714 | The blocks of different threads are disjoint and together make up one pass. |
| MergeThreads.MergeThreadsSort | include/lightsky/utils/generic/SortImpl.hpp:642-736 | When a thread returns, in any interleaving of any number of threads, the array is what the sequential sort gives: stably sorted. |
| MergeThreads.MergeRaceFree | include/lightsky/utils/generic/SortImpl.hpp:642-736 | In every reachable state, no thread is about to access a cell, of the array or the buffer, that another one is about to write. |
| MergeEnds.MergeFairRunsEnd | include/lightsky/utils/generic/SortImpl.hpp:642-736 | In every interleaving that never forgets a thread for good, all threads return, and the array then is stably sorted for good. |
| MergeRecursive.CopyBackwards | include/lightsky/utils/generic/SortImpl.hpp:157-165 | The buffer gets the left half as it is and the right half reversed, and stays in bounds. |
| MergeRecursive.UpAndDown | include/lightsky/utils/generic/SortImpl.hpp:157-177 | With two sorted halves laid out like that, one of the two ends of every remaining range is a least element of it, also after a half is used up. |
| MergeRecursive.MergeInward | include/lightsky/utils/generic/SortImpl.hpp:167-177 | Merging from both ends without end-of-run tests reads only the range and sorts it. |
| MergeRecursive.SortMergeImpl | include/lightsky/utils/generic/SortImpl.hpp:143-178 | The range left..right is sorted and rearranged; nothing outside it changes; it terminates. |
| MergeRecursive.SortMerge | include/lightsky/utils/generic/SortImpl.hpp:553-556 | The array becomes a sorted permutation for every strict weak order. |
| QuickSort.SortInsertion | include/lightsky/utils/generic/SortImpl.hpp:495-510 | The given range is sorted and rearranged, and nothing else changes. |
| QuickSort.Scan | include/lightsky/utils/generic/SortImpl.hpp:208-215 | The two scans stop within the range without a bounds test, at elements on the wrong side or where they meet. |
| QuickSort.Turn | include/lightsky/utils/generic/SortImpl.hpp:212-220 | One turn of the loop keeps everything left of m not above the pivot and everything from n on not below it, and the pivot at the end. |
| QuickSort.PartitionHoare | include/lightsky/utils/generic/SortImpl.hpp:201-224 | The pivot ends at m with nothing above it to its left and nothing below it to its right. |
| QuickSort.SortQuickImpl | include/lightsky/utils/generic/SortImpl.hpp:186-228 | The range is sorted and rearranged; nothing outside changes; the recursion with the insertion cutoff terminates. |
| QuickSort.SortQuick | include/lightsky/utils/generic/SortImpl.hpp:765-768 | The array becomes a sorted permutation. |
| QuickSortStack.PartitionLomuto | include/lightsky/utils/generic/SortImpl.hpp:236-269 | What is left of mid is below the element there, and what is right of it is not; the window becomes the one that the partition function gives. |
| QuickSortStack.Divide | include/lightsky/utils/generic/SortImpl.hpp:809-824 | After a partition all ranges are in order with each other, one more element is in its place, and what is to be sorted fits on the stack exactly if it did before. |
| StackDepth.PairsBounded | include/lightsky/utils/generic/SortImpl.hpp:811-822 | A window that is at most 32 long after p halvings needs at most p pairs, because the window sorted next has at most half of the elements. |
| StackDepth.OnlyIfHalved | include/lightsky/utils/generic/SortImpl.hpp:809-824 | An array of 33 * 2^16 elements needs a 17th pair only if its first partition is in the middle. |
| StackDepth.AscendingNeeds | include/lightsky/utils/generic/SortImpl.hpp:236-269 | A strictly ascending window needs as many pairs as it can be halved before it is short. |
| QuickSortStack.SortQuickIterative | include/lightsky/utils/generic/SortImpl.hpp:779-827 | It terminates with a sorted permutation unless the stack overflows, which happens exactly if the array needs a 17th pair: never below 33 * 2^16 elements, with just as many only if the first partition is in the middle, and always if an array of that many or more is strictly ascending. |
| QuickSortStack.SortNumbersInOrder | include/lightsky/utils/generic/SortImpl.hpp:779-827 | Numbers in order overflow the stack if and only if there are at least 33 * 2^16 of them. |
| Counting.PlacedStable | include/lightsky/utils/generic/SortImpl.hpp:904-941 | Putting each element after those with smaller digits and the earlier ones with the same digit is a stable sort by digit. |
| Radix.CountDigits | include/lightsky/utils/generic/SortImpl.hpp:904-914 | The table holds the number of elements with each digit. |
| Radix.AddUp | include/lightsky/utils/generic/SortImpl.hpp:916-921 | The running sums are where the elements with each digit end. |
| Radix.PlaceAll | include/lightsky/utils/generic/SortImpl.hpp:923-934 | Placing from the back puts every element at its stable place, within the buffer. |
| Radix.CountingPass | include/lightsky/utils/generic/SortImpl.hpp:904-941 | One pass moves every element to its stable place by the digit. |
| Radix.NextByte | include/lightsky/utils/generic/SortImpl.hpp:902-942 | After pass m the array is stably sorted by the low m + 1 bytes of the key, if it was by the low m bytes. |
| Radix.SortRadix | include/lightsky/utils/generic/SortImpl.hpp:851-943 | The array becomes a stable permutation in the order of the key modulo 2^32. |
| Radix.SortRadixComparative | include/lightsky/utils/generic/SortImpl.hpp:967-980 | The comparator's answers on 0 and 1 choose the direction; with neither, nothing changes. |
| Radix.RightUpTo32Bits | include/lightsky/utils/Sort.hpp:142-163 | With the two indexers, values below a limit are sorted ascending if and only if the limit is at most 2^32, and descending if and only if it is. |
| RWLock.InvStep | include/lightsky/utils/generic/RWLockImpl.hpp:54-133 | Every atomic access keeps the lock type and the share count equal to the claims and the readers, holding or in transit (modulo m). |
| RWLock.Reachable | include/lightsky/utils/generic/RWLockImpl.hpp:54-133 | This holds after every run of any number of threads that mix blocking and try calls. |
| RWLock.MutualExclusion | include/lightsky/utils/generic/RWLockImpl.hpp:54-133 | In every run there is at most one writer and no reader beside it, if and only if there are at most m threads. |
| RWLock.MutualExclusionAsBuilt | include/lightsky/utils/generic/RWLockImpl.hpp:54-133 | With a count of 32 bits, exclusion holds in every run if and only if there are at most 2^32 threads. |
| RWLock.LeavesNoTrace | include/lightsky/utils/generic/RWLockImpl.hpp:80-133 | Once every thread is idle again, the fields are as at the beginning: failed attempts undo all they did. |
| RWLockCalls.CallsGetWhatTheyAsk | include/lightsky/utils/generic/RWLockImpl.hpp:54-133 | In every run, a reader has called for shared access and a writer for exclusive access; a blocking call returns only after the thread has held the lock that way; a try call ends within four steps of its own. |
| RWLockCalls.HoldersShare | include/lightsky/utils/generic/RWLockImpl.hpp:54-133 | Two threads hold the lock at once only if both have called for shared access, with at most m threads. |
| RWLockCalls.Uncontended | include/lightsky/utils/generic/RWLockImpl.hpp:54-133 | When all are idle, every call gets the lock it asks for in three steps. |
| RWLockCalls.RefusedByAnother | include/lightsky/utils/generic/RWLockImpl.hpp:80-113 | A thread turns back only because another thread has set the lock type, or, for exclusive access, has counted itself as a reader. |
| FairRWLock.LockReachable | include/lightsky/utils/generic/RWLockImpl.hpp:317-374 | After every run, lock type and share count equal the claims and the readers, holding or in transit (modulo m). |
| FairRWLock.MutualExclusion | src/RWLock.cpp:159-201 | In every run there is at most one writer and no reader beside it, if and only if there are at most m threads. |
| FairRWLock.AdmitKeeps | src/RWLock.cpp:161-165 | Admitting a thread whose number has come keeps the ticket invariant: it is the holder of the oldest outstanding ticket, also after the numbers have wrapped. |
| FairRWLock.PassKeeps | include/lightsky/utils/generic/RWLockImpl.hpp:363-374 | Passing on a turn keeps the ticket invariant: it is done once per ticket, by the thread whose turn it is. |
| FairRWLock.TicketReachable | src/RWLock.cpp:159-201 | With at most m threads, each outstanding ticket is in one thread's hands, turns passed on and threads admitted agree with the tickets drawn, and the lock excludes. |
| FairRWLock.Overtaken | src/RWLock.cpp:159-201 | With more than m threads there is a run in which a thread is admitted out of turn. |
| FairRWLock.FirstComeFirstServed | src/RWLock.cpp:159-201 | Threads are admitted in ticket order in every run, if and only if there are at most m threads. |
| FairRWLock.FairAsBuilt | src/RWLock.cpp:159-201 | With counters of 16 bits, exclusion and ticket order hold in every run if and only if there are at most 2^16 threads. |
| FairRWLock.Progress | src/RWLock.cpp:159-201 | While a ticket is outstanding and no thread holds the lock, some thread can take a step that is not a spin. |
| FairRWLockCalls.CallsGetWhatTheyAsk | src/RWLock.cpp:159-201 | In every run, a reader has called for shared access and a writer for exclusive access; a blocking call returns only after the thread has held the lock that way; a try call ends within four steps of its own. |
| FairRWLockCalls.HoldersShare | src/RWLock.cpp:159-201 | Two threads hold the lock at once only if both have called for shared access, with at most m threads. |
| FairRWLockCalls.Uncontended | src/RWLock.cpp:159-201 | When all are idle, every call gets the lock it asks for: lock_shared in six steps, lock in five, the try calls in three. |
| FairRWLockCalls.RefusedByAnother | include/lightsky/utils/generic/RWLockImpl.hpp:317-350 | A thread turns back only because another thread has set the lock type, or, for exclusive access, has counted itself as a reader. |
| RecencyList.LeastRecentlyUsedGo | include/lightsky/utils/generic/LRUCacheImpl.hpp:48-80 | A key is found with the value last stored, if and only if fewer distinct other keys than the capacity were used since. |
| LRUCache.RotationIsUse | include/lightsky/utils/generic/LRUCacheImpl.hpp:48-80 | Rotating keys and slots by one makes the entry the first of the recency list, or drops the last entry; slots stay a permutation and keys distinct. |
| LRUCache.Cache.SearchIndex | include/lightsky/utils/generic/LRUCacheImpl.hpp:29-40 | A key's position, or that it is nowhere. |
| LRUCache.Cache.UpdateIndex | include/lightsky/utils/generic/LRUCacheImpl.hpp:48-80 | Keys and slots up to the key's place move down by one, and the key's slot comes first. |
| LRUCache.Cache.Query | include/lightsky/utils/generic/LRUCacheImpl.hpp:87-103 | The value of the key in the recency list, or none. |
| LRUCache.Cache.Update | include/lightsky/utils/generic/LRUCacheImpl.hpp:110-123 | The key is used with the value that the updater makes of the old value on a hit, and of what is in the last position's slot on a miss. |
| LRUCache.Cache.QueryOrUpdate | include/lightsky/utils/generic/LRUCacheImpl.hpp:130-143 | The key is used; only on a miss is its value the updater's, made of what is in the last position's slot. |
| LRUCache.Cache.Insert | include/lightsky/utils/generic/LRUCacheImpl.hpp:150-181 | The key is used with the new value. |
| LRUCache.Cache.Clear | include/lightsky/utils/generic/LRUCacheImpl.hpp:231-238 | The recency list is empty. |
| BitMatrix.TouchedBits | include/lightsky/utils/generic/LRU8WayCacheImpl.hpp:152-161 | The word operations of a touch set row i, clear column i and change no other bit. |
| BitMatrix.LowestZeroRow | include/lightsky/utils/generic/LRU8WayCacheImpl.hpp:169-178 | If row i is the lowest zero row, the SWAR expression's lowest set bit is the top bit of byte i. |
| BitMatrix.CountTrailingZeroBits | include/lightsky/utils/generic/LRU8WayCacheImpl.hpp:118-144 | The loop terminates on every non-zero word with the number of trailing zeros. |
| BitMatrix.GetLruIndex | include/lightsky/utils/generic/LRU8WayCacheImpl.hpp:169-178 | The index is the lowest zero row. |
| MatrixOrder.TouchShows | include/lightsky/utils/generic/LRU8WayCacheImpl.hpp:152-161 | If the matrix shows an order of touches, then after a touch it shows the order with that slot in front. |
| MatrixOrder.MatrixIsOrder | include/lightsky/utils/generic/LRU8WayCacheImpl.hpp:152-161 | After any run of touches, bit j of row i is set exactly when i was touched and j is untouched or was touched longer ago. |
| MatrixOrder.Victim | include/lightsky/utils/generic/LRU8WayCacheImpl.hpp:169-178 | There is always a zero row, and the lowest is the lowest untouched slot, or the slot touched longest ago if all are. |
| LRU8WayCache.LookupIs | include/lightsky/utils/generic/LRU8WayCacheImpl.hpp:98-107 | The or of eight masks is the slot of the key, or -1. |
| LRU8WayCache.HitIsUse | include/lightsky/utils/generic/LRU8WayCacheImpl.hpp:197-266 | Touching the slot of a key is a use of the key in the recency list. |
| LRU8WayCache.MissIsUse | include/lightsky/utils/generic/LRU8WayCacheImpl.hpp:221-303 | Putting a key in the victim's slot is a use of a new key in the recency list. |
| LRU8WayCache.Cache.UpdateLruIndex | include/lightsky/utils/generic/LRU8WayCacheImpl.hpp:152-161 | The matrix shows the order with the slot in front. |
| LRU8WayCache.Cache.Query | include/lightsky/utils/generic/LRU8WayCacheImpl.hpp:197-214 | The value of the key in the recency list, or none. |
| LRU8WayCache.Cache.Update | include/lightsky/utils/generic/LRU8WayCacheImpl.hpp:221-236 | The key is used with the value that the updater makes of the old value on a hit, and of what is in the victim's slot on a miss. |
| LRU8WayCache.Cache.QueryOrUpdate | include/lightsky/utils/generic/LRU8WayCacheImpl.hpp:243-259 | The key is used; only on a miss is its value the updater's, made of what is in the victim's slot. |
| LRU8WayCache.Cache.Insert | include/lightsky/utils/generic/LRU8WayCacheImpl.hpp:266-303 | The key is used with the new value. |
| LRU8WayCache.Cache.Clear | include/lightsky/utils/generic/LRU8WayCacheImpl.hpp:356-364 | The recency list is empty. |
| CachesAgree.SameSlot | include/lightsky/utils/generic/LRU8WayCacheImpl.hpp:197-259 | Both caches take the same slot for a key, counted from opposite ends, on a hit, on a free slot and on a victim. |
| CachesAgree.MirrorKept | include/lightsky/utils/generic/LRU8WayCacheImpl.hpp:197-364 | A use of a key keeps the slots of one cache those of the other in the opposite order, with the same data. |
| CachesAgree.RunBoth | include/lightsky/utils/generic/LRU8WayCacheImpl.hpp:197-364 | For every sequence of insert, emplace, update, query_or_update, query and clear, whatever the updaters do, this cache and an LRUCache of size 8 give the same hits, misses and values, those of the recency list. |
| RingBuffer.RightIfDividing | include/lightsky/utils/generic/RingBufferImpl.hpp:246-271 | size, back and full are each right for every head and tail, if and only if the capacity divides 2^64. |
| RingBuffer.DividingIsPower | include/lightsky/utils/generic/RingBufferImpl.hpp:257-260 | That is so if and only if the capacity is a power of two. |
| RingBuffer.ThreePositions | include/lightsky/utils/generic/RingBufferImpl.hpp:257-260 | With 3 positions, two elements and the tail gone round, shrink_to_fit drops both elements, and a guarded push is not refused and runs over them. |
| RingBuffer.Buffer.SizeIs | include/lightsky/utils/generic/RingBufferImpl.hpp:246-271 | size is the number of elements, and full is that there is no room, in every state in which the subtraction is exact. |
| RingBuffer.Buffer.PushUnchecked | include/lightsky/utils/generic/RingBufferImpl.hpp:305-309 | The value is behind all others if there is room; otherwise the buffer counts as empty. |
| RingBuffer.Buffer.PushGuarded | include/lightsky/utils/generic/RingBufferImpl.hpp:246-309 | A push is refused exactly if full says so, which it says exactly if there is no room when the subtraction is exact; otherwise it appends, or runs over the elements if there is no room. |
| RingBuffer.Buffer.PopUnchecked | include/lightsky/utils/generic/RingBufferImpl.hpp:354-361 | The first value is taken off. |
| RingBuffer.Buffer.Pop | include/lightsky/utils/generic/RingBufferImpl.hpp:437-447 | The first value is taken off and returned; an empty buffer reports that and stays so. |
| RingBuffer.Buffer.Front | include/lightsky/utils/generic/RingBufferImpl.hpp:454-458 | The oldest value. |
| RingBuffer.Buffer.Back | include/lightsky/utils/generic/RingBufferImpl.hpp:466-470 | The newest value, also when the tail is at 0, if the capacity divides 2^64. |
| RingBuffer.Buffer.Reserve | include/lightsky/utils/generic/RingBufferImpl.hpp:183-227 | When the subtraction is exact the elements and their order stay, and the capacity is what was asked or what they need; without memory nothing changes; 0 empties the buffer; 2^64 - 1 cannot be met. |
| RingBuffer.Buffer.ShrinkToFit | include/lightsky/utils/generic/RingBufferImpl.hpp:293-297 | The elements stay, and the capacity is their number. |
| RingBuffer.Buffer.Copy | include/lightsky/utils/generic/RingBufferImpl.hpp:50-70 | The copy has the same elements in storage of its own, or is empty when there is no memory. |
| RingBuffer.Buffer.Clear | include/lightsky/utils/generic/RingBufferImpl.hpp:279-285 | The buffer is empty and has no storage. |
| Tiling.WholeIsAlone | include/lightsky/utils/GeneralAllocator.hpp:37-50 | A header with as many blocks as its pool is alone in the pool. |
| Tiling.Fused | include/lightsky/utils/generic/GeneralAllocatorImpl.hpp:136-164 | Fusing two blocks that touch keeps the pools exactly tiled; they are in the same pool, because pools do not touch. |
| Tiling.Cut | include/lightsky/utils/generic/GeneralAllocatorImpl.hpp:430-466 | Cutting a block in two keeps the pools exactly tiled. |
| FreeList.RightMerged | include/lightsky/utils/generic/GeneralAllocatorImpl.hpp:136-164 | Merging a block with what follows it gives a well-linked list without touching entries. |
| FreeList.LeftMerged | include/lightsky/utils/generic/GeneralAllocatorImpl.hpp:136-164 | So does merging the last entry before it with the block. |
| Heap.JoinBoth | include/lightsky/utils/generic/GeneralAllocatorImpl.hpp:188-207 | After both merges, free entries and live blocks tile the pools again, in address order with gaps; all others are as before; the merged entry is in the block's pool. |
| Heap.Prune | include/lightsky/utils/generic/GeneralAllocatorImpl.hpp:212-235 | Taking out an entry that is a whole pool leaves the other pools tiled and the list linked, with at most one whole entry. |
| Heap.CarveAll | include/lightsky/utils/generic/GeneralAllocatorImpl.hpp:430-466 | An entry of the exact size becomes a live block, and tiling, order and links are kept. |
| Heap.CarvePart | include/lightsky/utils/generic/GeneralAllocatorImpl.hpp:430-466 | A larger entry is cut, its rest stays in the list in its place, and tiling, order and links are kept. |
| Heap.AddPool | include/lightsky/utils/generic/GeneralAllocatorImpl.hpp:326-391 | A new pool is linked in at its place by address, and everything else is as before. |
| Heap.BaseIsWhole | include/lightsky/utils/generic/GeneralAllocatorImpl.hpp:136-236 | A pool without live blocks is one free entry: coalescing is complete. |
| Heap.AllFreed | include/lightsky/utils/generic/GeneralAllocatorImpl.hpp:172-236 | Without live blocks the list is exactly one whole pool, the only one held, or nothing is held. |
| GeneralAllocator.Allocator.Initial | include/lightsky/utils/generic/GeneralAllocatorImpl.hpp:68-91 | The invariant holds at the beginning, with the initial pool and its size if the source gave one. |
| GeneralAllocator.Allocator.Create | include/lightsky/utils/generic/GeneralAllocatorImpl.hpp:68-91 | The constructor aborts exactly if the initial size is at most one block or not a number of whole blocks; otherwise it holds what the source gives for it. |
| GeneralAllocator.Allocator.Merge | include/lightsky/utils/generic/GeneralAllocatorImpl.hpp:136-164 | The two blocks are linked, or fused exactly when they touch; for blocks that do not overlap the double-free branch is not reached. |
| GeneralAllocator.Allocator.LinkFirst | include/lightsky/utils/generic/GeneralAllocatorImpl.hpp:177-186 | A block below the head becomes the head of the list, and live blocks and their bytes are kept. |
| GeneralAllocator.Allocator.LinkBehind | include/lightsky/utils/generic/GeneralAllocatorImpl.hpp:187-211 | The walk ends (the list has no cycle), the block is linked at its place, and prev is the entry before the one it is part of. |
| GeneralAllocator.Allocator.GiveBack | include/lightsky/utils/generic/GeneralAllocatorImpl.hpp:214-235 | A whole pool is taken out and handed back at its base with its full size. |
| GeneralAllocator.Allocator.FreeImpl | include/lightsky/utils/generic/GeneralAllocatorImpl.hpp:172-236 | The block is no longer live; the invariant holds; all live payloads are kept; the block's pool is handed back exactly if nothing is live in it and something else is free, and no other pool is. |
| GeneralAllocator.Asked | include/lightsky/utils/generic/GeneralAllocatorImpl.hpp:243-277 | The three sizes are the least multiples of the cache size above the request with its reserve, of the cache size, and of the block size. |
| GeneralAllocator.GrantedIsProper | include/lightsky/utils/generic/GeneralAllocatorImpl.hpp:243-307 | Whichever of the three sizes is granted, it is large enough for the request. |
| GeneralAllocator.SizeOfBlock | include/lightsky/utils/generic/GeneralAllocatorImpl.hpp:414-416 | A size needs the blocks that a block has exactly if the block has fewer than 32 bytes more than it. |
| GeneralAllocator.Allocator.AllocNewCache | include/lightsky/utils/generic/GeneralAllocatorImpl.hpp:243-307 | The first grant of the three becomes a pool that its header names; if all are refused, nothing changes. |
| GeneralAllocator.Allocator.InsertCache | include/lightsky/utils/generic/GeneralAllocatorImpl.hpp:364-391 | The new pool is linked in at its place by address. |
| GeneralAllocator.Allocator.Search | include/lightsky/utils/generic/GeneralAllocatorImpl.hpp:339-356 | The first entry that is large enough is found, or there is none and the last entry is known. |
| GeneralAllocator.Allocator.FindOrAllocateEntry | include/lightsky/utils/generic/GeneralAllocatorImpl.hpp:315-398 | The first entry that fits, with nothing changed; else a new pool, kept on record; else a failure that changes nothing. |
| GeneralAllocator.Allocator.Carve | include/lightsky/utils/generic/GeneralAllocatorImpl.hpp:430-466 | The found entry becomes a live block of exactly the blocks needed, and its rest stays free; the branch that links through the head is not reached. |
| GeneralAllocator.Allocator.Allocate | include/lightsky/utils/generic/GeneralAllocatorImpl.hpp:407-506 | First fit; null exactly if nothing was asked, or no free entry fits and the source refuses all three sizes, and then nothing changes; a block has less than 32 bytes more than asked; the invariant holds and all live payloads are kept. |
| GeneralAllocator.Allocator.Free | include/lightsky/utils/generic/GeneralAllocatorImpl.hpp:635-657 | Freeing a live block never aborts, and does to block and pool what _free_impl promises; null changes nothing. |
| GeneralAllocator.Allocator.FreeSized | include/lightsky/utils/generic/GeneralAllocatorImpl.hpp:665-694 | It aborts exactly if the size needs another number of blocks than the block has; so never with the size given to allocate. |
| GeneralAllocator.Allocator.Reallocate | include/lightsky/utils/generic/GeneralAllocatorImpl.hpp:545-582 | The first bytes, up to the smaller of the old payload and the new size, move; other live payloads are kept; a failure, which is one of allocate, changes nothing. |
| GeneralAllocator.Allocator.Replace | include/lightsky/utils/generic/GeneralAllocatorImpl.hpp:607-624 | The new block gets the old one's first bytes or zeros, other payloads are kept, and the old block is freed if its size is given right and is not 0. |
| GeneralAllocator.Allocator.ReallocateSized | include/lightsky/utils/generic/GeneralAllocatorImpl.hpp:590-627 | The same with the size given, whatever it is; null gives zeroed memory; it aborts exactly if a block is replaced and the size, unless 0, needs another number of blocks than the block has. A size of 0 leaves the old block live. |
| GeneralAllocator.Allocator.AllBlocksFreed | include/lightsky/utils/generic/GeneralAllocatorImpl.hpp:172-236 | In every valid state without live blocks, the list is exactly one whole pool, or nothing is held. |
| BTree.PathsDiffer | include/lightsky/utils/generic/BTreeImpl.hpp:233-256 | The bits of different keys are different paths. |
| BTree.BTree.Find | include/lightsky/utils/generic/BTreeImpl.hpp:233-256 | The node at the key's path, or null exactly if there is none. |
| BTree.BTree.AddSubNodes | include/lightsky/utils/generic/BTreeImpl.hpp:275-281 | Two new nodes appear below a leaf, and all others stay where they are, with their data. |
| BTree.BTree.FindOrCreate | include/lightsky/utils/generic/BTreeImpl.hpp:264-295 | The node at the key's path exists afterwards, and creating nodes changes no stored entry. |
| BTree.BTree.SetData | include/lightsky/utils/generic/BTreeImpl.hpp:353-409 | Writing one node's data changes exactly one key of the map and keeps the count right. |
| BTree.BTree.Push | include/lightsky/utils/generic/BTreeImpl.hpp:353-387 | The map gets the entry, nothing else changes, and numNodes is the number of keys. |
| BTree.BTree.Index | include/lightsky/utils/generic/BTreeImpl.hpp:333-345 | The entry, which a missing key first gets with the default. |
| BTree.BTree.Pop | include/lightsky/utils/generic/BTreeImpl.hpp:395-409 | Exactly the key leaves the map; a key that is not there changes nothing; nodes stay. |
| BTree.BTree.Contains | include/lightsky/utils/generic/BTreeImpl.hpp:417-421 | Whether the key is in the map. |
| BTree.BTree.At | include/lightsky/utils/generic/BTreeImpl.hpp:429-463 | The entry of the key, or none. |
| BTree.BTree.Size | include/lightsky/utils/generic/BTreeImpl.hpp:444-448 | The number of keys in the map. |
| BTree.BTree.Clear | include/lightsky/utils/generic/BTreeImpl.hpp:303-311 | The map is empty. |

## Left out

- Sorting: `sort_sheared`, since nothing in the code establishes that its phases suffice; bubble, selection and shell sort, and the forms that allocate their buffer, would only add easy members.
- Sorting: overflow of the `long long` indices and of the phase counter; prefetching, yielding and back-off; memory orderings weaker than sequential consistency.
- QuickSortStack.SortQuickIterative: a store beyond the stack is modelled as an outcome that ends the call, not as a write to other memory.
- Radix.SortRadixComparative: unsigned values only; the ascending indexer adds 2 to a signed value, so signed keys are not in order around its wrap.
- Locks: what a compare-exchange may fail at spuriously, yielding, and memory orderings weaker than sequential consistency; the fields are values of a transition system, since threads interleave between any two accesses.
- Locks: the locks and barriers of the operating system, condition variables and worker pools.
- GeneralAllocator.Allocator.Allocate: the source's regions are assumed to be disjoint from, and not adjacent to, the pools held (the merge compares addresses only), to be large enough, and to be a whole number of blocks.
- GeneralAllocator.Allocator.AllocNewCache: sums and products of sizes are unbounded integers; the wrap-around of the 64-bit ones is not modelled.
- GeneralAllocator.Allocator.FreeSized: an abort is a result that leaves the state as it is; freeing a block that is not live is left out.
- General allocator: the destructor, the form without an offset for the header, moves, `allocate_contiguous`, and the number of bytes reported through a pointer.
- LRUCache.Cache.Insert: the key must not be the reserved key CACHE_MISS, and the same holds for the other operations of both caches; indexing a cache by position is left out.
- CachesAgree.RunBoth: the slots of both caches are made with the same value; elements of a type whose default construction leaves them indeterminate are left out, if an updater looks at them.
- LRU8WayCache.LookupIs: the portable branch only; the vector and assembly branches are left out, as are big-endian layouts.
- RingBuffer.Buffer.Reserve: after a request of 2^64 - 1 the source has no positions at all; the model ends with an outcome of its own there, as it does where a copy loop would run beyond the new storage.
- Ring buffer: the growth in `push` and `emplace`, whose factor of 3/2 leaves the powers of two; assignment.
- BTree.BTree.Push: one method for push and emplace, which differ in how the value is made; copies and moves of trees, keys that are neither pointer-sized nor strings, and the wrap of the 32-bit count are left out.
- Other utilities (bit sets, chunk allocator, strings, arguments, network, time, logging): simple, or input and output.

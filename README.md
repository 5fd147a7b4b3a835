# Sorting homework and a parent-linked search tree, in Dafny

This project models the algorithmic core of a set of data-structures
homeworks written in C++:

- the binary search tree of seminar 9 (`seminars/sem09/trash2.cpp`): heap
  nodes with `left`, `right` and `parent` pointers, `insert` (duplicates
  ignored), `find`, `begin`, `end`, and a bidirectional iterator with prefix
  and postfix `++`/`--`, dereference and comparison, plus the test program's
  walks over the tree built from 5, 3, 7, 1, 4, 6, 8;
- the merge-sort family of the second sorting homework
  (`homework3/task-2/SortTester.cpp`): insertion sort on a subrange, merge of
  two adjacent runs through two temporary vectors, merge sort and the hybrid
  merge sort that insertion-sorts short segments;
- the quicksort / heapsort / introsort algorithms of the third homework
  (`homework3/task-3/sort_algorithms.h`): sift-down `heapify`, `buildHeap`,
  Lomuto `partition` around a random pivot, `heapSort`, `heapSortPartial`
  through a temporary buffer, the standard recursive quicksort and the
  hybrid introsort with its depth limit `2 * floor(log2 n)` and its cutoff
  of 16;
- the deterministic parts of the test-data generators
  (`homework3/task-2/ArrayGenerator.cpp`, `homework3/task-3/data_generator.h`)
  and the `isSorted` check of the benchmark harness.

Every `std::vector<int>` that is changed in place is an `array<int>`, and the
sorting methods are proved to leave their segment sorted, to permute it
(same multiset) and to change nothing outside it. The tree is a `Node` class
with mutable links. Each tree carries a ghost `Shape`: the nodes in in-order,
their keys, and for each node its in-order index, the index range its
subtree covers and a copy of its links. The shape is the tree's footprint
and abstract value. Its invariant gives the binary-search-tree order (keys
strictly ascending in in-order), consistent parent links and the root. Every
iterator step is specified by the in-order index it moves to, where index
`|Keys()|` is `end()`.

Modules: `SortSpec` (sortedness, permutation of a segment, swaps,
`isSorted`), `SortTester` (second sorting homework), `SortAlgorithms` (third sorting homework), `TestData`
(the ascending and descending fills and swap sequences shared by both
generators), `ArrayGenerator`, `DataGenerator`, `SearchTree` and
`SearchTreeTest` (the seminar's test program and iterator round trips).

Random numbers are parameters: a pivot index in `[low, high]`, draws already
inside the distribution's range, swap index pairs inside the vector. The
quicksorts pick their pivot index with `:|`, so they are proved for every
possible choice.

## Model

| member | source | states |
|---|---|---|
| SearchTree.Node.constructor | seminars/sem09/trash2.cpp:13 | a new node holds the key and has no left, right or parent link |
| SearchTree.BinarySearchTree.constructor | seminars/sem09/trash2.cpp:20 | a new tree is valid and empty |
| SearchTree.BinarySearchTree.Insert | seminars/sem09/trash2.cpp:24-39 | the tree stays a valid search tree (strictly ascending in-order keys, parent links consistent, root without parent); its keys become the old keys with key inserted in order; a key already present leaves the keys unchanged; only fresh nodes join the footprint |
| SearchTree.BinarySearchTree.Descend | seminars/sem09/trash2.cpp:25-36 | the descent either stops on a node holding key, whose in-order index has only smaller keys before it, or ends at an empty link below prev (the root link when prev is null) that is exactly the in-order gap where key belongs |
| SearchTree.BinarySearchTree.Attach | seminars/sem09/trash2.cpp:37-38 | hanging a new node at the gap yields a valid shape whose keys are the old ones with key spliced in at the gap's index |
| SearchTree.BinarySearchTree.Hang | seminars/sem09/trash2.cpp:37-38 | after the writes every node's links are those of the grown shape, the new node's parent is prev, and the root changes only when the tree was empty |
| SearchTree.SortedInsertMembers | seminars/sem09/trash2.cpp:24-39 | after insert the key set is the old key set plus key |
| SearchTree.SortedInsertSorted | seminars/sem09/trash2.cpp:24-39 | inserting into strictly ascending keys keeps them strictly ascending |
| SearchTree.SortedInsertLength | seminars/sem09/trash2.cpp:24-39 | insert adds one key when key is new and none when it is present |
| SearchTree.SortedInsertPresent | seminars/sem09/trash2.cpp:33-34 | inserting a key that is already present changes nothing |
| SearchTree.SortedInsertAt | seminars/sem09/trash2.cpp:37 | a new key lands between the keys smaller and the keys larger than it |
| SearchTree.BinarySearchTree.Begin | seminars/sem09/trash2.cpp:131-137 | begin() stands at in-order index 0: the minimum, or end() on an empty tree |
| SearchTree.BinarySearchTree.End | seminars/sem09/trash2.cpp:140 | end() holds no node, keeps the root, and stands at index \|Keys()\| |
| SearchTree.BinarySearchTree.Find | seminars/sem09/trash2.cpp:143-155 | find(key) stands on the node holding key when key is in the tree, and equals end() otherwise (both directions); the tree is not changed |
| SearchTree.Iterator.constructor | seminars/sem09/trash2.cpp:44 | the iterator holds the given node and root |
| SearchTree.Iterator.Increment | seminars/sem09/trash2.cpp:47-63 | ++ moves to the next key in ascending order, from the maximum to end(), and leaves end() unchanged |
| SearchTree.Iterator.PostIncrement | seminars/sem09/trash2.cpp:66-70 | it++ returns a copy at the old position and advances as ++ does |
| SearchTree.Iterator.Decrement | seminars/sem09/trash2.cpp:73-97 | -- moves to the previous key; from end() it reaches the maximum through the stored root; from begin() it walks up past the root to end(); on an empty tree end() stays end() |
| SearchTree.Iterator.PostDecrement | seminars/sem09/trash2.cpp:100-104 | it-- returns a copy at the old position and steps back as -- does |
| SearchTree.Iterator.Deref | seminars/sem09/trash2.cpp:107-119 | * and -> yield the key at the iterator's position, and fail with "Dereferencing end iterator" at end() |
| SearchTree.Iterator.Equals | seminars/sem09/trash2.cpp:122 | two iterators over the same tree are equal iff they stand at the same position, that is on the same node |
| SearchTree.Iterator.NotEquals | seminars/sem09/trash2.cpp:123 | != is the negation of == |
| SearchTreeTest.Forward | seminars/sem09/trash2.cpp:184-187 | the loop from begin() to end() with ++ and * collects exactly the tree's keys, in ascending order |
| SearchTreeTest.Visit | seminars/sem09/trash2.cpp:184-186 | one pass of that loop appends the current key and advances one position |
| SearchTreeTest.Backward | seminars/sem09/trash2.cpp:195-203 | the backward walk from --end() down to begin() collects the keys in descending order; on an empty tree the final *it fails with the end-dereference error |
| SearchTreeTest.Revisit | seminars/sem09/trash2.cpp:198-201 | one pass of the backward loop prints the current key and steps back: the keys collected so far are the keys after the new position, in descending order |
| SearchTreeTest.Lookup | seminars/sem09/trash2.cpp:207-212 | find then compare with end(): the key is reported found iff it is in the tree |
| SearchTreeTest.InsertAll | seminars/sem09/trash2.cpp:175-181 | inserting a list of keys in turn keeps the tree valid and yields the keys folded in one by one |
| SearchTreeTest.ScenarioKeys | seminars/sem09/trash2.cpp:175-181 | inserting 5, 3, 7, 1, 4, 6, 8 into an empty tree gives the keys 1, 3, 4, 5, 6, 7, 8 |
| SearchTreeTest.Build | seminars/sem09/trash2.cpp:172-181 | the test program's tree is valid and holds 1, 3, 4, 5, 6, 7, 8 |
| SearchTreeTest.Scenario | seminars/sem09/trash2.cpp:171-219 | the test program prints 1 3 4 5 6 7 8 for both forward loops, 8 7 6 5 4 3 1 backward, finds 4 and does not find 10 |
| SearchTreeTest.ForwardThenBack | seminars/sem09/trash2.cpp:47-97 | from any node, ++ then -- comes back to the same position |
| SearchTreeTest.BackThenForward | seminars/sem09/trash2.cpp:47-97 | from any position but begin(), end() included, -- then ++ comes back to the same position |
| SearchTreeTest.SingleKey | seminars/sem09/trash2.cpp:131-140 | in a one-key tree begin() dereferences to that key and differs from end() |
| SearchTreeTest.ReversedIndex | seminars/sem09/trash2.cpp:195-203 | the reversed sequence has the same length and element j is the element \|xs\|-1-j of the original |
| SortSpec.IsSorted | homework3/task-3/sort_tester.h:24-31 | the adjacent-pairs scan answers true iff the vector is sorted (every earlier element at most every later one) |
| SortSpec.AdjacentSortedIsSorted | homework3/task-3/sort_tester.h:24-31 | no adjacent descent is equivalent to being sorted, in both directions |
| SortSpec.Swap | homework3/task-3/sort_algorithms.h:26 | std::swap exchanges the two elements; the result is a permutation |
| SortTester.Midpoint | homework3/task-2/SortTester.cpp:36 | for l < r, m = l + (r - l) / 2 satisfies l <= m < r, so both halves are strictly shorter (also line 47) |
| SortTester.InsertionSort | homework3/task-2/SortTester.cpp:4-14 | arr[l..r] ends sorted and is a permutation of its old contents; indices outside [l, r] are unchanged; the range overload at homework3/task-3/sort_algorithms.h:53-65 is the same code and is this method |
| SortTester.ShiftLarger | homework3/task-2/SortTester.cpp:7-11 | the inner loop moves every element of the sorted prefix larger than key one step right and stops after an element at most key or before l |
| SortTester.Merge | homework3/task-2/SortTester.cpp:16-32 | the segment [l, r] becomes the merge of the runs [l, m] and [m+1, r]; nothing else changes |
| SortTester.MergeWriteBack | homework3/task-2/SortTester.cpp:16-32 | merge permutes arr[l..r], and turns two sorted runs into a sorted segment |
| SortTester.MergeRunsPermutes | homework3/task-2/SortTester.cpp:24-31 | the merged sequence holds exactly the elements of both runs |
| SortTester.MergeRunsLength | homework3/task-2/SortTester.cpp:24-31 | the merged sequence is as long as both runs together |
| SortTester.MergeRunsSorted | homework3/task-2/SortTester.cpp:24-31 | merging two sorted runs gives a sorted sequence |
| SortTester.MergeRunsLeftFirst | homework3/task-2/SortTester.cpp:26 | when no left element exceeds any right element the merge is the left run followed by the right run: ties are taken from the left run first |
| SortTester.CopyRun | homework3/task-2/SortTester.cpp:19-22 | the temporary vector is a fresh copy of the run |
| SortTester.MergeHeads | homework3/task-2/SortTester.cpp:24-28 | the main merge loop writes the merge's prefix and leaves what remains of the two runs to be copied |
| SortTester.MergeStep | homework3/task-2/SortTester.cpp:25-27 | one pass of the main loop writes the next element of the merge at l + i + j, the smaller of the two heads and the left one on a tie, and advances that run by one |
| SortTester.CopyTail | homework3/task-2/SortTester.cpp:30-31 | the tail loops copy the rest of a run to its place in the merge |
| SortTester.MergeSort | homework3/task-2/SortTester.cpp:34-41 | arr[l..r] ends sorted and permuted, nothing outside changes; for l >= r nothing changes |
| SortTester.HybridMergeSort | homework3/task-2/SortTester.cpp:43-52 | for any threshold >= 1, arr[l..r] ends sorted and permuted, nothing outside changes |
| SortTester.SortHalvesThenMerge | homework3/task-2/SortTester.cpp:37-39 | sorting both halves and merging them sorts and permutes the whole segment |
| SortAlgorithms.Heapify | homework3/task-3/sort_algorithms.h:14-29 | when both child subtrees of i are max-heaps (every edge inside i's subtree except the two from i), afterwards the whole subtree of i is a max-heap; the multiset is kept, only positions of i's subtree inside [0, n) move, and position i ends with its own old value or a child's |
| SortAlgorithms.SiftedDown | homework3/task-3/sort_algorithms.h:25-27 | swapping i with its larger child and sifting that child down sifts i down |
| SortAlgorithms.HeapExtended | homework3/task-3/sort_algorithms.h:32-33 | when every edge whose parent index exceeds i is in heap order, heapify at i extends that to every edge whose parent index is at least i, since the edges outside i's subtree did not move |
| SortAlgorithms.BuildHeap | homework3/task-3/sort_algorithms.h:31-34 | arr[0..n) becomes a max-heap and a permutation of its old contents |
| SortAlgorithms.HeapRootIsMax | homework3/task-3/sort_algorithms.h:139-141 | the root of a max-heap is at least every element of the heap |
| SortAlgorithms.PlaceMax | homework3/task-3/sort_algorithms.h:139-142 | one pass of the sort-down loop moves the heap maximum to position i and restores the heap on [0, i) |
| SortAlgorithms.SortDownStep | homework3/task-3/sort_algorithms.h:139-142 | that pass keeps the sort-down invariant (sorted suffix, every suffix element at least every heap element) and permutes [0, i] |
| SortAlgorithms.HeapSort | homework3/task-3/sort_algorithms.h:133-143 | the whole vector ends sorted with the same multiset; size at most 1 is a no-op |
| SortAlgorithms.HeapSortPartial | homework3/task-3/sort_algorithms.h:66-84 | arr[low..high] ends sorted and permuted through the temporary buffer; nothing outside changes |
| SortAlgorithms.CopyBack | homework3/task-3/sort_algorithms.h:81-83 | the buffer is written back over [low, low + n) and nothing else changes |
| SortAlgorithms.Partition | homework3/task-3/sort_algorithms.h:36-51 | for any pivot index in [low, high] the result p lies in [low, high], holds the chosen pivot, everything in [low, p) is at most it and everything in (p, high] above it; the segment is permuted and the rest unchanged |
| SortAlgorithms.QuickSortCombine | homework3/task-3/sort_algorithms.h:88-90 | sorting both sides of a partitioned segment sorts and permutes the segment |
| SortAlgorithms.QuickSortStandardRecursive | homework3/task-3/sort_algorithms.h:86-92 | arr[low..high] ends sorted and permuted, nothing outside changes, for every pivot choice |
| SortAlgorithms.QuickSortHybridRecursive | homework3/task-3/sort_algorithms.h:94-109 | for any depth limit it terminates, and arr[low..high] ends sorted and permuted with nothing outside changed, whether the segment goes to insertion sort (high - low < 16), to heapsort (depth 0) or is partitioned with one level less |
| SortAlgorithms.QuickSortStandard | homework3/task-3/sort_algorithms.h:113-116 | the vector ends sorted with the same multiset |
| SortAlgorithms.Log2Floor | homework3/task-3/sort_algorithms.h:123 | the integer part of log2 n: 2^k <= n < 2^(k+1) |
| SortAlgorithms.QuickSortHybrid | homework3/task-3/sort_algorithms.h:119-125 | with depth limit 2 * floor(log2 n) the vector ends sorted with the same multiset |
| SortAlgorithms.InsertionSort | homework3/task-3/sort_algorithms.h:128-130 | the whole-vector insertion sort leaves it sorted with the same multiset |
| TestData.AscendingAt | homework3/task-3/data_generator.h:54-58 | the ascending fill holds i + 1 at index i |
| TestData.AscendingIsSorted | homework3/task-3/data_generator.h:54-58 | the ascending fill is sorted, indeed strictly ascending |
| TestData.DescendingAt | homework3/task-2/ArrayGenerator.cpp:17-23 | the descending fill holds size - i at index i |
| TestData.DescendingIsStrictlyDescending | homework3/task-2/ArrayGenerator.cpp:17-23 | the descending fill is strictly descending |
| TestData.DescendingPermutesAscending | homework3/task-2/ArrayGenerator.cpp:17-23 | the descending fill is a permutation of 1..size |
| TestData.ApplySwaps | homework3/task-2/ArrayGenerator.cpp:35-39 | any sequence of in-range swaps keeps the length and the multiset |
| TestData.ApplySwapsStep | homework3/task-2/ArrayGenerator.cpp:35-39 | applying the swaps from i on is the i-th swap followed by the swaps after it |
| ArrayGenerator.GenerateRandomArray | homework3/task-2/ArrayGenerator.cpp:5-15 | the result has length size and every element in [minVal, maxVal] |
| ArrayGenerator.GenerateReverseSortedArray | homework3/task-2/ArrayGenerator.cpp:17-23 | the result is size, size - 1, ..., 1 |
| ArrayGenerator.GenerateAlmostSortedArray | homework3/task-2/ArrayGenerator.cpp:25-40 | the result is 1..size with the given in-range swaps applied: length size, a permutation of 1..size, and exactly 1..size when no swap is asked for |
| DataGenerator.GenerateData | homework3/task-3/data_generator.h:19-41 | the vector is the one the data type's generator produces from the draws |
| DataGenerator.GeneratedShape | homework3/task-3/data_generator.h:19-41 | every data type yields length size; SORTED holds i + 1 and REVERSED size - i at index i; SORTED, REVERSED and NEARLY_SORTED permute 1..size; RANDOM lies in [1, 10 * size] and FEW_UNIQUE in [1, 10] |
| DataGenerator.GenerateRandom | homework3/task-3/data_generator.h:44-52 | the vector holds the draws, each in [1, 10 * size] |
| DataGenerator.GenerateSorted | homework3/task-3/data_generator.h:54-58 | the vector becomes 1, 2, ..., size |
| DataGenerator.GenerateReversed | homework3/task-3/data_generator.h:60-64 | the vector becomes size, size - 1, ..., 1 |
| DataGenerator.GenerateNearlySorted | homework3/task-3/data_generator.h:66-81 | the vector becomes 1..size with size / 10 in-range swaps applied |
| DataGenerator.GenerateFewUnique | homework3/task-3/data_generator.h:83-91 | the vector holds the draws, each in [1, 10] |

## Left out

- `clear` and the destructor (`seminars/sem09/trash2.cpp:21`, `161-167`): memory is garbage-collected in Dafny; the footprint of a tree is the node set of its ghost shape.
- The template parameter `T` of the tree is `int`.
- SearchTree.Iterator: an iterator records the shape of the tree it was taken from, so an iterator created before an `insert` is not known to be valid afterwards, although the C++ nodes it points to survive the insertion.
- SearchTree.BinarySearchTree.Insert: the new node's parent being the last node visited is stated by Hang and kept inside Valid(); Insert itself states it only through the tree invariant.
- The console output of the test program is replaced by the sequences and values it would print.
- Random numbers (`rand()` in `partition`, `std::mt19937` with `uniform_int_distribution` in the generators) are parameters already inside the distribution's range; the engines themselves are not modelled.
- The floating-point `log2` of `quickSortHybrid` is the integer `Log2Floor`, which equals `static_cast<int>(log2(n))` for every positive 32-bit n.
- 32-bit `int` and `size_t` arithmetic is not modelled: integers are unbounded, so overflow of `size * 10` or of very large keys is not captured.
- SortTester.InsertionSort: requires 0 <= l <= r + 1; the C++ loop also does nothing for l > r + 1, a range no caller in the source passes.
- SortTester.MergeSort: requires 0 <= l <= r + 1 for the same reason.
- SortTester.HybridMergeSort: requires threshold >= 1; with threshold <= 0 the C++ code recurses on a one-element segment forever.
- SortAlgorithms.HeapSortPartial: requires 0 <= low <= high + 1, the only ranges its callers pass.
- SortAlgorithms.QuickSortStandardRecursive: requires 0 <= low <= high + 1, which every call in the source satisfies.
- SortAlgorithms.QuickSortHybridRecursive: requires 0 <= low <= high + 1, which every call in the source satisfies.
- ArrayGenerator.GenerateAlmostSortedArray: swap indices must lie in [0, size), so a positive swap count needs size >= 1; the C++ distribution over [0, size - 1] is undefined for size 0.
- ArrayGenerator.GenerateRandomArray: negative sizes are excluded; a negative `int` passed to the `std::vector` constructor converts to a huge size and throws `std::length_error`, an error path the model does not have.
- ArrayGenerator.GenerateReverseSortedArray: requires size >= 0; for a negative size the `std::vector` constructor throws `std::length_error`, which is not modelled.
- ArrayGenerator.GenerateAlmostSortedArray: requires size >= 0; for a negative size the `std::vector` constructor throws `std::length_error`, which is not modelled.
- DataGenerator.GenerateData: requires size >= 0; for a negative size the `std::vector` constructor throws `std::length_error`, which is not modelled.
- SearchTree.Iterator.Deref: node keys are immutable and dereferencing yields a copy of the key; writing through the references that `*` and `->` return, which could break the search order, is not modelled.
- The timing harnesses (`homework3/task-2/main.cpp`, `homework3/task-3/main.cpp`, `homework3/task-3/sort_tester.h` apart from `isSorted`, `measureTime` in `homework3/task-2/SortTester.h`), the Python plotting scripts and the floating-point Monte Carlo programs of the first homework are not part of this model.

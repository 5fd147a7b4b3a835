/** The SortAlgorithms class: heap sort, randomised quicksort and the
    introsort hybrid that falls back to insertion sort on short segments
    and to heap sort once its depth budget is spent. The vector is an
    array<int>; the random pivot index is a value the caller picks in
    [low, high]. */
module SortAlgorithms {
  import opened SortSpec
  import SortTester

  // ---------------------------------------------------------------------
  // The implicit binary heap: the children of p are 2p + 1 and 2p + 2,
  // so the parent of x > 0 is (x - 1) / 2.
  // ---------------------------------------------------------------------

  /** The parent of node x > 0. */
  function Parent(x: int): int
  {
    (x - 1) / 2
  }

  /** k lies in the subtree rooted at r. */
  ghost predicate InSubtree(r: int, k: int)
    decreases k
  {
    k == r || (r < k && 0 < k && InSubtree(r, Parent(k)))
  }

  /** Every parent-child edge inside s[0..n) whose parent index is at least
      `from` is in max-heap order. */
  ghost predicate HeapFrom(s: seq<int>, from: int, n: int)
    requires n <= |s|
  {
    forall x :: 0 < x < n && from <= Parent(x) ==> s[x] <= s[Parent(x)]
  }

  /** s[0..n) is a max-heap. */
  ghost predicate IsHeap(s: seq<int>, n: int)
    requires n <= |s|
  {
    HeapFrom(s, 0, n)
  }

  /** The subtree of a child of i lies inside the subtree of i. */
  lemma {:induction false} SubtreeOfChild(i: int, c: int, k: int)
    requires 0 <= i && (c == 2 * i + 1 || c == 2 * i + 2)
    requires InSubtree(c, k)
    ensures InSubtree(i, k)
    decreases k
  {
    if k != c {
      SubtreeOfChild(i, c, Parent(k));
    }
  }

  /** The root of a max-heap is its largest element. */
  lemma HeapRootIsMax(s: seq<int>, n: int)
    requires 0 < n <= |s| && IsHeap(s, n)
    ensures AllAtMost(s, 0, n, s[0])
  {
    forall k | 0 <= k < n
      ensures s[k] <= s[0]
    {
      AncestorIsLarger(s, n, k);
    }
  }

  lemma {:induction false} AncestorIsLarger(s: seq<int>, n: int, k: int)
    requires 0 <= k < n <= |s| && IsHeap(s, n)
    ensures s[k] <= s[0]
    decreases k
  {
    if k > 0 {
      AncestorIsLarger(s, n, Parent(k));
    }
  }

  /** Every edge inside the subtree of i, the edges from i itself
      excepted, is in max-heap order: both child subtrees of i are heaps. */
  ghost predicate HeapBelow(s: seq<int>, i: int, n: int)
    requires n <= |s|
  {
    forall x :: 0 < x < n && InSubtree(i, Parent(x)) && Parent(x) != i ==> s[x] <= s[Parent(x)]
  }

  /** Every edge inside the subtree of i is in max-heap order. */
  ghost predicate HeapAt(s: seq<int>, i: int, n: int)
    requires n <= |s|
  {
    forall x :: 0 < x < n && InSubtree(i, Parent(x)) ==> s[x] <= s[Parent(x)]
  }

  /** What heapify(arr, n, i) achieves, from `before` to `after`: the
      subtree of i is a heap, the elements are the same, only positions
      of the subtree of i inside [0, n) moved, and position i holds its
      own old value or that of one of its children. */
  ghost predicate Sifted(before: seq<int>, after: seq<int>, n: int, i: int)
    requires 0 <= i && 0 <= n <= |before|
  {
    && |after| == |before|
    && HeapAt(after, i, n)
    && multiset(after) == multiset(before)
    && (forall k :: 0 <= k < |after| && !(k < n && InSubtree(i, k)) ==> after[k] == before[k])
    && (i < n ==> after[i] == before[i] || (2 * i + 1 < n && after[i] == before[2 * i + 1])
                                       || (2 * i + 2 < n && after[i] == before[2 * i + 2]))
  }

  /** heapify(arr, n, i): sifts arr[i] down inside arr[0..n); the two
      subtrees below i must already be heaps. */
  method Heapify(a: array<int>, n: int, i: int)
    requires 0 <= i && 0 <= n <= a.Length
    requires HeapBelow(a[..], i, n)
    modifies a
    ensures Sifted(old(a[..]), a[..], n, i)
    decreases n - i
  {
    var largest := i;
    var left := 2 * i + 1;
    var right := 2 * i + 2;
    if left < n && a[left] > a[largest] {
      largest := left;
    }
    if right < n && a[right] > a[largest] {
      largest := right;
    }
    if largest != i {
      ghost var s0 := a[..];
      Swap(a, i, largest);
      ghost var s1 := a[..];
      SwapEdgesBelow(s0, s1, n, i, largest);
      Heapify(a, n, largest);
      SiftedDown(s0, s1, a[..], n, i, largest);
    } else {
      ParentIsLargest(a[..], n, i);
    }
  }

  /** No swap: arr[i] is at least both children, so the edges from i hold. */
  lemma ParentIsLargest(s: seq<int>, n: int, i: int)
    requires 0 <= i && 0 <= n <= |s| && HeapBelow(s, i, n)
    requires 2 * i + 1 < n ==> s[2 * i + 1] <= s[i]
    requires 2 * i + 2 < n ==> s[2 * i + 2] <= s[i]
    ensures Sifted(s, s, n, i)
  {
  }

  /** Swapping arr[i] with its child c leaves both subtrees below c heaps. */
  lemma SwapEdgesBelow(s0: seq<int>, s1: seq<int>, n: int, i: int, c: int)
    requires 0 <= i < c < n <= |s0| && (c == 2 * i + 1 || c == 2 * i + 2)
    requires HeapBelow(s0, i, n)
    requires s1 == Swapped(s0, i, c)
    ensures HeapBelow(s1, c, n)
  {
    forall x | 0 < x < n && InSubtree(c, Parent(x)) && Parent(x) != c
      ensures s1[x] <= s1[Parent(x)]
    {
      SubtreeOfChild(i, c, Parent(x));
    }
  }

  /** One level of the sift-down: i swapped with its larger child c, then
      the subtree of c was heapified. */
  lemma SiftedDown(s0: seq<int>, s1: seq<int>, s2: seq<int>, n: int, i: int, c: int)
    requires 0 <= i < c < n <= |s0| && (c == 2 * i + 1 || c == 2 * i + 2)
    requires s0[i] < s0[c]
    requires 2 * i + 1 < n ==> s0[2 * i + 1] <= s0[c]
    requires 2 * i + 2 < n ==> s0[2 * i + 2] <= s0[c]
    requires HeapBelow(s0, i, n)
    requires s1 == Swapped(s0, i, c)
    requires Sifted(s1, s2, n, c)
    ensures Sifted(s0, s2, n, i)
  {
    SiftedDownEdges(s0, s1, s2, n, i, c);
    forall k | 0 <= k < |s2| && !(k < n && InSubtree(i, k))
      ensures s2[k] == s0[k]
    {
      if k < n && InSubtree(c, k) {
        SubtreeOfChild(i, c, k);
      }
    }
  }

  /** The edges of the sift-down: the new arr[i] (the old arr[c]) is at
      least both children; the edges in the subtree of c were restored by
      the recursive call, and the others did not move. */
  lemma SiftedDownEdges(s0: seq<int>, s1: seq<int>, s2: seq<int>, n: int, i: int, c: int)
    requires 0 <= i < c < n <= |s0| && (c == 2 * i + 1 || c == 2 * i + 2)
    requires s0[i] < s0[c]
    requires 2 * i + 1 < n ==> s0[2 * i + 1] <= s0[c]
    requires 2 * i + 2 < n ==> s0[2 * i + 2] <= s0[c]
    requires HeapBelow(s0, i, n)
    requires s1 == Swapped(s0, i, c)
    requires Sifted(s1, s2, n, c)
    ensures HeapAt(s2, i, n)
  {
    assert !InSubtree(c, i);
    assert Parent(c) == i && InSubtree(i, c);
    assert s2[c] <= s0[c] by {
      if 2 * c + 1 < n && s2[c] == s1[2 * c + 1] {
        assert Parent(2 * c + 1) == c;
      } else if 2 * c + 2 < n && s2[c] == s1[2 * c + 2] {
        assert Parent(2 * c + 2) == c;
      }
    }
    forall x | 0 < x < n && InSubtree(i, Parent(x))
      ensures s2[x] <= s2[Parent(x)]
    {
      var p := Parent(x);
      if p == i {
        if x != c {
          assert Parent(x) == i && Parent(c) == i;
          assert !InSubtree(c, x);
        }
      } else if !InSubtree(c, p) {
        assert p != c && x != c;
        assert !InSubtree(c, x);
      }
    }
  }

  /** A heapify at i completes the heap order from i on, when every edge
      with a parent after i already held: the edges outside the subtree of
      i did not move. */
  lemma HeapExtended(s: seq<int>, t: seq<int>, n: int, i: int)
    requires 0 <= i && 0 <= n <= |s| && HeapFrom(s, i + 1, n)
    requires Sifted(s, t, n, i)
    ensures HeapFrom(t, i, n)
  {
    forall x | 0 < x < n && i <= Parent(x)
      ensures t[x] <= t[Parent(x)]
    {
      if !InSubtree(i, Parent(x)) {
        assert !InSubtree(i, x);
      }
    }
  }

  /** buildHeap(arr, n): heapifies the internal nodes from n / 2 - 1 down
      to the root; arr[0..n) ends up a max-heap holding the same elements. */
  method BuildHeap(a: array<int>, n: int)
    requires 0 <= n <= a.Length
    modifies a
    ensures IsHeap(a[..], n)
    ensures Permutes(old(a[..]), a[..], 0, n)
  {
    var i := n / 2 - 1;
    while i >= 0
      invariant -1 <= i <= n / 2 - 1
      invariant HeapFrom(a[..], i + 1, n)
      invariant Permutes(old(a[..]), a[..], 0, n)
    {
      ghost var s := a[..];
      Heapify(a, n, i);
      HeapExtended(s, a[..], n, i);
      i := i - 1;
    }
  }

  // ---------------------------------------------------------------------
  // The sort-down phase shared by heapSort and heapSortPartial.
  // ---------------------------------------------------------------------

  /** Before the step that fills position i: s[0..i] is a max-heap, s[i+1..n)
      is sorted, and nothing in the heap exceeds s[i + 1]. */
  ghost predicate SortingDown(s: seq<int>, i: int, n: int)
    requires -1 <= i < n <= |s|
  {
    IsHeap(s, i + 1) && SortedRange(s, i + 1, n) && (i + 1 < n ==> AllAtMost(s, 0, i + 1, s[i + 1]))
  }

  /** Swapping the root with arr[i] leaves the edges below the root of
      arr[0..i) in heap order, ready for heapify(arr, i, 0). */
  lemma SwapOutRoot(s0: seq<int>, s1: seq<int>, i: int, n: int)
    requires 0 <= i < n <= |s0| && SortingDown(s0, i, n)
    requires s1 == Swapped(s0, 0, i)
    ensures HeapFrom(s1, 1, i)
  {
  }

  /** The body of the sort-down loops: the root, the largest element of
      the heap arr[0..i], is exchanged with arr[i] and arr[0..i) is
      heapified again. */
  method PlaceMax(a: array<int>, i: int, n: int)
    requires 0 <= i < n <= a.Length && SortingDown(a[..], i, n)
    modifies a
    ensures SortingDown(a[..], i - 1, n)
    ensures Permutes(old(a[..]), a[..], 0, i + 1)
  {
    Swap(a, 0, i);
    ghost var s1 := a[..];
    SwapOutRoot(old(a[..]), s1, i, n);
    Heapify(a, i, 0);
    SortDownStep(old(a[..]), s1, a[..], i, n);
  }

  /** One step of the sort-down: the maximum moves from the root to
      position i and the rest of arr[0..i) is heapified again. */
  lemma SortDownStep(s0: seq<int>, s1: seq<int>, s2: seq<int>, i: int, n: int)
    requires 0 <= i < n <= |s0| == |s2| && SortingDown(s0, i, n)
    requires s1 == Swapped(s0, 0, i)
    requires Sifted(s1, s2, i, 0)
    ensures SortingDown(s2, i - 1, n)
    ensures Permutes(s0, s2, 0, i + 1)
  {
    SwapOutRoot(s0, s1, i, n);
    HeapExtended(s1, s2, i, 0);
    HeapRootIsMax(s0, i + 1);
    assert AllAtMost(s1, 0, i, s0[0]);
    assert Permutes(s1, s2, 0, i);
    PermutesAtMost(s1, s2, 0, i, s0[0]);
    SwapPermutes(s0, 0, i, 0, i + 1);
    PermutesCompose(s0, s1, s2, 0, i + 1, 0, i, 0, i + 1);
    assert s2[i] == s0[0];
    forall p, q | i <= p < q < n
      ensures s2[p] <= s2[q]
    {
      if p == i {
        assert s0[0] <= s0[i + 1];
      }
    }
  }

  /** heapSort(arr): builds a max-heap over the whole vector and moves the
      maximum to the back n - 1 times. Vectors of size at most 1 are left
      as they are. */
  method HeapSort(a: array<int>)
    modifies a
    ensures Sorted(a[..])
    ensures multiset(a[..]) == multiset(old(a[..]))
  {
    var n := a.Length;
    if n <= 1 {
      return;
    }
    BuildHeap(a, n);
    var i := n - 1;
    while i > 0
      invariant 0 <= i < n
      invariant SortingDown(a[..], i, n)
      invariant multiset(a[..]) == multiset(old(a[..]))
    {
      PlaceMax(a, i, n);
      i := i - 1;
    }
    HeapSortedOnceRootPlaced(a[..], n);
  }

  /** When only the root is left in the heap, the whole vector is sorted. */
  lemma HeapSortedOnceRootPlaced(s: seq<int>, n: int)
    requires 0 < n == |s| && SortingDown(s, 0, n)
    ensures Sorted(s)
  {
    forall p, q | 0 <= p < q < n
      ensures s[p] <= s[q]
    {
      if p == 0 {
        assert s[0] <= s[1];
      }
    }
  }

  /** heapSortPartial(arr, low, high): heap-sorts a copy of arr[low..high]
      and writes it back. */
  method HeapSortPartial(a: array<int>, low: int, high: int)
    requires 0 <= low <= high + 1 <= a.Length
    modifies a
    ensures SortedRange(a[..], low, high + 1)
    ensures Permutes(old(a[..]), a[..], low, high + 1)
  {
    ghost var s := a[..];
    var n := high - low + 1;
    var temp := SortTester.CopyRun(a, low, n);
    ghost var segment := temp[..];
    BuildHeap(temp, n);
    var i := n - 1;
    while i >= 0
      invariant -1 <= i < n
      invariant SortingDown(temp[..], i, n)
      invariant multiset(temp[..]) == multiset(segment)
      modifies temp
    {
      PlaceMax(temp, i, n);
      i := i - 1;
    }
    assert a[..] == s && temp.Length == n;
    CopyBack(a, low, temp);
    SortedWrittenBack(s, a[..], segment, temp[..], low, high + 1);
  }

  /** Writing a sorted rearrangement of s[lo..hi) back over it sorts that
      segment and only rearranges it. */
  lemma SortedWrittenBack(s: seq<int>, t: seq<int>, segment: seq<int>, sorted: seq<int>, lo: int, hi: int)
    requires 0 <= lo <= hi <= |s| && segment == s[lo..hi]
    requires |sorted| == hi - lo && Sorted(sorted) && multiset(sorted) == multiset(segment)
    requires t == s[..lo] + sorted + s[hi..]
    ensures SortedRange(t, lo, hi) && Permutes(s, t, lo, hi)
  {
    SplicePermutes(s, t, sorted, lo, hi);
    SpliceSorted(s, t, sorted, lo, hi);
  }

  /** The closing loop of heapSortPartial: temp is written back over
      arr[low..low + |temp|). */
  method CopyBack(a: array<int>, low: int, temp: array<int>)
    requires a != temp && 0 <= low && low + temp.Length <= a.Length
    modifies a
    ensures a[..] == old(a[..])[..low] + temp[..] + old(a[..])[low + temp.Length..]
  {
    for k := 0 to temp.Length
      invariant forall p :: 0 <= p < a.Length && !(low <= p < low + k) ==> a[p] == old(a[p])
      invariant forall p :: low <= p < low + k ==> a[p] == temp[p - low]
    {
      a[low + k] := temp[k];
    }
    PointwiseSplice(old(a[..]), a[..], temp[..], low, low + temp.Length);
  }

  // ---------------------------------------------------------------------
  // Quicksort.
  // ---------------------------------------------------------------------

  /** partition(arr, low, high) with the random draw fixed to randomIndex:
      the element there becomes the pivot, moved to arr[high]; Lomuto's scan
      gathers the elements not above it at the front; the pivot lands at the
      returned index, with no larger element before it and only larger
      elements after it. */
  method Partition(a: array<int>, low: int, high: int, randomIndex: int) returns (p: int)
    requires 0 <= low <= randomIndex <= high < a.Length
    modifies a
    ensures low <= p <= high
    ensures a[p] == old(a[randomIndex])
    ensures AllAtMost(a[..], low, p, a[p]) && AllAbove(a[..], p + 1, high + 1, a[p])
    ensures Permutes(old(a[..]), a[..], low, high + 1)
  {
    ghost var s0 := a[..];
    Swap(a, randomIndex, high);
    SwapPermutes(s0, randomIndex, high, low, high + 1);
    var pivot := a[high];
    var i := low - 1;
    for j := low to high
      invariant low - 1 <= i < j
      invariant Scanned(a[..], low, i + 1, j, high, pivot)
      invariant Permutes(s0, a[..], low, high + 1)
    {
      if a[j] <= pivot {
        i := i + 1;
        ghost var before := a[..];
        Swap(a, i, j);
        ScanSwap(s0, before, a[..], low, i, j, high, pivot);
      }
    }
    ghost var before := a[..];
    Swap(a, i + 1, high);
    PivotPlaced(s0, before, a[..], low, i + 1, high, pivot);
    p := i + 1;
  }

  /** Lomuto's scan up to j: the pivot waits at s[high], s[low..m) holds
      elements not above it and s[m..j) elements above it. */
  ghost predicate Scanned(s: seq<int>, low: int, m: int, j: int, high: int, pivot: int)
    requires 0 <= low <= m <= j <= high < |s|
  {
    s[high] == pivot && AllAtMost(s, low, m, pivot) && AllAbove(s, m, j, pivot)
  }

  /** Lomuto's scan meets a[j] <= pivot: it is swapped to the end of the
      "not above the pivot" block, which grows by one, and the block of
      larger elements shifts one place right. */
  lemma ScanSwap(s0: seq<int>, s: seq<int>, t: seq<int>, low: int, i: int, j: int, high: int, pivot: int)
    requires 0 <= low <= i <= j < high < |s|
    requires Scanned(s, low, i, j, high, pivot) && s[j] <= pivot
    requires Permutes(s0, s, low, high + 1)
    requires t == Swapped(s, i, j)
    ensures Scanned(t, low, i + 1, j + 1, high, pivot)
    ensures Permutes(s0, t, low, high + 1)
  {
    SwapPermutes(s, i, j, low, high + 1);
    PermutesCompose(s0, s, t, low, high + 1, low, high + 1, low, high + 1);
  }

  /** The closing swap puts the pivot between the two blocks. */
  lemma PivotPlaced(s0: seq<int>, s: seq<int>, t: seq<int>, low: int, p: int, high: int, pivot: int)
    requires 0 <= low <= p <= high < |s|
    requires Scanned(s, low, p, high, high, pivot)
    requires Permutes(s0, s, low, high + 1)
    requires t == Swapped(s, p, high)
    ensures t[p] == pivot
    ensures AllAtMost(t, low, p, pivot) && AllAbove(t, p + 1, high + 1, pivot)
    ensures Permutes(s0, t, low, high + 1)
  {
    SwapPermutes(s, p, high, low, high + 1);
    PermutesCompose(s0, s, t, low, high + 1, low, high + 1, low, high + 1);
  }

  /** After partitioning around s0[p], sorting both sides sorts the whole
      segment. */
  lemma QuickSortCombine(s0: seq<int>, s1: seq<int>, s2: seq<int>, low: int, p: int, high: int)
    requires 0 <= low <= p <= high < |s0|
    requires AllAtMost(s0, low, p, s0[p]) && AllAbove(s0, p + 1, high + 1, s0[p])
    requires Permutes(s0, s1, low, p) && SortedRange(s1, low, p)
    requires Permutes(s1, s2, p + 1, high + 1) && SortedRange(s2, p + 1, high + 1)
    ensures SortedRange(s2, low, high + 1)
    ensures Permutes(s0, s2, low, high + 1)
  {
    PermutesAtMost(s0, s1, low, p, s0[p]);
    assert AllAbove(s1, p + 1, high + 1, s0[p]);
    PermutesAbove(s1, s2, p + 1, high + 1, s0[p]);
    PermutesCompose(s0, s1, s2, low, p, p + 1, high + 1, low, high + 1);
  }

  /** quickSortStandardRecursive(arr, low, high): sorts arr[low..high] as a
      rearrangement of it, for every choice of the random pivots; a no-op
      when low >= high. */
  method QuickSortStandardRecursive(a: array<int>, low: int, high: int)
    requires 0 <= low <= high + 1 <= a.Length
    modifies a
    ensures SortedRange(a[..], low, high + 1)
    ensures Permutes(old(a[..]), a[..], low, high + 1)
    decreases high - low
  {
    if low < high {
      var randomIndex :| low <= randomIndex <= high;
      var pi := Partition(a, low, high, randomIndex);
      ghost var s0 := a[..];
      QuickSortStandardRecursive(a, low, pi - 1);
      ghost var s1 := a[..];
      QuickSortStandardRecursive(a, pi + 1, high);
      QuickSortCombine(s0, s1, a[..], low, pi, high);
    }
  }

  /** quickSortHybridRecursive(arr, low, high, depthLimit): segments with
      high - low < 16 are insertion-sorted, at depth limit 0 the segment is
      heap-sorted, and otherwise it partitions and recurses with one less
      level of budget. Terminates on the segment length alone. */
  method QuickSortHybridRecursive(a: array<int>, low: int, high: int, depthLimit: int)
    requires 0 <= low <= high + 1 <= a.Length
    modifies a
    ensures SortedRange(a[..], low, high + 1)
    ensures Permutes(old(a[..]), a[..], low, high + 1)
    decreases high - low
  {
    if high - low < InsertionSortCutoff {
      SortTester.InsertionSort(a, low, high);
      return;
    }
    if depthLimit == 0 {
      HeapSortPartial(a, low, high);
      return;
    }
    var randomIndex :| low <= randomIndex <= high;
    var pi := Partition(a, low, high, randomIndex);
    ghost var s0 := a[..];
    QuickSortHybridRecursive(a, low, pi - 1, depthLimit - 1);
    ghost var s1 := a[..];
    QuickSortHybridRecursive(a, pi + 1, high, depthLimit - 1);
    QuickSortCombine(s0, s1, a[..], low, pi, high);
  }

  /** Segments with high - low below this are handed to insertion sort. */
  const InsertionSortCutoff := 16

  /** quickSortStandard(arr): vectors of size at most 1 are returned as they
      are; otherwise the whole vector is quicksorted. */
  method QuickSortStandard(a: array<int>)
    modifies a
    ensures Sorted(a[..])
    ensures multiset(a[..]) == multiset(old(a[..]))
  {
    if a.Length <= 1 {
      return;
    }
    QuickSortStandardRecursive(a, 0, a.Length - 1);
  }

  function Pow2(k: nat): (p: nat)
    ensures 1 <= p
  {
    if k == 0 then 1 else 2 * Pow2(k - 1)
  }

  /** The integer part of log2(n): the exponent of the largest power of two
      not above n. */
  function Log2Floor(n: int): (k: nat)
    requires 1 <= n
    ensures Pow2(k) <= n < 2 * Pow2(k)
  {
    if n == 1 then 0 else 1 + Log2Floor(n / 2)
  }

  /** quickSortHybrid(arr): introsort with the depth budget
      2 * floor(log2(size)). */
  method QuickSortHybrid(a: array<int>)
    modifies a
    ensures Sorted(a[..])
    ensures multiset(a[..]) == multiset(old(a[..]))
  {
    if a.Length <= 1 {
      return;
    }
    var depthLimit := 2 * Log2Floor(a.Length);
    QuickSortHybridRecursive(a, 0, a.Length - 1, depthLimit);
  }

  /** insertionSort(arr): the range insertion sort over the whole vector;
      an empty vector gives the empty range [0, -1]. */
  method InsertionSort(a: array<int>)
    modifies a
    ensures Sorted(a[..])
    ensures multiset(a[..]) == multiset(old(a[..]))
  {
    SortTester.InsertionSort(a, 0, a.Length - 1);
  }
}

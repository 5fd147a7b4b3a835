/** The merge-sort family of homework3/task-2: a range insertion sort, the
    merge of two adjacent sorted runs, top-down merge sort and the hybrid
    that hands short segments to insertion sort. Every routine works in
    place on a[l..r] (both ends inclusive, as in the source). */
module SortTester {
  import opened SortSpec

  /** The midpoint used to split [l, r]; both halves are strictly smaller. */
  function Midpoint(l: int, r: int): (m: int)
    requires l < r
    ensures l <= m < r
    ensures m - l < r - l && r - (m + 1) < r - l
  {
    l + (r - l) / 2
  }

  /** The sequence that `merge` writes back: the head of the left run is
      taken while it is <= the head of the right run. */
  function MergeRuns(left: seq<int>, right: seq<int>): seq<int>
    decreases |left| + |right|
  {
    if left == [] then right
    else if right == [] then left
    else if left[0] <= right[0] then [left[0]] + MergeRuns(left[1..], right)
    else [right[0]] + MergeRuns(left, right[1..])
  }

  /** Merging loses and invents nothing. */
  lemma {:induction false} MergeRunsPermutes(left: seq<int>, right: seq<int>)
    ensures multiset(MergeRuns(left, right)) == multiset(left) + multiset(right)
    decreases |left| + |right|
  {
    if left != [] && right != [] {
      if left[0] <= right[0] {
        MergeRunsPermutes(left[1..], right);
        ConsMultiset(left, MergeRuns(left[1..], right));
      } else {
        MergeRunsPermutes(left, right[1..]);
        ConsMultiset(right, MergeRuns(left, right[1..]));
      }
    }
  }

  /** Putting the head of s in front of a sequence adds it to the multiset. */
  lemma ConsMultiset(s: seq<int>, rest: seq<int>)
    requires s != []
    ensures multiset([s[0]] + rest) == multiset{s[0]} + multiset(rest)
    ensures multiset(s) == multiset{s[0]} + multiset(s[1..])
  {
    assert s == [s[0]] + s[1..];
  }

  /** Merging keeps the total length. */
  lemma {:induction false} MergeRunsLength(left: seq<int>, right: seq<int>)
    ensures |MergeRuns(left, right)| == |left| + |right|
    decreases |left| + |right|
  {
    if left == [] || right == [] {
    } else if left[0] <= right[0] {
      MergeRunsLength(left[1..], right);
    } else {
      MergeRunsLength(left, right[1..]);
    }
  }

  /** Merging two sorted runs gives a sorted sequence. */
  lemma {:induction false} MergeRunsSorted(left: seq<int>, right: seq<int>)
    requires Sorted(left) && Sorted(right)
    ensures Sorted(MergeRuns(left, right))
    decreases |left| + |right|
  {
    if left == [] || right == [] {
    } else if left[0] <= right[0] {
      SliceSorted(left, 1, |left|);
      MergeRunsSorted(left[1..], right);
      assert NoneBelow(left[1..], left[0]) && NoneBelow(right, left[0]) by {
        assert forall k :: 0 < k < |left| ==> left[0] <= left[k];
        assert forall k :: 0 < k < |right| ==> right[0] <= right[k];
      }
      MergeRunsNoneBelow(left[1..], right, left[0]);
      ConsSorted(left[0], MergeRuns(left[1..], right));
    } else {
      SliceSorted(right, 1, |right|);
      MergeRunsSorted(left, right[1..]);
      assert NoneBelow(left, right[0]) && NoneBelow(right[1..], right[0]) by {
        assert forall k :: 0 < k < |left| ==> left[0] <= left[k];
        assert forall k :: 0 < k < |right| ==> right[0] <= right[k];
      }
      MergeRunsNoneBelow(left, right[1..], right[0]);
      ConsSorted(right[0], MergeRuns(left, right[1..]));
    }
  }

  /** No element of s is below h. */
  ghost predicate NoneBelow(s: seq<int>, h: int)
  {
    forall k :: 0 <= k < |s| ==> h <= s[k]
  }

  /** A lower bound on both runs is a lower bound on their merge. */
  lemma {:induction false} MergeRunsNoneBelow(left: seq<int>, right: seq<int>, h: int)
    requires NoneBelow(left, h) && NoneBelow(right, h)
    ensures NoneBelow(MergeRuns(left, right), h)
    decreases |left| + |right|
  {
    if left == [] || right == [] {
    } else if left[0] <= right[0] {
      MergeRunsNoneBelow(left[1..], right, h);
    } else {
      MergeRunsNoneBelow(left, right[1..], h);
    }
  }

  /** Putting a lower bound of a sorted sequence in front keeps it sorted. */
  lemma ConsSorted(h: int, rest: seq<int>)
    requires Sorted(rest) && NoneBelow(rest, h)
    ensures Sorted([h] + rest)
  {
    forall p, q | 0 <= p < q < |rest| + 1 ensures ([h] + rest)[p] <= ([h] + rest)[q] {
      if p > 0 {
        assert rest[p - 1] <= rest[q - 1];
      }
    }
  }

  /** Ties go to the left run: when no element of the left run exceeds any
      element of the right run, the merge keeps the left run in front. */
  lemma {:induction false} MergeRunsLeftFirst(left: seq<int>, right: seq<int>)
    requires forall i, j :: 0 <= i < |left| && 0 <= j < |right| ==> left[i] <= right[j]
    ensures MergeRuns(left, right) == left + right
    decreases |left|
  {
    if left != [] && right != [] {
      assert left[0] <= right[0];
      MergeRunsLeftFirst(left[1..], right);
      assert left == [left[0]] + left[1..];
    }
  }

  /** insertionSort(arr, l, r): shifts larger elements right and drops each
      key into the gap. */
  method InsertionSort(a: array<int>, l: int, r: int)
    requires 0 <= l <= r + 1 <= a.Length
    modifies a
    ensures SortedRange(a[..], l, r + 1)
    ensures Permutes(old(a[..]), a[..], l, r + 1)
  {
    var i := l + 1;
    while i <= r
      invariant l + 1 <= i <= r + 2
      invariant i == r + 2 ==> l == r + 1
      invariant Permutes(old(a[..]), a[..], l, r + 1)
      invariant SortedRange(a[..], l, if i <= r + 1 then i else r + 1)
    {
      var key := a[i];
      ghost var before := a[..];
      var j := ShiftLarger(a, l, i, key);
      a[j + 1] := key;
      InsertKey(before, a[..], l, r, i, j);
      PermutesCompose(old(a[..]), before, a[..], l, r + 1, l, r + 1, l, r + 1);
      i := i + 1;
    }
  }

  /** The inner loop of insertionSort: elements of a[l..i) greater than
      key = a[i] move one place right, scanning down from i - 1; j ends at
      the position below the gap. */
  method ShiftLarger(a: array<int>, l: int, i: int, key: int) returns (j: int)
    requires 0 <= l <= i < a.Length && a[i] == key
    modifies a
    ensures l - 1 <= j <= i - 1
    ensures j >= l ==> a[j] <= key
    ensures forall k :: 0 <= k < a.Length && !(j + 1 < k <= i) ==> a[k] == old(a[k])
    ensures forall k :: j + 1 < k <= i ==> a[k] == old(a[k - 1]) && key < a[k]
  {
    j := i - 1;
    while j >= l && a[j] > key
      invariant l - 1 <= j <= i - 1
      invariant forall k :: 0 <= k < a.Length && !(j + 1 < k <= i) ==> a[k] == old(a[k])
      invariant forall k :: j + 1 < k <= i ==> a[k] == old(a[k - 1]) && key < a[k]
    {
      a[j + 1] := a[j];
      j := j - 1;
    }
  }

  /** One pass of the outer loop of insertion sort: with a[l..i) sorted, the
      elements of a[j+1..i) greater than key = a[i] moved one place right and
      key dropped into position j + 1. The result is a rearrangement of
      a[l..r] whose prefix a[l..i] is sorted. */
  lemma InsertKey(before: seq<int>, after: seq<int>, l: int, r: int, i: int, j: int)
    requires 0 <= l <= j + 1 <= i <= r < |before| == |after|
    requires SortedRange(before, l, i)
    requires j >= l ==> before[j] <= before[i]
    requires after[j + 1] == before[i]
    requires forall k :: 0 <= k < |after| && !(j + 1 <= k <= i) ==> after[k] == before[k]
    requires forall k :: j + 1 < k <= i ==> after[k] == before[k - 1] && before[i] < after[k]
    ensures SortedRange(after, l, i + 1)
    ensures Permutes(before, after, l, r + 1)
  {
    InsertKeySorted(before, after, l, i, j);
    InsertKeyPermutes(before, after, l, r, i, j);
  }

  lemma InsertKeySorted(before: seq<int>, after: seq<int>, l: int, i: int, j: int)
    requires 0 <= l <= j + 1 <= i < |before| == |after|
    requires SortedRange(before, l, i)
    requires j >= l ==> before[j] <= before[i]
    requires after[j + 1] == before[i]
    requires forall k :: l <= k <= j ==> after[k] == before[k]
    requires forall k :: j + 1 < k <= i ==> after[k] == before[k - 1] && before[i] < after[k]
    ensures SortedRange(after, l, i + 1)
  {
    forall p, q | l <= p < q < i + 1 ensures after[p] <= after[q] {
      if q <= j {
      } else if q == j + 1 {
        assert before[p] <= before[j];
      } else if p <= j {
        assert before[p] <= before[q - 1];
      } else if p == j + 1 {
      } else {
        assert before[p - 1] <= before[q - 1];
      }
    }
  }

  lemma InsertKeyPermutes(before: seq<int>, after: seq<int>, l: int, r: int, i: int, j: int)
    requires 0 <= l <= j + 1 <= i <= r < |before| == |after|
    requires after[j + 1] == before[i]
    requires forall k :: 0 <= k < |after| && !(j + 1 <= k <= i) ==> after[k] == before[k]
    requires forall k :: j + 1 < k <= i ==> after[k] == before[k - 1]
    ensures Permutes(before, after, l, r + 1)
  {
    var mid := [before[i]] + before[j + 1..i];
    PointwiseSplice(before, after, mid, j + 1, i + 1);
    assert multiset(mid) == multiset(before[j + 1..i + 1]) by {
      assert before[j + 1..i + 1] == before[j + 1..i] + [before[i]];
    }
    SplicePermutes(before, after, mid, j + 1, i + 1);
  }

  /** s with s[l..r] replaced by the merge of its runs s[l..m] and s[m+1..r]. */
  ghost function MergedInPlace(s: seq<int>, l: int, m: int, r: int): seq<int>
    requires 0 <= l <= m + 1 <= r + 1 <= |s|
  {
    s[..l] + MergeRuns(s[l..m + 1], s[m + 1..r + 1]) + s[r + 1..]
  }

  /** s already agrees with target everywhere except on [k, r], the part
      of the merge still to be written. */
  ghost predicate WrittenUpTo(s: seq<int>, target: seq<int>, k: int, r: int)
  {
    |s| == |target| && forall p :: 0 <= p < |s| && !(k <= p <= r) ==> s[p] == target[p]
  }

  /** merge(arr, l, m, r): copies the runs a[l..m] and a[m+1..r] into L and R
      and writes their merge back over a[l..r]; the rest of a is untouched. */
  method Merge(a: array<int>, l: int, m: int, r: int)
    requires 0 <= l <= m + 1 <= r + 1 <= a.Length
    modifies a
    ensures a[..] == MergedInPlace(old(a[..]), l, m, r)
  {
    ghost var target := MergedInPlace(a[..], l, m, r);
    MergedInPlaceShape(a[..], l, m, r);
    var n1 := m - l + 1;
    var n2 := r - m;
    var L := CopyRun(a, l, n1);
    var R := CopyRun(a, m + 1, n2);
    ghost var merged := MergeRuns(L[..], R[..]);
    assert L[..] == old(a[l..m + 1]) && R[..] == old(a[m + 1..r + 1]);
    MergeRunsLength(L[..], R[..]);
    var i, j, k := MergeHeads(a, L, R, l, r, merged, target);
    k := CopyTail(a, L, i, k, r, target);
    k := CopyTail(a, R, j, k, r, target);
    assert a[..] == target;
  }

  /** What MergedInPlace leaves where: s outside [l, r], the merge inside. */
  lemma MergedInPlaceShape(s: seq<int>, l: int, m: int, r: int)
    requires 0 <= l <= m + 1 <= r + 1 <= |s|
    ensures WrittenUpTo(s, MergedInPlace(s, l, m, r), l, r)
    ensures forall p :: l <= p <= r ==>
              MergedInPlace(s, l, m, r)[p] == MergeRuns(s[l..m + 1], s[m + 1..r + 1])[p - l]
    ensures |MergeRuns(s[l..m + 1], s[m + 1..r + 1])| == r + 1 - l
  {
    MergeRunsLength(s[l..m + 1], s[m + 1..r + 1]);
  }

  /** The vector initialised element by element from a[lo..lo + n). */
  method CopyRun(a: array<int>, lo: int, n: int) returns (c: array<int>)
    requires 0 <= lo && 0 <= n && lo + n <= a.Length
    ensures fresh(c) && c[..] == a[lo..lo + n]
  {
    c := new int[n];
    for i := 0 to n
      invariant forall t :: 0 <= t < i ==> c[t] == a[lo + t]
    {
      c[i] := a[lo + i];
    }
  }

  /** The first loop of merge: while both runs have elements left, the
      smaller head (the left one on a tie) goes to a[k]. It stops when one
      run is used up; the rest of the merge is then what remains of L
      followed by what remains of R. */
  method MergeHeads(a: array<int>, L: array<int>, R: array<int>, l: int, r: int,
                    ghost merged: seq<int>, ghost target: seq<int>)
      returns (i: int, j: int, k: int)
    requires a != L && a != R
    requires 0 <= l && l + L.Length + R.Length == r + 1 <= a.Length
    requires merged == MergeRuns(L[..], R[..]) && |merged| == r + 1 - l
    requires WrittenUpTo(a[..], target, l, r)
    requires forall p :: l <= p <= r ==> target[p] == merged[p - l]
    modifies a
    ensures 0 <= i <= L.Length && 0 <= j <= R.Length && k == l + i + j
    ensures WrittenUpTo(a[..], target, k, r)
    ensures forall p :: k <= p < k + L.Length - i ==> target[p] == L[p - (k - i)]
    ensures forall p :: k + L.Length - i <= p < k + L.Length - i + R.Length - j ==>
              target[p] == R[p - (k + L.Length - i - j)]
  {
    ghost var left, right := L[..], R[..];
    assert left[0..] == left && right[0..] == right;
    i, j, k := 0, 0, l;
    while i < L.Length && j < R.Length
      invariant 0 <= i <= L.Length && 0 <= j <= R.Length && k == l + i + j
      invariant MergeRuns(left[i..], right[j..]) == merged[i + j..]
      invariant forall p :: 0 <= p < a.Length && !(k <= p <= r) ==> a[p] == target[p]
    {
      i, j := MergeStep(a, L, R, l, r, i, j, merged, target);
      k := k + 1;
    }
    TailTargets(target, merged, left, right, l, r, i, j, k);
  }

  /** One step of the merging loop: the smaller head (the left one on a
      tie) is written at position `l + i + j`. */
  method MergeStep(a: array<int>, L: array<int>, R: array<int>, l: int, r: int, i: int, j: int,
                   ghost merged: seq<int>, ghost target: seq<int>)
      returns (i': int, j': int)
    requires a != L && a != R
    requires 0 <= l && l + L.Length + R.Length == r + 1 <= a.Length
    requires 0 <= i < L.Length && 0 <= j < R.Length
    requires |merged| == r + 1 - l && |target| == a.Length
    requires MergeRuns(L[..][i..], R[..][j..]) == merged[i + j..]
    requires forall p :: l <= p <= r ==> target[p] == merged[p - l]
    requires forall p :: 0 <= p < a.Length && !(l + i + j <= p <= r) ==> a[p] == target[p]
    modifies a
    ensures i' + j' == i + j + 1 && i <= i' <= L.Length && j <= j' <= R.Length
    ensures MergeRuns(L[..][i'..], R[..][j'..]) == merged[i' + j'..]
    ensures forall p :: 0 <= p < a.Length && !(l + i' + j' <= p <= r) ==> a[p] == target[p]
  {
    MergeRunsStep(L[..], R[..], merged, i, j);
    if L[i] <= R[j] {
      a[l + i + j] := L[i];
      i', j' := i + 1, j;
    } else {
      a[l + i + j] := R[j];
      i', j' := i, j + 1;
    }
  }

  /** Once one run is used up, the rest of the merge is what remains of
      the left run followed by what remains of the right run; this says
      where those elements land in the target. */
  lemma TailTargets(target: seq<int>, merged: seq<int>, left: seq<int>, right: seq<int>,
                    l: int, r: int, i: int, j: int, k: int)
    requires 0 <= l && |merged| == |left| + |right| == r + 1 - l && r < |target|
    requires 0 <= i <= |left| && 0 <= j <= |right| && (i == |left| || j == |right|) && k == l + i + j
    requires MergeRuns(left[i..], right[j..]) == merged[i + j..]
    requires forall p :: l <= p <= r ==> target[p] == merged[p - l]
    ensures forall p :: k <= p < k + |left| - i ==> target[p] == left[p - (k - i)]
    ensures forall p :: k + |left| - i <= p < k + |left| - i + |right| - j ==>
              target[p] == right[p - (k + |left| - i - j)]
  {
    MergeRunsRest(left[i..], right[j..]);
    forall p | l + i + j <= p <= r
      ensures target[p] == (left[i..] + right[j..])[p - l - i - j]
    {
      assert merged[p - l] == merged[i + j..][p - l - i - j];
    }
  }

  /** The closing loops of merge: the rest src[from..] of a run goes to
      a[k..]; returns the position after the last element written. */
  method CopyTail(a: array<int>, src: array<int>, from: int, k: int, r: int, ghost target: seq<int>)
      returns (k': int)
    requires a != src
    requires 0 <= from <= src.Length && 0 <= k && k + src.Length - from <= r + 1 <= a.Length
    requires WrittenUpTo(a[..], target, k, r)
    requires forall p :: k <= p < k + src.Length - from ==> target[p] == src[p - (k - from)]
    modifies a
    ensures k' == k + src.Length - from
    ensures WrittenUpTo(a[..], target, k', r)
  {
    var i := from;
    k' := k;
    while i < src.Length
      invariant from <= i <= src.Length && k' == k + i - from
      invariant forall p :: 0 <= p < a.Length && !(k' <= p <= r) ==> a[p] == target[p]
    {
      a[k'] := src[i];
      i := i + 1;
      k' := k' + 1;
    }
  }

  /** One step of merge: if the rest of `merged` from position i + j is the
      merge of left[i..] and right[j..], the smaller head (the left one on a
      tie) is the next element, and the rest after it is the merge of what
      remains. */
  lemma MergeRunsStep(left: seq<int>, right: seq<int>, merged: seq<int>, i: int, j: int)
    requires 0 <= i < |left| && 0 <= j < |right| && |merged| == |left| + |right|
    requires MergeRuns(left[i..], right[j..]) == merged[i + j..]
    ensures left[i] <= right[j] ==>
              merged[i + j] == left[i] && MergeRuns(left[i + 1..], right[j..]) == merged[i + j + 1..]
    ensures right[j] < left[i] ==>
              merged[i + j] == right[j] && MergeRuns(left[i..], right[j + 1..]) == merged[i + j + 1..]
  {
    assert left[i..][1..] == left[i + 1..];
    assert right[j..][1..] == right[j + 1..];
    assert merged[i + j..][1..] == merged[i + j + 1..];
  }

  /** Once one run is used up, the merge is the other run. */
  lemma MergeRunsRest(left: seq<int>, right: seq<int>)
    requires left == [] || right == []
    ensures MergeRuns(left, right) == left + right
  {
  }

  /** Writing the merge of the two runs back over a[l..r] only rearranges
      that segment, and sorts it when both runs were sorted. */
  lemma MergeWriteBack(before: seq<int>, after: seq<int>, l: int, m: int, r: int)
    requires 0 <= l <= m + 1 <= r + 1 <= |before|
    requires after == MergedInPlace(before, l, m, r)
    ensures Permutes(before, after, l, r + 1)
    ensures SortedRange(before, l, m + 1) && SortedRange(before, m + 1, r + 1) ==>
              SortedRange(after, l, r + 1)
  {
    MergeRunsLength(before[l..m + 1], before[m + 1..r + 1]);
    MergeOfSplitPermutes(before, l, m, r);
    SplicePermutes(before, after, MergeRuns(before[l..m + 1], before[m + 1..r + 1]), l, r + 1);
    if SortedRange(before, l, m + 1) && SortedRange(before, m + 1, r + 1) {
      MergedInPlaceSorted(before, after, l, m, r);
    }
  }

  lemma MergedInPlaceSorted(before: seq<int>, after: seq<int>, l: int, m: int, r: int)
    requires 0 <= l <= m + 1 <= r + 1 <= |before|
    requires after == MergedInPlace(before, l, m, r) && |after| == |before|
    requires SortedRange(before, l, m + 1) && SortedRange(before, m + 1, r + 1)
    ensures SortedRange(after, l, r + 1)
  {
    var merged := MergeRuns(before[l..m + 1], before[m + 1..r + 1]);
    MergeRunsLength(before[l..m + 1], before[m + 1..r + 1]);
    SliceSorted(before, l, m + 1);
    SliceSorted(before, m + 1, r + 1);
    MergeRunsSorted(before[l..m + 1], before[m + 1..r + 1]);
    SpliceSorted(before, after, merged, l, r + 1);
  }

  /** The merge of the two halves of s[l..r] holds the elements of s[l..r]. */
  lemma MergeOfSplitPermutes(s: seq<int>, l: int, m: int, r: int)
    requires 0 <= l <= m + 1 <= r + 1 <= |s|
    ensures multiset(MergeRuns(s[l..m + 1], s[m + 1..r + 1])) == multiset(s[l..r + 1])
  {
    MergeRunsPermutes(s[l..m + 1], s[m + 1..r + 1]);
    assert s[l..r + 1] == s[l..m + 1] + s[m + 1..r + 1];
  }

  /** mergeSort(arr, l, r): top-down merge sort of a[l..r]; a no-op when l >= r. */
  method MergeSort(a: array<int>, l: int, r: int)
    requires 0 <= l <= r + 1 <= a.Length
    modifies a
    ensures SortedRange(a[..], l, r + 1)
    ensures Permutes(old(a[..]), a[..], l, r + 1)
    decreases r - l
  {
    if l < r {
      var m := Midpoint(l, r);
      ghost var a0 := a[..];
      MergeSort(a, l, m);
      ghost var a1 := a[..];
      MergeSort(a, m + 1, r);
      ghost var a2 := a[..];
      Merge(a, l, m, r);
      MergeWriteBack(a2, a[..], l, m, r);
      SortHalvesThenMerge(a0, a1, a2, a[..], l, m, r);
    }
  }

  /** hybridMergeSort(arr, l, r, threshold): as merge sort, but segments of at
      most `threshold` elements are insertion-sorted. The source recurses on a
      one-element segment forever when threshold <= 0, hence the requirement. */
  method HybridMergeSort(a: array<int>, l: int, r: int, threshold: int)
    requires 0 <= l <= r + 1 <= a.Length
    requires threshold >= 1
    modifies a
    ensures SortedRange(a[..], l, r + 1)
    ensures Permutes(old(a[..]), a[..], l, r + 1)
    decreases r - l
  {
    if r - l + 1 <= threshold {
      InsertionSort(a, l, r);
    } else {
      var m := Midpoint(l, r);
      ghost var a0 := a[..];
      HybridMergeSort(a, l, m, threshold);
      ghost var a1 := a[..];
      HybridMergeSort(a, m + 1, r, threshold);
      ghost var a2 := a[..];
      Merge(a, l, m, r);
      MergeWriteBack(a2, a[..], l, m, r);
      SortHalvesThenMerge(a0, a1, a2, a[..], l, m, r);
    }
  }

  /** The step shared by both merge sorts: sort [l, m], then [m+1, r], then
      merge; the result sorts [l, r]. */
  lemma SortHalvesThenMerge(a0: seq<int>, a1: seq<int>, a2: seq<int>, a3: seq<int>, l: int, m: int, r: int)
    requires 0 <= l <= m < r < |a0|
    requires Permutes(a0, a1, l, m + 1) && SortedRange(a1, l, m + 1)
    requires Permutes(a1, a2, m + 1, r + 1) && SortedRange(a2, m + 1, r + 1)
    requires Permutes(a2, a3, l, r + 1)
    requires SortedRange(a2, l, m + 1) && SortedRange(a2, m + 1, r + 1) ==> SortedRange(a3, l, r + 1)
    ensures SortedRange(a3, l, r + 1) && Permutes(a0, a3, l, r + 1)
  {
    assert SortedRange(a2, l, m + 1) by {
      forall p, q | l <= p < q < m + 1 ensures a2[p] <= a2[q] {
        assert a2[p] == a1[p] && a2[q] == a1[q];
      }
    }
    PermutesCompose(a0, a1, a2, l, m + 1, m + 1, r + 1, l, r + 1);
  }
}

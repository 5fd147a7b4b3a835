/** Shared vocabulary for the in-place sorting routines: what it means for a
    segment of a vector to be sorted, and for a call to have only permuted
    that segment. */
module SortSpec {

  /** s[lo..hi) is non-decreasing. */
  ghost predicate SortedRange(s: seq<int>, lo: int, hi: int)
    requires 0 <= lo <= hi <= |s|
  {
    forall i, j :: lo <= i < j < hi ==> s[i] <= s[j]
  }

  ghost predicate Sorted(s: seq<int>)
  {
    SortedRange(s, 0, |s|)
  }

  /** s and t agree everywhere outside [lo, hi). */
  ghost predicate SameOutside(s: seq<int>, t: seq<int>, lo: int, hi: int)
  {
    |s| == |t| && forall k :: 0 <= k < |s| && !(lo <= k < hi) ==> s[k] == t[k]
  }

  /** `after` arises from `before` by rearranging the elements of [lo, hi)
      only: the same multiset overall, and nothing outside [lo, hi) moved.
      SegmentPermutes shows this is "a[lo..hi) is a permutation of its old
      contents and the rest is unchanged". */
  ghost predicate Permutes(before: seq<int>, after: seq<int>, lo: int, hi: int)
  {
    multiset(after) == multiset(before) && SameOutside(before, after, lo, hi)
  }

  /** Every element of s[lo..hi) is at most x. */
  ghost predicate AllAtMost(s: seq<int>, lo: int, hi: int, x: int)
    requires 0 <= lo <= hi <= |s|
  {
    forall k :: lo <= k < hi ==> s[k] <= x
  }

  /** Every element of s[lo..hi) is greater than x. */
  ghost predicate AllAbove(s: seq<int>, lo: int, hi: int, x: int)
    requires 0 <= lo <= hi <= |s|
  {
    forall k :: lo <= k < hi ==> x < s[k]
  }

  /** When nothing outside [lo, hi) moves, preserving the multiset of the
      whole sequence is the same as preserving the multiset of the segment. */
  lemma SegmentPermutes(before: seq<int>, after: seq<int>, lo: int, hi: int)
    requires 0 <= lo <= hi <= |before|
    requires SameOutside(before, after, lo, hi)
    ensures Permutes(before, after, lo, hi) <==> multiset(after[lo..hi]) == multiset(before[lo..hi])
  {
    SameOutsideSlices(before, after, lo, hi);
    MultisetOfParts(before, lo, hi);
    MultisetOfParts(after, lo, hi);
    var outside := multiset(before[..lo]) + multiset(before[hi..]);
    MultisetCancel(multiset(after[lo..hi]), multiset(before[lo..hi]), outside);
  }

  lemma SameOutsideSlices(before: seq<int>, after: seq<int>, lo: int, hi: int)
    requires 0 <= lo <= hi <= |before|
    requires SameOutside(before, after, lo, hi)
    ensures before[..lo] == after[..lo] && before[hi..] == after[hi..]
  {
  }

  lemma MultisetOfParts(s: seq<int>, lo: int, hi: int)
    requires 0 <= lo <= hi <= |s|
    ensures multiset(s) == multiset(s[lo..hi]) + (multiset(s[..lo]) + multiset(s[hi..]))
  {
    assert s == s[..lo] + s[lo..hi] + s[hi..];
  }

  lemma MultisetCancel(x: multiset<int>, y: multiset<int>, o: multiset<int>)
    ensures x + o == y + o <==> x == y
  {
    if x + o == y + o {
      assert x == (x + o) - o;
      assert y == (y + o) - o;
    }
  }

  /** Rearranging [lo1, hi1) and then [lo2, hi2), both inside [lo, hi),
      rearranges [lo, hi). */
  lemma PermutesCompose(a: seq<int>, b: seq<int>, c: seq<int>, lo1: int, hi1: int, lo2: int, hi2: int, lo: int, hi: int)
    requires lo <= lo1 && hi1 <= hi && lo <= lo2 && hi2 <= hi
    requires Permutes(a, b, lo1, hi1) && Permutes(b, c, lo2, hi2)
    ensures Permutes(a, c, lo, hi)
  {
  }

  /** Rearranging a segment keeps an upper bound on its elements. */
  lemma PermutesAtMost(a: seq<int>, b: seq<int>, lo: int, hi: int, x: int)
    requires 0 <= lo <= hi <= |a|
    requires Permutes(a, b, lo, hi) && AllAtMost(a, lo, hi, x)
    ensures AllAtMost(b, lo, hi, x)
  {
    SegmentPermutes(a, b, lo, hi);
    forall k | lo <= k < hi
      ensures b[k] <= x
    {
      assert b[k] == b[lo..hi][k - lo];
      assert b[k] in multiset(a[lo..hi]);
      var k' :| 0 <= k' < hi - lo && a[lo..hi][k'] == b[k];
      assert a[lo + k'] == b[k];
    }
  }

  /** Rearranging a segment keeps a strict lower bound on its elements. */
  lemma PermutesAbove(a: seq<int>, b: seq<int>, lo: int, hi: int, x: int)
    requires 0 <= lo <= hi <= |a|
    requires Permutes(a, b, lo, hi) && AllAbove(a, lo, hi, x)
    ensures AllAbove(b, lo, hi, x)
  {
    SegmentPermutes(a, b, lo, hi);
    forall k | lo <= k < hi
      ensures x < b[k]
    {
      assert b[k] == b[lo..hi][k - lo];
      assert b[k] in multiset(a[lo..hi]);
      var k' :| 0 <= k' < hi - lo && a[lo..hi][k'] == b[k];
      assert a[lo + k'] == b[k];
    }
  }

  /** A sorted segment, cut out, is a sorted sequence. */
  lemma SliceSorted(s: seq<int>, lo: int, hi: int)
    requires 0 <= lo <= hi <= |s| && SortedRange(s, lo, hi)
    ensures Sorted(s[lo..hi])
  {
    forall i, j | 0 <= i < j < hi - lo ensures s[lo..hi][i] <= s[lo..hi][j] {
      assert s[lo + i] <= s[lo + j];
    }
  }

  /** A sequence that agrees with `mid` on [lo, hi) and with s elsewhere is
      s with [lo, hi) replaced by `mid`. */
  lemma PointwiseSplice(s: seq<int>, t: seq<int>, mid: seq<int>, lo: int, hi: int)
    requires 0 <= lo <= hi <= |s| == |t| && |mid| == hi - lo
    requires forall p :: lo <= p < hi ==> t[p] == mid[p - lo]
    requires forall p :: 0 <= p < lo || hi <= p < |s| ==> t[p] == s[p]
    ensures t == s[..lo] + mid + s[hi..]
  {
    assert forall p :: 0 <= p < |t| ==> t[p] == (s[..lo] + mid + s[hi..])[p];
  }

  /** Replacing s[lo..hi) by a rearrangement of it is a permutation of
      that segment. */
  lemma SplicePermutes(s: seq<int>, t: seq<int>, middle: seq<int>, lo: int, hi: int)
    requires 0 <= lo <= hi <= |s| && |middle| == hi - lo
    requires t == s[..lo] + middle + s[hi..]
    requires multiset(middle) == multiset(s[lo..hi])
    ensures Permutes(s, t, lo, hi)
  {
    assert t[lo..hi] == middle;
    SegmentPermutes(s, t, lo, hi);
  }

  /** Replacing s[lo..hi) by a sorted sequence sorts that segment. */
  lemma SpliceSorted(s: seq<int>, t: seq<int>, middle: seq<int>, lo: int, hi: int)
    requires 0 <= lo <= hi <= |s| && |middle| == hi - lo
    requires t == s[..lo] + middle + s[hi..]
    requires Sorted(middle)
    ensures SortedRange(t, lo, hi)
  {
    forall p, q | lo <= p < q < hi ensures t[p] <= t[q] {
      assert t[p] == middle[p - lo] && t[q] == middle[q - lo];
    }
  }

  /** s with the elements at x and y exchanged. */
  function Swapped(s: seq<int>, x: int, y: int): (t: seq<int>)
    requires 0 <= x < |s| && 0 <= y < |s|
    ensures |t| == |s| && multiset(t) == multiset(s)
  {
    var u := s[x := s[y]];
    assert multiset(u) == multiset(s) - multiset{s[x]} + multiset{s[y]};
    assert multiset(u[y := s[x]]) == multiset(u) - multiset{u[y]} + multiset{s[x]};
    u[y := s[x]]
  }

  /** Exchanging two elements of s[lo..hi) only rearranges that segment. */
  lemma SwapPermutes(s: seq<int>, x: int, y: int, lo: int, hi: int)
    requires 0 <= lo <= x < hi <= |s| && lo <= y < hi
    ensures Permutes(s, Swapped(s, x, y), lo, hi)
  {
  }

  /** std::swap on two elements of a vector. */
  method Swap(a: array<int>, x: int, y: int)
    requires 0 <= x < a.Length && 0 <= y < a.Length
    modifies a
    ensures a[..] == Swapped(old(a[..]), x, y)
  {
    a[x], a[y] := a[y], a[x];
  }

  /** The adjacent-pairs check is the same as sortedness. */
  ghost predicate AdjacentSorted(s: seq<int>)
  {
    forall i :: 1 <= i < |s| ==> s[i - 1] <= s[i]
  }

  lemma {:induction false} AdjacentSortedIsSorted(s: seq<int>)
    ensures AdjacentSorted(s) <==> Sorted(s)
  {
    if AdjacentSorted(s) && |s| > 0 {
      AdjacentSortedIsSorted(s[1..]);
      assert AdjacentSorted(s[1..]) by {
        forall i | 1 <= i < |s[1..]| ensures s[1..][i - 1] <= s[1..][i] {
          assert s[i] <= s[i + 1];
        }
      }
      forall i, j | 0 <= i < j < |s| ensures s[i] <= s[j] {
        if i > 0 {
          assert s[1..][i - 1] <= s[1..][j - 1];
        } else if j > 1 {
          assert s[1..][0] <= s[1..][j - 1];
        }
      }
    }
  }

  /** isSorted: a single left-to-right pass comparing neighbours. */
  method IsSorted(arr: seq<int>) returns (b: bool)
    ensures b <==> Sorted(arr)
  {
    AdjacentSortedIsSorted(arr);
    var i := 1;
    while i < |arr|
      invariant 1 <= i <= |arr| + 1
      invariant forall k :: 1 <= k < i && k < |arr| ==> arr[k - 1] <= arr[k]
    {
      if arr[i] < arr[i - 1] {
        return false;
      }
      i := i + 1;
    }
    return true;
  }
}

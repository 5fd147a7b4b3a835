/** The shapes of the generated test vectors: 1..n ascending, n..1
    descending, a sequence of index swaps applied to a vector, and values
    confined to a range. Both generators are specified against these. */
module TestData {
  import SortSpec

  /** 1, 2, ..., n. */
  function Ascending(n: nat): (s: seq<int>)
    ensures |s| == n
  {
    if n == 0 then [] else Ascending(n - 1) + [n]
  }

  /** n, n - 1, ..., 1. */
  function Descending(n: nat): (s: seq<int>)
    ensures |s| == n
  {
    if n == 0 then [] else [n] + Descending(n - 1)
  }

  lemma {:induction false} AscendingAt(n: nat, k: int)
    requires 0 <= k < n
    ensures Ascending(n)[k] == k + 1
  {
    if k < n - 1 {
      AscendingAt(n - 1, k);
    }
  }

  lemma {:induction false} DescendingAt(n: nat, k: int)
    requires 0 <= k < n
    ensures Descending(n)[k] == n - k
  {
    if k > 0 {
      DescendingAt(n - 1, k - 1);
    }
  }

  /** 1..n is sorted, and strictly so. */
  lemma AscendingIsSorted(n: nat)
    ensures SortSpec.Sorted(Ascending(n))
    ensures forall i, j :: 0 <= i < j < n ==> Ascending(n)[i] < Ascending(n)[j]
  {
    forall i, j | 0 <= i < j < n
      ensures Ascending(n)[i] < Ascending(n)[j]
    {
      AscendingAt(n, i);
      AscendingAt(n, j);
    }
  }

  /** n..1 is strictly descending. */
  lemma DescendingIsStrictlyDescending(n: nat)
    ensures forall i, j :: 0 <= i < j < n ==> Descending(n)[i] > Descending(n)[j]
  {
    forall i, j | 0 <= i < j < n
      ensures Descending(n)[i] > Descending(n)[j]
    {
      DescendingAt(n, i);
      DescendingAt(n, j);
    }
  }

  /** n..1 holds exactly the numbers 1..n. */
  lemma {:induction false} DescendingPermutesAscending(n: nat)
    ensures multiset(Descending(n)) == multiset(Ascending(n))
  {
    if n > 0 {
      DescendingPermutesAscending(n - 1);
    }
  }

  /** Every element of s lies in [lo, hi]. */
  ghost predicate InRange(s: seq<int>, lo: int, hi: int)
  {
    forall k :: 0 <= k < |s| ==> lo <= s[k] <= hi
  }

  /** Both indices of every pair lie in [0, n). */
  ghost predicate IndexPairs(swaps: seq<(int, int)>, n: int)
  {
    forall k :: 0 <= k < |swaps| ==> 0 <= swaps[k].0 < n && 0 <= swaps[k].1 < n
  }

  /** The swaps applied to s in order, the first one first. */
  function ApplySwaps(s: seq<int>, swaps: seq<(int, int)>): (t: seq<int>)
    requires IndexPairs(swaps, |s|)
    ensures |t| == |s| && multiset(t) == multiset(s)
    decreases |swaps|
  {
    if swaps == [] then s else ApplySwaps(SortSpec.Swapped(s, swaps[0].0, swaps[0].1), swaps[1..])
  }

  /** Applying the swaps from position i on, one swap at a time. */
  lemma ApplySwapsStep(s: seq<int>, swaps: seq<(int, int)>, i: int)
    requires 0 <= i < |swaps| && IndexPairs(swaps, |s|)
    ensures ApplySwaps(s, swaps[i..]) == ApplySwaps(SortSpec.Swapped(s, swaps[i].0, swaps[i].1), swaps[i + 1..])
  {
    assert swaps[i..][0] == swaps[i];
    assert swaps[i..][1..] == swaps[i + 1..];
  }
}

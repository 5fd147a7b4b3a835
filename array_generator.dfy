/** The ArrayGenerator of the merge-sort benchmark. The values drawn from
    the random engine are parameters: `draws` for the element values,
    `swaps` for the index pairs of the almost-sorted vector, each already
    in the range the distribution was built with. */
module ArrayGenerator {
  import opened TestData
  import SortSpec

  /** generateRandomArray(size, minVal, maxVal): size values drawn from
      [minVal, maxVal]. */
  method GenerateRandomArray(size: int, minVal: int, maxVal: int, draws: seq<int>) returns (arr: seq<int>)
    requires 0 <= size && |draws| == size && InRange(draws, minVal, maxVal)
    ensures |arr| == size && InRange(arr, minVal, maxVal)
    ensures arr == draws
  {
    var a := new int[size];
    for i := 0 to size
      invariant forall k :: 0 <= k < i ==> a[k] == draws[k]
    {
      a[i] := draws[i];
    }
    arr := a[..];
  }

  /** generateReverseSortedArray(size): size, size - 1, ..., 1. */
  method GenerateReverseSortedArray(size: int) returns (arr: seq<int>)
    requires 0 <= size
    ensures arr == Descending(size)
  {
    var a := new int[size];
    for i := 0 to size
      invariant forall k :: 0 <= k < i ==> a[k] == size - k
    {
      a[i] := size - i;
    }
    arr := a[..];
    forall k | 0 <= k < size
      ensures arr[k] == Descending(size)[k]
    {
      DescendingAt(size, k);
    }
  }

  /** generateAlmostSortedArray(size, swapsCount): 1..size, then
      swapsCount exchanges of two positions drawn from [0, size - 1]. */
  method GenerateAlmostSortedArray(size: int, swapsCount: int, swaps: seq<(int, int)>) returns (arr: seq<int>)
    requires 0 <= size
    requires |swaps| == (if swapsCount < 0 then 0 else swapsCount) && IndexPairs(swaps, size)
    ensures arr == ApplySwaps(Ascending(size), swaps)
    ensures |arr| == size && multiset(arr) == multiset(Ascending(size))
    ensures swapsCount <= 0 ==> arr == Ascending(size)
  {
    var a := new int[size];
    for i := 0 to size
      invariant forall k :: 0 <= k < i ==> a[k] == k + 1
    {
      a[i] := i + 1;
    }
    forall k | 0 <= k < size
      ensures a[k] == Ascending(size)[k]
    {
      AscendingAt(size, k);
    }
    assert a[..] == Ascending(size);
    assert swaps[0..] == swaps;
    for i := 0 to |swaps|
      invariant ApplySwaps(a[..], swaps[i..]) == ApplySwaps(Ascending(size), swaps)
    {
      var (idx1, idx2) := swaps[i];
      ghost var before := a[..];
      SortSpec.Swap(a, idx1, idx2);
      ApplySwapsStep(before, swaps, i);
    }
    arr := a[..];
    assert swaps[|swaps|..] == [];
  }
}

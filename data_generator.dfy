/** The DataGenerator of the introsort benchmark: a vector of the requested
    size filled according to one of five data types. The values drawn from
    the random engine are parameters, each already in the range the
    distribution was built with. */
module DataGenerator {
  import opened TestData
  import SortSpec

  datatype DataType = Random | Sorted | Reversed | NearlySorted | FewUnique

  /** Values of a FEW_UNIQUE vector are drawn from [1, FewUniqueMax]. */
  const FewUniqueMax := 10

  /** RANDOM values are drawn from [1, RandomFactor * size]. */
  const RandomFactor := 10

  /** NEARLY_SORTED applies size / NearlySortedDivisor swaps. */
  const NearlySortedDivisor := 10

  /** What the random engine has to supply for a vector of this size and
      type: one value per element for RANDOM and FEW_UNIQUE, size / 10
      index pairs for NEARLY_SORTED, nothing otherwise. */
  ghost predicate DrawsFit(size: nat, dataType: DataType, draws: seq<int>, swaps: seq<(int, int)>)
  {
    match dataType
    case Random => |draws| == size && InRange(draws, 1, RandomFactor * size)
    case FewUnique => |draws| == size && InRange(draws, 1, FewUniqueMax)
    case NearlySorted => |swaps| == size / NearlySortedDivisor && IndexPairs(swaps, size)
    case _ => true
  }

  /** The vector generateData produces. */
  ghost function Generated(size: nat, dataType: DataType, draws: seq<int>, swaps: seq<(int, int)>): seq<int>
    requires DrawsFit(size, dataType, draws, swaps)
  {
    match dataType
    case Random => draws
    case Sorted => Ascending(size)
    case Reversed => Descending(size)
    case NearlySorted => ApplySwaps(Ascending(size), swaps)
    case FewUnique => draws
  }

  /** generateData(size, type): allocates a vector of size elements and
      fills it by type. */
  method GenerateData(size: int, dataType: DataType, draws: seq<int>, swaps: seq<(int, int)>)
      returns (data: seq<int>)
    requires 0 <= size && DrawsFit(size, dataType, draws, swaps)
    ensures data == Generated(size, dataType, draws, swaps)
  {
    var a := new int[size];
    match dataType {
      case Random => GenerateRandom(a, draws);
      case Sorted => GenerateSorted(a);
      case Reversed => GenerateReversed(a);
      case NearlySorted => GenerateNearlySorted(a, swaps);
      case FewUnique => GenerateFewUnique(a, draws);
    }
    data := a[..];
  }

  /** generateData always yields a vector of the requested size; SORTED is
      1..size and ascending, REVERSED is size..1, NEARLY_SORTED holds
      exactly the numbers 1..size, and the random types stay within their
      ranges. */
  lemma GeneratedShape(size: nat, dataType: DataType, draws: seq<int>, swaps: seq<(int, int)>)
    requires DrawsFit(size, dataType, draws, swaps)
    ensures |Generated(size, dataType, draws, swaps)| == size
    ensures dataType == Sorted ==> forall i :: 0 <= i < size ==> Generated(size, dataType, draws, swaps)[i] == i + 1
    ensures dataType == Reversed ==> forall i :: 0 <= i < size ==> Generated(size, dataType, draws, swaps)[i] == size - i
    ensures dataType in {Sorted, Reversed, NearlySorted} ==>
              multiset(Generated(size, dataType, draws, swaps)) == multiset(Ascending(size))
    ensures dataType == Random ==> InRange(Generated(size, dataType, draws, swaps), 1, RandomFactor * size)
    ensures dataType == FewUnique ==> InRange(Generated(size, dataType, draws, swaps), 1, FewUniqueMax)
  {
    if dataType == Sorted {
      forall i | 0 <= i < size
        ensures Ascending(size)[i] == i + 1
      {
        AscendingAt(size, i);
      }
    } else if dataType == Reversed {
      forall i | 0 <= i < size
        ensures Descending(size)[i] == size - i
      {
        DescendingAt(size, i);
      }
      DescendingPermutesAscending(size);
    }
  }

  /** generateRandom(data): every element drawn from [1, 10 * size]. */
  method GenerateRandom(data: array<int>, draws: seq<int>)
    requires |draws| == data.Length && InRange(draws, 1, RandomFactor * data.Length)
    modifies data
    ensures data[..] == draws
  {
    for i := 0 to data.Length
      invariant forall k :: 0 <= k < i ==> data[k] == draws[k]
    {
      data[i] := draws[i];
    }
  }

  /** generateSorted(data): 1, 2, ..., size. */
  method GenerateSorted(data: array<int>)
    modifies data
    ensures data[..] == Ascending(data.Length)
  {
    for i := 0 to data.Length
      invariant forall k :: 0 <= k < i ==> data[k] == k + 1
    {
      data[i] := i + 1;
    }
    forall k | 0 <= k < data.Length
      ensures data[k] == Ascending(data.Length)[k]
    {
      AscendingAt(data.Length, k);
    }
  }

  /** generateReversed(data): size, size - 1, ..., 1. */
  method GenerateReversed(data: array<int>)
    modifies data
    ensures data[..] == Descending(data.Length)
  {
    for i := 0 to data.Length
      invariant forall k :: 0 <= k < i ==> data[k] == data.Length - k
    {
      data[i] := data.Length - i;
    }
    forall k | 0 <= k < data.Length
      ensures data[k] == Descending(data.Length)[k]
    {
      DescendingAt(data.Length, k);
    }
  }

  /** generateNearlySorted(data): 1..size, then size / 10 exchanges of two
      positions drawn from [0, size - 1]. */
  method GenerateNearlySorted(data: array<int>, swaps: seq<(int, int)>)
    requires |swaps| == data.Length / NearlySortedDivisor && IndexPairs(swaps, data.Length)
    modifies data
    ensures data[..] == ApplySwaps(Ascending(data.Length), swaps)
  {
    GenerateSorted(data);
    var swapCount := data.Length / NearlySortedDivisor;
    assert swaps[0..] == swaps;
    for i := 0 to swapCount
      invariant ApplySwaps(data[..], swaps[i..]) == ApplySwaps(Ascending(data.Length), swaps)
    {
      var (idx1, idx2) := swaps[i];
      ghost var before := data[..];
      SortSpec.Swap(data, idx1, idx2);
      ApplySwapsStep(before, swaps, i);
    }
    assert swaps[swapCount..] == [];
  }

  /** generateFewUnique(data): every element drawn from [1, 10]. */
  method GenerateFewUnique(data: array<int>, draws: seq<int>)
    requires |draws| == data.Length && InRange(draws, 1, FewUniqueMax)
    modifies data
    ensures data[..] == draws
  {
    for i := 0 to data.Length
      invariant forall k :: 0 <= k < i ==> data[k] == draws[k]
    {
      data[i] := draws[i];
    }
  }
}

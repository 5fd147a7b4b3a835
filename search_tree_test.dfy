/** The test program of seminar 9 over the search tree: the forward,
    range-based and backward walks and the two lookups. */
module SearchTreeTest {
  import opened SearchTree

  /** The forward loop of the test program, `for (it = begin(); it !=
      end(); ++it)`, collecting *it: the keys in ascending order. The
      range-based for loop expands to the same calls. */
  method Forward(t: BinarySearchTree) returns (keys: seq<int>)
    requires t.Valid()
    ensures keys == t.Keys()
  {
    ghost var ks := t.Keys();
    keys := [];
    var it := t.Begin();
    var e := t.End();
    var more := it.NotEquals(e);
    while more
      invariant it.shape == t.shape && e.shape == t.shape
      invariant it.Valid() && e.Valid() && e.Index() == |ks|
      invariant keys == ks[..it.Index()]
      invariant more <==> it.Index() < |ks|
      decreases |ks| - it.Index()
    {
      keys, more := Visit(it, e, keys);
    }
    assert ks[..|ks|] == ks;
  }

  /** The body of the forward loop: *it is appended to the keys seen so
      far, then ++it, then the test it != end(). */
  method Visit(it: Iterator, e: Iterator, keys: seq<int>) returns (keys': seq<int>, more: bool)
    requires it.Valid() && it.Index() < |it.shape.keys| && keys == it.shape.keys[..it.Index()]
    requires e.Valid() && e.shape == it.shape && e.Index() == |it.shape.keys| && e != it
    modifies it`current
    ensures it.Valid() && it.Index() == old(it.Index()) + 1
    ensures keys' == it.shape.keys[..it.Index()]
    ensures more <==> it.Index() < |it.shape.keys|
  {
    ghost var i := it.Index();
    var v := it.Deref();
    PrefixStep(it.shape.keys, i);
    keys' := keys + [v.value];
    it.Increment();
    more := it.NotEquals(e);
  }

  /** One more element of a sequence extends its prefix by that element. */
  lemma PrefixStep(xs: seq<int>, i: int)
    requires 0 <= i < |xs|
    ensures xs[..i + 1] == xs[..i] + [xs[i]]
  {
  }

  /** xs back to front. */
  function Reversed(xs: seq<int>): seq<int>
  {
    if xs == [] then [] else Reversed(xs[1..]) + [xs[0]]
  }

  /** Reversed puts the element j places from the front j places from the
      back. */
  lemma {:induction false} ReversedIndex(xs: seq<int>)
    ensures |Reversed(xs)| == |xs|
    ensures forall j :: 0 <= j < |xs| ==> Reversed(xs)[j] == xs[|xs| - 1 - j]
  {
    if xs != [] {
      ReversedIndex(xs[1..]);
    }
  }

  /** Taking one more element from the front of a suffix appends it to
      the suffix's reversal. */
  lemma ReversedStep(xs: seq<int>, i: int)
    requires 0 <= i < |xs|
    ensures Reversed(xs[i..]) == Reversed(xs[i + 1..]) + [xs[i]]
  {
    assert xs[i..][1..] == xs[i + 1..];
  }

  /** The backward loop of the test program: from --end() while the
      position is not begin(), collect *it and step back, then collect the
      first key. The keys in descending order; the final dereference fails
      on an empty tree. */
  method Backward(t: BinarySearchTree) returns (r: Result<seq<int>>)
    requires t.Valid()
    ensures |t.Keys()| == 0 ==> r == Failure(EndDereference)
    ensures |t.Keys()| > 0 ==> r == Success(Reversed(t.Keys()))
  {
    ghost var ks := t.Keys();
    var keys := [];
    var it := t.End();
    it.Decrement();
    var b := t.Begin();
    var notBegin := it.NotEquals(b);
    assert |ks| > 0 ==> ks[it.Index() + 1..] == [];
    while notBegin
      invariant it.shape == t.shape && b.shape == t.shape
      invariant it.Valid() && b.Valid() && b.Index() == 0 && (it.Index() < |ks| || |ks| == 0)
      invariant notBegin <==> it.Index() != 0
      invariant |ks| > 0 ==> keys == Reversed(ks[it.Index() + 1..])
      decreases it.Index()
    {
      keys, notBegin := Revisit(it, b, keys);
    }
    var v := it.Deref();
    if v.Failure? {
      return Failure(v.error);
    }
    ReversedStep(ks, 0);
    assert ks[0..] == ks;
    r := Success(keys + [v.value]);
  }

  /** The body of the backward loop: *it is appended to the keys seen so
      far, then --it, then the test it != begin(). */
  method Revisit(it: Iterator, b: Iterator, keys: seq<int>) returns (keys': seq<int>, notBegin: bool)
    requires it.Valid() && 0 < it.Index() < |it.shape.keys| && keys == Reversed(it.shape.keys[it.Index() + 1..])
    requires b.Valid() && b.shape == it.shape && b.Index() == 0 && b != it
    modifies it`current
    ensures it.Valid() && it.Index() == old(it.Index()) - 1
    ensures keys' == Reversed(it.shape.keys[it.Index() + 1..])
    ensures notBegin <==> it.Index() != 0
  {
    ghost var i := it.Index();
    var v := it.Deref();
    ReversedStep(it.shape.keys, i);
    keys' := keys + [v.value];
    it.Decrement();
    notBegin := it.NotEquals(b);
  }

  /** The keys of a search tree with keys k after inserting xs in turn. */
  function InsertedKeys(k: seq<int>, xs: seq<int>): seq<int>
  {
    if xs == [] then k else SortedInsert(InsertedKeys(k, xs[..|xs| - 1]), xs[|xs| - 1])
  }

  /** Inserts the keys xs one after another, as the test program does. */
  method InsertAll(tree: BinarySearchTree, xs: seq<int>)
    requires tree.Valid()
    modifies tree, tree.shape.at.Keys
    ensures tree.Valid() && fresh(tree.shape.at.Keys - old(tree.shape.at.Keys))
    ensures tree.Keys() == InsertedKeys(old(tree.Keys()), xs)
  {
    var i := 0;
    while i < |xs|
      invariant 0 <= i <= |xs|
      invariant tree.Valid() && fresh(tree.shape.at.Keys - old(tree.shape.at.Keys))
      invariant tree.Keys() == InsertedKeys(old(tree.Keys()), xs[..i])
    {
      assert xs[..i + 1][..i] == xs[..i];
      tree.Insert(xs[i]);
      i := i + 1;
    }
    assert xs[..i] == xs;
  }

  /** The keys after each of the first four insertions of the test program. */
  lemma ScenarioInsertsFirst()
    ensures SortedInsert([], 5) == [5]
    ensures SortedInsert([5], 3) == [3, 5]
    ensures SortedInsert([3, 5], 7) == [3, 5, 7]
    ensures SortedInsert([3, 5, 7], 1) == [1, 3, 5, 7]
  {
    SortedInsertAt([], 5, 0);
    SortedInsertAt([5], 3, 0);
    assert [5][..0] == [] && [5][0..] == [5];
    SortedInsertAt([3, 5], 7, 2);
    assert [3, 5][..2] == [3, 5] && [3, 5][2..] == [];
    SortedInsertAt([3, 5, 7], 1, 0);
    assert [3, 5, 7][..0] == [] && [3, 5, 7][0..] == [3, 5, 7];
  }

  /** The keys after the fifth insertion of the test program. */
  lemma ScenarioInsertFour()
    ensures SortedInsert([1, 3, 5, 7], 4) == [1, 3, 4, 5, 7]
  {
    SortedInsertAt([1, 3, 5, 7], 4, 2);
    assert [1, 3, 5, 7][..2] == [1, 3] && [1, 3, 5, 7][2..] == [5, 7];
  }

  /** The keys after the sixth insertion of the test program. */
  lemma ScenarioInsertSix()
    ensures SortedInsert([1, 3, 4, 5, 7], 6) == [1, 3, 4, 5, 6, 7]
  {
    SortedInsertAt([1, 3, 4, 5, 7], 6, 4);
    assert [1, 3, 4, 5, 7][..4] == [1, 3, 4, 5] && [1, 3, 4, 5, 7][4..] == [7];
  }

  /** The keys after the last insertion of the test program. */
  lemma ScenarioInsertEight()
    ensures SortedInsert([1, 3, 4, 5, 6, 7], 8) == [1, 3, 4, 5, 6, 7, 8]
  {
    SortedInsertAt([1, 3, 4, 5, 6, 7], 8, 6);
    assert [1, 3, 4, 5, 6, 7][..6] == [1, 3, 4, 5, 6, 7] && [1, 3, 4, 5, 6, 7][6..] == [];
  }

  /** The keys of the test program's tree, one insertion at a time. */
  lemma ScenarioKeys()
    ensures InsertedKeys([], [5, 3, 7, 1, 4, 6, 8]) == [1, 3, 4, 5, 6, 7, 8]
  {
    ScenarioInsertsFirst();
    ScenarioInsertFour();
    ScenarioInsertSix();
    ScenarioInsertEight();
    assert [5][..0] == [];
    assert InsertedKeys([], [5]) == [5];
    assert [5, 3][..1] == [5];
    assert InsertedKeys([], [5, 3]) == [3, 5];
    assert [5, 3, 7][..2] == [5, 3];
    assert InsertedKeys([], [5, 3, 7]) == [3, 5, 7];
    assert [5, 3, 7, 1][..3] == [5, 3, 7];
    assert InsertedKeys([], [5, 3, 7, 1]) == [1, 3, 5, 7];
    assert [5, 3, 7, 1, 4][..4] == [5, 3, 7, 1];
    assert InsertedKeys([], [5, 3, 7, 1, 4]) == [1, 3, 4, 5, 7];
    assert [5, 3, 7, 1, 4, 6][..5] == [5, 3, 7, 1, 4];
    assert InsertedKeys([], [5, 3, 7, 1, 4, 6]) == [1, 3, 4, 5, 6, 7];
    assert [5, 3, 7, 1, 4, 6, 8][..6] == [5, 3, 7, 1, 4, 6];
    assert InsertedKeys([], [5, 3, 7, 1, 4, 6, 8]) == [1, 3, 4, 5, 6, 7, 8];
  }

  /** The tree of the test program: 5, 3, 7, 1, 4, 6, 8 inserted in turn. */
  method Build() returns (tree: BinarySearchTree)
    ensures tree.Valid() && tree.Keys() == [1, 3, 4, 5, 6, 7, 8]
  {
    tree := new BinarySearchTree();
    InsertAll(tree, [5, 3, 7, 1, 4, 6, 8]);
    ScenarioKeys();
  }

  /** The test program: build the tree, walk forward twice and backward
      once, look up 4 (found) and 10 (not found). */
  method Scenario() returns (forward: seq<int>, rangeFor: seq<int>, backward: Result<seq<int>>,
                             four: Option<int>, ten: Option<int>)
    ensures forward == [1, 3, 4, 5, 6, 7, 8] && rangeFor == forward
    ensures backward == Success([8, 7, 6, 5, 4, 3, 1])
    ensures four == Some(4) && ten == None
  {
    var tree := Build();
    forward := Forward(tree);
    rangeFor := Forward(tree);
    backward := Backward(tree);
    ScenarioReversed();
    assert tree.Keys()[2] == 4 && 10 !in tree.Keys();
    four := Lookup(tree, 4);
    ten := Lookup(tree, 10);
  }

  /** The test program's keys back to front. */
  lemma ScenarioReversed()
    ensures Reversed([1, 3, 4, 5, 6, 7, 8]) == [8, 7, 6, 5, 4, 3, 1]
  {
    ReversedIndex([1, 3, 4, 5, 6, 7, 8]);
    ghost var rev := Reversed([1, 3, 4, 5, 6, 7, 8]);
    assert |rev| == 7 && rev[0] == 8 && rev[1] == 7 && rev[2] == 6 && rev[3] == 5 && rev[4] == 4 && rev[5] == 3 && rev[6] == 1;
  }

  /** A lookup of the test program: find(key), and *found unless it is
      end(). */
  method Lookup(t: BinarySearchTree, key: int) returns (found: Option<int>)
    requires t.Valid()
    ensures key in t.Keys() <==> found == Some(key)
    ensures key !in t.Keys() <==> found == None
  {
    var it := t.Find(key);
    var e := t.End();
    var hit := it.NotEquals(e);
    if hit {
      var v := it.Deref();
      found := Some(v.value);
    } else {
      found := None;
    }
  }

  /** ++ then -- returns to any node: the successor of a node is a node or
      end(), and stepping back from either lands on the node again. */
  method ForwardThenBack(it: Iterator)
    requires it.Valid() && it.Index() < |it.shape.keys|
    modifies it`current
    ensures it.Valid() && it.Index() == old(it.Index())
  {
    it.Increment();
    it.Decrement();
  }

  /** -- then ++ returns to any position but begin(), end() included:
      from end() -- lands on the last node and ++ leaves it for end(). */
  method BackThenForward(it: Iterator)
    requires it.Valid() && it.Index() > 0
    modifies it`current
    ensures it.Valid() && it.Index() == old(it.Index())
  {
    it.Decrement();
    it.Increment();
  }

  /** A tree holding one key: begin() stands on that key and differs from
      end(). */
  method SingleKey(x: int) returns (first: Result<int>, beginIsEnd: bool)
    ensures first == Success(x) && !beginIsEnd
  {
    var tree := new BinarySearchTree();
    tree.Insert(x);
    var b := tree.Begin();
    var e := tree.End();
    first := b.Deref();
    beginIsEnd := b.Equals(e);
  }
}

/** The binary search tree of seminar 9: int keys, nodes that link to their
    parent, and a bidirectional in-order iterator. Every tree carries a ghost
    Shape that lays its nodes out in in-order: each node knows its index in
    that sequence, the index range [lo, hi) its subtree covers, and a copy of
    its three links. With that layout every walk of the tree (down to a leaf,
    up to an ancestor) is argued one node at a time. */
module SearchTree {

  datatype Result<T> = Success(value: T) | Failure(error: string)

  datatype Option<T> = None | Some(value: T)

  /** The message of the exception thrown by dereferencing end(). */
  const EndDereference := "Dereferencing end iterator"

  class Node {
    const key: int
    var left: Node?
    var right: Node?
    var parent: Node?

    constructor (k: int)
      ensures key == k && left == null && right == null && parent == null
    {
      key := k;
      left := null;
      right := null;
      parent := null;
    }
  }

  /** Where one node sits: its in-order index, the indices [lo, hi) of its
      subtree, and its links. */
  datatype Place = Place(pos: int, lo: int, hi: int, left: Node?, right: Node?, parent: Node?)

  /** The nodes in in-order, their keys, and the place of each. */
  datatype Shape = Shape(order: seq<Node>, keys: seq<int>, at: map<Node, Place>)

  /** order and pos are inverse to each other, and every subtree range lies
      around its node and within the tree. */
  ghost predicate Indexed(s: Shape)
  {
    (forall i :: 0 <= i < |s.order| ==> s.order[i] in s.at && s.at[s.order[i]].pos == i) &&
    (forall n :: n in s.at ==>
       0 <= s.at[n].lo <= s.at[n].pos < s.at[n].hi <= |s.order| && s.order[s.at[n].pos] == n)
  }

  /** n is one of the shape's nodes. The link invariants below are triggered
      on it alone, so that they speak about the nodes a proof names and do
      not chase links on their own. */
  ghost predicate Has(s: Shape, n: Node)
  {
    n in s.at
  }

  /** A left subtree covers the indices just before its parent; without one
      the parent's range starts at the parent. */
  ghost predicate LeftLinkedAt(s: Shape, n: Node)
    requires n in s.at
  {
    var p := s.at[n];
    if p.left == null then p.lo == p.pos
    else p.left in s.at && s.at[p.left].parent == n && s.at[p.left].lo == p.lo && s.at[p.left].hi == p.pos
  }

  ghost predicate LeftLinked(s: Shape)
  {
    forall n {:trigger Has(s, n)} :: n in s.at ==> LeftLinkedAt(s, n)
  }

  /** A right subtree covers the indices just after its parent; without one
      the parent's range ends at the parent. */
  ghost predicate RightLinkedAt(s: Shape, n: Node)
    requires n in s.at
  {
    var p := s.at[n];
    if p.right == null then p.hi == p.pos + 1
    else p.right in s.at && s.at[p.right].parent == n && s.at[p.right].lo == p.pos + 1 && s.at[p.right].hi == p.hi
  }

  ghost predicate RightLinked(s: Shape)
  {
    forall n {:trigger Has(s, n)} :: n in s.at ==> RightLinkedAt(s, n)
  }

  /** Only the root has no parent; every other node is a child of its parent. */
  ghost predicate UpLinked(s: Shape, root: Node?)
  {
    forall n {:trigger Has(s, n)} :: n in s.at ==>
      var q := s.at[n].parent;
      if q == null then n == root
      else q in s.at && (s.at[q].left == n || s.at[q].right == n)
  }

  /** An empty tree has no nodes; otherwise the root's subtree is everything. */
  ghost predicate Rooted(s: Shape, root: Node?)
  {
    if root == null then s.order == []
    else root in s.at && s.at[root].lo == 0 && s.at[root].hi == |s.order| && s.at[root].parent == null
  }

  /** keys lists the key of every node at its in-order index. */
  ghost predicate KeysAt(s: Shape)
  {
    |s.keys| == |s.order| &&
    forall n :: n in s.at && 0 <= s.at[n].pos < |s.keys| ==> s.keys[s.at[n].pos] == n.key
  }

  /** The links and ranges of the nodes fit together into one tree below
      root whose in-order sequence is order. */
  ghost predicate Linked(s: Shape, root: Node?)
  {
    // Bound to a name so that a caller's proof sees the conjunction as one
    // fact and splits it only where it is needed; this keeps the tree's
    // client proofs cheap.
    var linked := Indexed(s) && LeftLinked(s) && RightLinked(s) && UpLinked(s, root) && Rooted(s, root) && KeysAt(s);
    linked
  }

  /** A search tree: linked, and the keys strictly ascend in in-order. */
  ghost predicate ShapeOk(s: Shape, root: Node?)
  {
    Linked(s, root) && StrictlySorted(s.keys)
  }

  /** Each key is smaller than the next. */
  ghost predicate StrictlySorted(s: seq<int>)
  {
    |s| < 2 || (s[0] < s[1] && StrictlySorted(s[1..]))
  }

  /** In a strictly sorted sequence every key is smaller than every later
      one. */
  lemma {:induction false} SortedPairs(s: seq<int>)
    requires StrictlySorted(s)
    ensures forall i, j :: 0 <= i < j < |s| ==> s[i] < s[j]
  {
    if |s| >= 2 {
      SortedPairs(s[1..]);
      forall i, j | 0 <= i < j < |s|
        ensures s[i] < s[j]
      {
        if 0 < i {
          assert s[1..][i - 1] < s[1..][j - 1];
        } else if 1 < j {
          assert s[1..][0] < s[1..][j - 1];
        }
      }
    }
  }

  /** The keys of a search tree after inserting x into a tree with keys s:
      x is placed before the first larger key, and a key already present is
      ignored. */
  function SortedInsert(s: seq<int>, x: int): seq<int>
  {
    if s == [] then [x]
    else if x < s[0] then [x] + s
    else if x == s[0] then s
    else [s[0]] + SortedInsert(s[1..], x)
  }

  /** Inserting adds x and nothing else. */
  lemma {:induction false} SortedInsertMembers(s: seq<int>, x: int)
    ensures forall y :: y in SortedInsert(s, x) <==> y in s || y == x
  {
    if s != [] && x > s[0] {
      SortedInsertMembers(s[1..], x);
      assert s == [s[0]] + s[1..];
    }
  }

  /** Inserting into a strictly ascending sequence keeps it strictly
      ascending. */
  lemma {:induction false} SortedInsertSorted(s: seq<int>, x: int)
    requires StrictlySorted(s)
    ensures StrictlySorted(SortedInsert(s, x))
  {
    if s != [] && x > s[0] {
      SortedInsertSorted(s[1..], x);
      assert ([s[0]] + SortedInsert(s[1..], x))[1..] == SortedInsert(s[1..], x);
    }
  }

  /** Inserting grows a strictly ascending sequence by one exactly when x
      was missing. */
  lemma {:induction false} SortedInsertLength(s: seq<int>, x: int)
    requires StrictlySorted(s)
    ensures |SortedInsert(s, x)| == if x in s then |s| else |s| + 1
  {
    if s != [] && x > s[0] {
      SortedInsertLength(s[1..], x);
      assert s == [s[0]] + s[1..];
    } else if s != [] && x < s[0] {
      SortedPairs(s);
      assert x !in s;
    }
  }

  /** With k the first index whose key exceeds x and no key equal to x,
      inserting x splices it in at k. */
  lemma {:induction false} SortedInsertAt(s: seq<int>, x: int, k: int)
    requires 0 <= k <= |s|
    requires forall i :: 0 <= i < k ==> s[i] < x
    requires forall i :: k <= i < |s| ==> x < s[i]
    ensures SortedInsert(s, x) == s[..k] + [x] + s[k..]
  {
    if k > 0 {
      SortedInsertAt(s[1..], x, k - 1);
      assert s[..k] == [s[0]] + s[1..][..k - 1];
      assert s[k..] == s[1..][k - 1..];
    } else {
      assert s[k..] == s;
    }
  }

  /** Inserting a key already present at k leaves the keys unchanged. */
  lemma {:induction false} SortedInsertPresent(s: seq<int>, x: int, k: int)
    requires 0 <= k < |s| && s[k] == x
    requires forall i :: 0 <= i < k ==> s[i] < x
    ensures SortedInsert(s, x) == s
  {
    if k > 0 {
      SortedInsertPresent(s[1..], x, k - 1);
      assert s == [s[0]] + s[1..];
    }
  }

  /** The shape after `node` is hung below prev (to its left when goLeft)
      at in-order index k: every index at or after k moves up by one, and so
      does every range bound past the gap; prev's bound at the gap moves
      only when the node goes to its right. */
  ghost function Inserted(s: Shape, prev: Node?, goLeft: bool, node: Node, k: int): Shape
    requires 0 <= k <= |s.order| == |s.keys|
  {
    var moved := map n | n in s.at ::
      var p := s.at[n];
      Place(Shifted(p.pos, k, true), Shifted(p.lo, k, !goLeft), Shifted(p.hi, k, !goLeft),
            if n == prev && goLeft then node else p.left,
            if n == prev && !goLeft then node else p.right,
            p.parent);
    Shape(s.order[..k] + [node] + s.order[k..], s.keys[..k] + [node.key] + s.keys[k..],
          moved[node := Place(k, k, k + 1, null, null, prev)])
  }

  ghost function Shifted(x: int, k: int, atGap: bool): int
  {
    if k < x || (atGap && k == x) then x + 1 else x
  }

  /** The empty link where insert ends: the root of an empty tree, or the
      missing child of prev on the side goLeft names; key belongs at
      in-order index k there. */
  ghost predicate Gap(s: Shape, root: Node?, prev: Node?, goLeft: bool, key: int, k: int)
  {
    0 <= k <= |s.order| == |s.keys| &&
    (prev == null ==> root == null && s.order == []) &&
    (prev != null ==>
       prev in s.at &&
       (goLeft ==> s.at[prev].left == null && k == s.at[prev].pos) &&
       (!goLeft ==> s.at[prev].right == null && k == s.at[prev].pos + 1)) &&
    (forall i :: 0 <= i < k ==> s.keys[i] < key) &&
    (forall i :: k <= i < |s.keys| ==> key < s.keys[i])
  }

  ghost predicate InsertionPoint(s: Shape, root: Node?, prev: Node?, goLeft: bool, node: Node, k: int)
  {
    ShapeOk(s, root) && node !in s.at && Gap(s, root, prev, goLeft, node.key, k)
  }

  /** The shape s has room for node at the gap below prev, in-order index k. */
  ghost predicate Fits(s: Shape, root: Node?, prev: Node?, goLeft: bool, node: Node, k: int)
  {
    Indexed(s) && node !in s.at && Gap(s, root, prev, goLeft, node.key, k)
  }

  lemma InsertedOrderAt(s: Shape, root: Node?, prev: Node?, goLeft: bool, node: Node, k: int, i: int)
    requires Fits(s, root, prev, goLeft, node, k) && 0 <= i <= |s.order|
    ensures var t := Inserted(s, prev, goLeft, node, k);
            t.order[i] in t.at && t.at[t.order[i]].pos == i
  {
    var t := Inserted(s, prev, goLeft, node, k);
    if i < k {
      assert t.order[i] == s.order[i];
    } else if k < i {
      assert t.order[i] == s.order[i - 1];
    }
  }

  lemma InsertedPlaceAt(s: Shape, root: Node?, prev: Node?, goLeft: bool, node: Node, k: int, n: Node)
    requires Fits(s, root, prev, goLeft, node, k) && n in s.at
    ensures var t := Inserted(s, prev, goLeft, node, k);
            0 <= t.at[n].lo <= t.at[n].pos < t.at[n].hi <= |t.order| && t.order[t.at[n].pos] == n
  {
    assert s.order[s.at[n].pos] == n;
  }

  lemma InsertedIndexed(s: Shape, root: Node?, prev: Node?, goLeft: bool, node: Node, k: int)
    requires Fits(s, root, prev, goLeft, node, k)
    ensures Indexed(Inserted(s, prev, goLeft, node, k))
  {
    var t := Inserted(s, prev, goLeft, node, k);
    forall i | 0 <= i < |t.order|
      ensures t.order[i] in t.at && t.at[t.order[i]].pos == i
    {
      InsertedOrderAt(s, root, prev, goLeft, node, k, i);
    }
    forall n | n in t.at
      ensures 0 <= t.at[n].lo <= t.at[n].pos < t.at[n].hi <= |t.order| && t.order[t.at[n].pos] == n
    {
      if n != node {
        InsertedPlaceAt(s, root, prev, goLeft, node, k, n);
      }
    }
  }

  lemma InsertedLeftLinkedAt(s: Shape, root: Node?, prev: Node?, goLeft: bool, node: Node, k: int, n: Node)
    requires Fits(s, root, prev, goLeft, node, k) && LeftLinked(s) && n in Inserted(s, prev, goLeft, node, k).at
    ensures LeftLinkedAt(Inserted(s, prev, goLeft, node, k), n)
  {
    if prev != null {
      assert Has(s, prev) && s.order[s.at[prev].pos] == prev && LeftLinkedAt(s, prev);
    }
    if n != node {
      assert Has(s, n) && s.order[s.at[n].pos] == n && LeftLinkedAt(s, n);
    }
  }

  lemma InsertedRightLinkedAt(s: Shape, root: Node?, prev: Node?, goLeft: bool, node: Node, k: int, n: Node)
    requires Fits(s, root, prev, goLeft, node, k) && RightLinked(s) && n in Inserted(s, prev, goLeft, node, k).at
    ensures RightLinkedAt(Inserted(s, prev, goLeft, node, k), n)
  {
    if prev != null {
      assert Has(s, prev) && s.order[s.at[prev].pos] == prev && RightLinkedAt(s, prev);
    }
    if n != node {
      assert Has(s, n) && s.order[s.at[n].pos] == n && RightLinkedAt(s, n);
    }
  }

  lemma InsertedLeftLinked(s: Shape, root: Node?, prev: Node?, goLeft: bool, node: Node, k: int)
    requires Fits(s, root, prev, goLeft, node, k) && LeftLinked(s)
    ensures LeftLinked(Inserted(s, prev, goLeft, node, k))
  {
    var t := Inserted(s, prev, goLeft, node, k);
    forall n | Has(t, n)
      ensures LeftLinkedAt(t, n)
    {
      InsertedLeftLinkedAt(s, root, prev, goLeft, node, k, n);
    }
  }

  lemma InsertedRightLinked(s: Shape, root: Node?, prev: Node?, goLeft: bool, node: Node, k: int)
    requires Fits(s, root, prev, goLeft, node, k) && RightLinked(s)
    ensures RightLinked(Inserted(s, prev, goLeft, node, k))
  {
    var t := Inserted(s, prev, goLeft, node, k);
    forall n | Has(t, n)
      ensures RightLinkedAt(t, n)
    {
      InsertedRightLinkedAt(s, root, prev, goLeft, node, k, n);
    }
  }

  lemma InsertedUpLinked(s: Shape, root: Node?, prev: Node?, goLeft: bool, node: Node, k: int)
    requires Fits(s, root, prev, goLeft, node, k) && UpLinked(s, root) && Rooted(s, root)
    ensures UpLinked(Inserted(s, prev, goLeft, node, k), if prev == null then node else root)
  {
    var t := Inserted(s, prev, goLeft, node, k);
    forall n | Has(t, n)
      ensures var q := t.at[n].parent;
              if q == null then n == (if prev == null then node else root)
              else q in t.at && (t.at[q].left == n || t.at[q].right == n)
    {
      if n != node {
        assert Has(s, n);
      }
    }
  }

  lemma InsertedRooted(s: Shape, root: Node?, prev: Node?, goLeft: bool, node: Node, k: int)
    requires Fits(s, root, prev, goLeft, node, k) && Rooted(s, root)
    ensures Rooted(Inserted(s, prev, goLeft, node, k), if prev == null then node else root)
  {
    if prev != null {
      assert s.order[s.at[prev].pos] == prev;
    }
  }

  /** Splicing x in between the keys below it and the keys above it keeps
      the keys strictly ascending. */
  lemma {:induction false} SplicedSorted(s: seq<int>, x: int, k: int)
    requires StrictlySorted(s) && 0 <= k <= |s|
    requires forall i :: 0 <= i < k ==> s[i] < x
    requires forall i :: k <= i < |s| ==> x < s[i]
    ensures StrictlySorted(s[..k] + [x] + s[k..])
  {
    if k == 0 {
      assert s[..k] + [x] + s[k..] == [x] + s;
    } else {
      SplicedSorted(s[1..], x, k - 1);
      assert s[..k] + [x] + s[k..] == [s[0]] + (s[1..][..k - 1] + [x] + s[1..][k - 1..]);
    }
  }

  lemma InsertedKeyAt(s: Shape, root: Node?, prev: Node?, goLeft: bool, node: Node, k: int, n: Node)
    requires Fits(s, root, prev, goLeft, node, k) && KeysAt(s) && n in s.at
    ensures var t := Inserted(s, prev, goLeft, node, k);
            t.keys[t.at[n].pos] == n.key
  {
    var t := Inserted(s, prev, goLeft, node, k);
    var p := s.at[n].pos;
    assert p < k ==> t.keys[p] == s.keys[p];
    assert k <= p ==> t.keys[p + 1] == s.keys[p];
  }

  lemma InsertedKeysAt(s: Shape, root: Node?, prev: Node?, goLeft: bool, node: Node, k: int)
    requires Fits(s, root, prev, goLeft, node, k) && KeysAt(s)
    ensures KeysAt(Inserted(s, prev, goLeft, node, k))
  {
    var t := Inserted(s, prev, goLeft, node, k);
    forall n | n in t.at && 0 <= t.at[n].pos < |t.keys|
      ensures t.keys[t.at[n].pos] == n.key
    {
      if n != node {
        InsertedKeyAt(s, root, prev, goLeft, node, k, n);
      }
    }
  }

  /** Hanging a new node at its insertion point keeps the shape well formed. */
  lemma InsertedOk(s: Shape, root: Node?, prev: Node?, goLeft: bool, node: Node, k: int)
    requires InsertionPoint(s, root, prev, goLeft, node, k)
    ensures ShapeOk(Inserted(s, prev, goLeft, node, k), if prev == null then node else root)
  {
    InsertedIndexed(s, root, prev, goLeft, node, k);
    InsertedLeftLinked(s, root, prev, goLeft, node, k);
    InsertedRightLinked(s, root, prev, goLeft, node, k);
    InsertedUpLinked(s, root, prev, goLeft, node, k);
    InsertedRooted(s, root, prev, goLeft, node, k);
    InsertedKeysAt(s, root, prev, goLeft, node, k);
    SplicedSorted(s.keys, node.key, k);
  }

  /** Inserting changes the recorded links of prev, on the side goLeft
      names, and of the new node only. */
  lemma InsertedLinks(s: Shape, prev: Node?, goLeft: bool, node: Node, k: int)
    requires 0 <= k <= |s.order| == |s.keys| && node !in s.at
    ensures var t := Inserted(s, prev, goLeft, node, k);
            && t.at.Keys == s.at.Keys + {node}
            && t.at[node].left == null && t.at[node].right == null && t.at[node].parent == prev
            && (forall n :: n in s.at ==> t.at[n].parent == s.at[n].parent)
            && (forall n :: n in s.at && n != prev ==> t.at[n].left == s.at[n].left && t.at[n].right == s.at[n].right)
            && (prev in s.at ==> (t.at[prev].left == (if goLeft then node else s.at[prev].left)
                                  && t.at[prev].right == (if goLeft then s.at[prev].right else node)))
  {
  }

  /** Inserting adds the new node to the shape and its key to the keys at
      index k. */
  lemma InsertedDomain(s: Shape, prev: Node?, goLeft: bool, node: Node, k: int)
    requires 0 <= k <= |s.order| == |s.keys|
    ensures Inserted(s, prev, goLeft, node, k).at.Keys == s.at.Keys + {node}
    ensures Inserted(s, prev, goLeft, node, k).keys == s.keys[..k] + [node.key] + s.keys[k..]
  {
  }

  /** The links stored in the nodes are those the shape records. */
  ghost predicate Mirrors(s: Shape)
    reads s.at.Keys
  {
    forall n :: n in s.at ==>
      n.left == s.at[n].left && n.right == s.at[n].right && n.parent == s.at[n].parent
  }

  /** The tree holds its root; the ghost shape lays out the nodes below it
      and is its footprint (shape.at.Keys) and abstract value (shape.keys). */
  class BinarySearchTree {
    var root: Node?
    ghost var shape: Shape

    /** The nodes reachable from root are exactly those the shape places,
        their links are the ones it records, and their keys ascend strictly
        in in-order. */
    ghost predicate Valid()
      reads this, shape.at.Keys
    {
      ShapeOk(shape, root) && Mirrors(shape)
    }

    /** The keys of the tree in ascending order. */
    ghost function Keys(): seq<int>
      reads this
    {
      shape.keys
    }

    constructor ()
      ensures Valid() && Keys() == [] && shape.at == map[]
    {
      root := null;
      shape := Shape([], [], map[]);
    }

    /** insert(key): walk down from the root to the empty link where key
        belongs and hang a new node there, its parent the last node
        visited; a key already present is ignored. */
    method Insert(key: int)
      requires Valid()
      modifies this, shape.at.Keys
      ensures Valid() && fresh(shape.at.Keys - old(shape.at.Keys))
      ensures Keys() == SortedInsert(old(Keys()), key)
      ensures key in old(Keys()) ==> Keys() == old(Keys())
    {
      ghost var before := Keys();
      var prev, goLeft, found;
      ghost var k;
      prev, goLeft, found, k := Descend(key);
      if found {
        SortedInsertPresent(Keys(), key, k);
        return;
      }
      ghost var s := shape;
      shape := Attach(key, prev, goLeft, s, k);
      SortedInsertAt(before, key, k);
    }

    /** The end of insert: a new node for key takes the empty link below
        prev (the root when prev is null) and records prev as its parent.
        Returns the shape of the grown tree. */
    method Attach(key: int, prev: Node?, goLeft: bool, ghost s: Shape, ghost k: int) returns (ghost t: Shape)
      requires ShapeOk(s, root) && Mirrors(s) && Gap(s, root, prev, goLeft, key, k)
      modifies this`root, s.at.Keys
      ensures ShapeOk(t, root) && Mirrors(t) && fresh(t.at.Keys - s.at.Keys)
      ensures t.keys == s.keys[..k] + [key] + s.keys[k..]
    {
      var node := new Node(key);
      t := Inserted(s, prev, goLeft, node, k);
      InsertedOk(s, root, prev, goLeft, node, k);
      InsertedDomain(s, prev, goLeft, node, k);
      Hang(prev, goLeft, node, s, t, k);
    }

    /** The writes of insert: node goes into root or into prev's child
        link on the side goLeft names, and its parent becomes prev. */
    method Hang(prev: Node?, goLeft: bool, node: Node, ghost s: Shape, ghost t: Shape, ghost k: int)
      requires Mirrors(s) && node !in s.at && (prev != null ==> prev in s.at)
      requires node.left == null && node.right == null
      requires 0 <= k <= |s.order| == |s.keys| && t == Inserted(s, prev, goLeft, node, k)
      modifies this`root, s.at.Keys, node
      ensures Mirrors(t)
      ensures root == if prev == null then node else old(root)
    {
      if prev == null {
        root := node;
      } else if goLeft {
        prev.left := node;
      } else {
        prev.right := node;
      }
      node.parent := prev;
      InsertedLinks(s, prev, goLeft, node, k);
      forall n | n in t.at
        ensures n.left == t.at[n].left && n.right == t.at[n].right && n.parent == t.at[n].parent
      {
        if n != node {
          assert n in s.at;
          assert old(n.left) == s.at[n].left && old(n.right) == s.at[n].right && old(n.parent) == s.at[n].parent;
        }
      }
    }

    /** The walk down of insert: either key sits at in-order index k
        (found), or the walk ends at the empty link below prev where key
        belongs, k being the index it then takes. */
    method Descend(key: int) returns (prev: Node?, goLeft: bool, found: bool, ghost k: int)
      requires Valid()
      ensures found ==> 0 <= k < |Keys()| && Keys()[k] == key && forall i :: 0 <= i < k ==> Keys()[i] < key
      ensures !found ==> Gap(shape, root, prev, goLeft, key, k)
    {
      ghost var s := shape;
      var cur := root;
      prev, goLeft, found := null, false, false;
      ghost var lo, hi := 0, |s.order|;
      SortedPairs(s.keys);
      while cur != null
        invariant cur != null ==> cur in s.at && s.at[cur].lo == lo && s.at[cur].hi == hi
        invariant cur == null ==> lo == hi
        invariant prev == null ==> cur == root
        invariant prev != null ==> prev in s.at && cur == (if goLeft then s.at[prev].left else s.at[prev].right)
        invariant prev != null && goLeft ==> hi == s.at[prev].pos
        invariant prev != null && !goLeft ==> lo == s.at[prev].pos + 1
        invariant 0 <= lo <= hi <= |s.order|
        invariant forall i :: 0 <= i < lo ==> s.keys[i] < key
        invariant forall i :: hi <= i < |s.keys| ==> key < s.keys[i]
        decreases hi - lo
      {
        prev := cur;
        assert Has(s, cur) && s.order[s.at[cur].pos] == cur && s.keys[s.at[cur].pos] == cur.key;
        if key < cur.key {
          cur := cur.left;
          goLeft := true;
          hi := s.at[prev].pos;
        } else if key > cur.key {
          cur := cur.right;
          goLeft := false;
          lo := s.at[prev].pos + 1;
        } else {
          return prev, goLeft, true, s.at[cur].pos;
        }
      }
      k := lo;
    }

    /** begin(): the leftmost node, or end() in an empty tree. */
    method Begin() returns (it: Iterator)
      requires Valid()
      ensures fresh(it) && it.Valid() && it.shape == shape && it.Index() == 0
    {
      var node := root;
      while node != null && node.left != null
        invariant node != null ==> node in shape.at && shape.at[node].lo == 0
        invariant node == null ==> root == null
        decreases if node == null then 0 else shape.at[node].pos
      {
        assert Has(shape, node);
        node := node.left;
      }
      if node != null {
        assert Has(shape, node);
      }
      it := new Iterator(node, root, shape);
    }

    /** end(): no node, but the root is kept. */
    method End() returns (it: Iterator)
      requires Valid()
      ensures fresh(it) && it.Valid() && it.shape == shape && it.Index() == |Keys()|
      ensures it.current == null && it.root == root
    {
      it := new Iterator(null, root, shape);
    }

    /** find(key): the node holding key, or end() when there is none. The
        tree is only read. */
    method Find(key: int) returns (it: Iterator)
      requires Valid()
      ensures fresh(it) && it.Valid() && it.shape == shape
      ensures it.Index() < |Keys()| ==> Keys()[it.Index()] == key
      ensures key in Keys() <==> it.Index() < |Keys()|
    {
      var cur := root;
      SortedPairs(shape.keys);
      while cur != null
        invariant cur != null ==> cur in shape.at
        invariant forall i :: 0 <= i < |shape.keys| && shape.keys[i] == key ==>
                    cur != null && shape.at[cur].lo <= i < shape.at[cur].hi
        decreases if cur == null then 0 else shape.at[cur].hi - shape.at[cur].lo
      {
        assert Has(shape, cur) && shape.order[shape.at[cur].pos] == cur && shape.keys[shape.at[cur].pos] == cur.key;
        if key == cur.key {
          it := new Iterator(cur, root, shape);
          return;
        } else if key < cur.key {
          cur := cur.left;
        } else {
          cur := cur.right;
        }
      }
      it := End();
    }
  }

  /** A position in a tree: a node, or null for end(). The root is kept so
      that stepping back from end() can find the last node. The ghost shape
      is that of the tree the iterator was taken from. */
  class Iterator {
    var current: Node?
    var root: Node?
    ghost var shape: Shape

    constructor (node: Node?, root: Node?, ghost shape: Shape)
      ensures current == node && this.root == root && this.shape == shape
    {
      current := node;
      this.root := root;
      this.shape := shape;
    }

    /** The nodes' links are still those of the shape, the root is its
        root, and the position is one of its nodes or the end. */
    ghost predicate Valid()
      reads this, shape.at.Keys
    {
      // Named for the same reason as in Linked.
      var on := Linked(shape, root) && Mirrors(shape) && (current == null || current in shape.at);
      on
    }

    /** The in-order index of the position; end() is one past the last. */
    ghost function Index(): (i: nat)
      reads this, shape.at.Keys
      requires Valid()
      ensures i <= |shape.keys| && (i == |shape.keys| <==> current == null)
    {
      if current == null then |shape.order| else shape.at[current].pos
    }

    /** ++it: the next node in in-order (the leftmost of the right subtree,
        or the first ancestor reached from its left); past the last node
        it is end(), and end() stays end(). */
    method Increment()
      requires Valid()
      modifies this`current
      ensures Valid()
      ensures Index() == if old(Index()) < |shape.keys| then old(Index()) + 1 else old(Index())
    {
      var node := current;
      if node != null {
        ghost var target := shape.at[node].pos + 1;
        assert Has(shape, node);
        if node.right != null {
          node := node.right;
          while node.left != null
            invariant node in shape.at && shape.at[node].lo == target
            decreases shape.at[node].pos
          {
            assert Has(shape, node);
            node := node.left;
          }
          assert Has(shape, node);
        } else {
          var prev := node;
          node := node.parent;
          while node != null && node.right == prev
            invariant prev in shape.at && shape.at[prev].hi == target && node == prev.parent
            invariant node != null ==> node in shape.at
            decreases shape.at[prev].lo
          {
            assert Has(shape, node);
            prev := node;
            node := node.parent;
            assert Has(shape, prev);
          }
          assert Has(shape, prev);
          if node != null {
            assert Has(shape, node);
          }
        }
      }
      current := node;
    }

    /** it++: steps forward and hands back a copy of the position before. */
    method PostIncrement() returns (prior: Iterator)
      requires Valid()
      modifies this`current
      ensures fresh(prior) && prior.shape == shape && prior.Valid() && prior.Index() == old(Index())
      ensures Valid() && Index() == if old(Index()) < |shape.keys| then old(Index()) + 1 else old(Index())
    {
      prior := new Iterator(current, root, shape);
      Increment();
    }

    /** --it: the previous node in in-order (the rightmost of the left
        subtree, or the first ancestor reached from its right); from end()
        the last node. Stepping back from the first node walks up past the
        root and so lands on end(), as does stepping back in an empty tree. */
    method Decrement()
      requires Valid()
      modifies this`current
      ensures Valid()
      ensures Index() == if old(Index()) == 0 then |shape.keys| else old(Index()) - 1
    {
      var node := current;
      if node != null {
        ghost var target := shape.at[node].pos;
        assert Has(shape, node);
        if node.left != null {
          node := node.left;
          while node.right != null
            invariant node in shape.at && shape.at[node].hi == target
            decreases |shape.order| - shape.at[node].pos
          {
            assert Has(shape, node);
            node := node.right;
          }
          assert Has(shape, node);
        } else {
          var prev := node;
          node := node.parent;
          while node != null && node.left == prev
            invariant prev in shape.at && shape.at[prev].lo == target && node == prev.parent
            invariant node != null ==> node in shape.at
            decreases |shape.order| - shape.at[prev].hi
          {
            assert Has(shape, node);
            prev := node;
            node := node.parent;
            assert Has(shape, prev);
          }
          assert Has(shape, prev);
          if node != null {
            assert Has(shape, node);
          }
        }
      } else {
        node := root;
        if node != null {
          while node.right != null
            invariant node in shape.at && shape.at[node].hi == |shape.order|
            decreases |shape.order| - shape.at[node].pos
          {
            assert Has(shape, node);
            node := node.right;
          }
          assert Has(shape, node);
        }
      }
      current := node;
    }

    /** it--: steps back and hands back a copy of the position before. */
    method PostDecrement() returns (prior: Iterator)
      requires Valid()
      modifies this`current
      ensures fresh(prior) && prior.shape == shape && prior.Valid() && prior.Index() == old(Index())
      ensures Valid() && Index() == if old(Index()) == 0 then |shape.keys| else old(Index()) - 1
    {
      prior := new Iterator(current, root, shape);
      Decrement();
    }

    /** *it and it->: the key at the position; at end() an error. */
    function Deref(): (r: Result<int>)
      reads this, shape.at.Keys
      requires Valid()
      ensures Index() < |shape.keys| ==> r == Success(shape.keys[Index()])
      ensures Index() == |shape.keys| ==> r == Failure(EndDereference)
    {
      if current == null then Failure(EndDereference) else Success(current.key)
    }

    /** it == other: both stand on the same position. */
    function Equals(other: Iterator): (b: bool)
      reads this, other, shape.at.Keys
      requires Valid() && other.Valid() && other.shape == shape
      ensures b <==> Index() == other.Index()
    {
      SamePlace(shape, current, other.current);
      current == other.current
    }

    /** it != other: the two stand on different positions. */
    function NotEquals(other: Iterator): (b: bool)
      reads this, other, shape.at.Keys
      requires Valid() && other.Valid() && other.shape == shape
      ensures b <==> Index() != other.Index()
    {
      SamePlace(shape, current, other.current);
      current != other.current
    }
  }

  /** Two nodes of a tree sit at the same in-order index only if they are
      the same node. */
  lemma SamePlace(s: Shape, a: Node?, b: Node?)
    requires Indexed(s) && (a == null || a in s.at) && (b == null || b in s.at)
    ensures a != null && b != null ==> (s.at[a].pos == s.at[b].pos <==> a == b)
  {
    if a != null && b != null {
      assert s.order[s.at[a].pos] == a;
      assert s.order[s.at[b].pos] == b;
    }
  }
}

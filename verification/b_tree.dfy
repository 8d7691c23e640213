/** The B-tree of user records ordered by name (`BTree`, `BTreeNode`).

    Nodes are immutable values here: a split or an insertion returns the
    rebuilt node.  The tree's height is a ghost parameter `h`: `Balanced(n, h)`
    says every leaf lies at depth `h`, and the in-order key sequence
    `Inorder(n, h)` is defined by recursion on it.
 */
module BTree {
  import opened Wrappers
  import opened Lex

  /** A key is a record `{"id": .., "name": ..}`; the tree orders by name. */
  datatype Key = Key(id: int, name: string)

  datatype BNode = BNode(leaf: bool, keys: seq<Key>, children: seq<BNode>)

  /** `t` is the minimum degree: a node holds at most `2t - 1` keys. */
  datatype BTree = BTree(root: BNode, t: int)

  /** A node is full when it holds exactly `2t - 1` keys. */
  predicate IsFull(n: BNode, t: int)
  {
    |n.keys| == 2 * t - 1
  }

  /** A fresh tree: one empty leaf. */
  function Empty(t: int): (r: BTree)
    ensures r.root.leaf && r.root.keys == [] && r.t == t
  {
    BTree(BNode(true, [], []), t)
  }

  // ---------------------------------------------------------------------
  // Shape invariants
  // ---------------------------------------------------------------------

  /** Every leaf sits at depth `h`, and each inner node has one child more
      than it has keys. */
  ghost predicate Balanced(n: BNode, h: nat)
    decreases h
  {
    if h == 0 then n.leaf && n.children == []
    else
      !n.leaf && |n.children| == |n.keys| + 1 &&
      forall i :: 0 <= i < |n.children| ==> Balanced(n.children[i], h - 1)
  }

  /** No node holds more than `2t - 1` keys. */
  predicate Bounded(n: BNode, t: int)
  {
    |n.keys| <= 2 * t - 1 &&
    forall i :: 0 <= i < |n.children| ==> Bounded(n.children[i], t)
  }

  /** `_insert_non_full` may add a key to `n` itself only when `n` is not
      full; a full inner node is acceptable when none of its children is
      full, since then no split reaches it. */
  predicate Roomy(n: BNode, t: int)
  {
    !IsFull(n, t) ||
    (!n.leaf && forall i :: 0 <= i < |n.children| ==> !IsFull(n.children[i], t))
  }

  // ---------------------------------------------------------------------
  // In-order key sequence
  // ---------------------------------------------------------------------

  /** The keys of `n` in order: child 0, key 0, child 1, ..., key m-1, child m. */
  ghost function Inorder(n: BNode, h: nat): seq<Key>
    decreases h, 0
  {
    if h == 0 || n.leaf || |n.children| != |n.keys| + 1 then n.keys
    else Pairs(n.children[..|n.keys|], n.keys, h - 1) + Inorder(n.children[|n.keys|], h - 1)
  }

  /** `Inorder(cs[0]) + [ks[0]] + Inorder(cs[1]) + [ks[1]] + ...` */
  ghost function Pairs(cs: seq<BNode>, ks: seq<Key>, h: nat): seq<Key>
    decreases h, |cs|
  {
    if cs == [] || ks == [] then []
    else Inorder(cs[0], h) + [ks[0]] + Pairs(cs[1..], ks[1..], h)
  }

  /** The keys that come before child `j` in `Inorder(n, h)`. */
  ghost function Before(n: BNode, h: nat, j: nat): seq<Key>
    requires h >= 1 && j <= |n.keys| && j <= |n.children|
  {
    Pairs(n.children[..j], n.keys[..j], h - 1)
  }

  /** The keys that come after child `j` in `Inorder(n, h)`. */
  ghost function After(n: BNode, h: nat, j: nat): seq<Key>
    requires h >= 1 && |n.children| == |n.keys| + 1 && j <= |n.keys|
  {
    if j == |n.keys| then []
    else
      [n.keys[j]] + Pairs(n.children[j + 1..|n.keys|], n.keys[j + 1..], h - 1)
      + Inorder(n.children[|n.keys|], h - 1)
  }

  /** Keys in non-decreasing name order (duplicate names are allowed). */
  ghost predicate Sorted(s: seq<Key>)
  {
    forall i, j :: 0 <= i < j < |s| ==> LessEq(s[i].name, s[j].name)
  }

  /** The invariant `insert` keeps, for a tree of height `h`. */
  ghost predicate Valid(b: BTree, h: nat)
  {
    Balanced(b.root, h) && Bounded(b.root, b.t) && Sorted(Inorder(b.root, h))
  }

  /** The key sequence of a valid tree. */
  ghost function Contents(b: BTree, h: nat): seq<Key>
  {
    Inorder(b.root, h)
  }

  // ---------------------------------------------------------------------
  // Search
  // ---------------------------------------------------------------------

  /** Number of leading keys whose name is below `name` (the scan in
      `_search_node`). */
  function FirstNotLess(keys: seq<Key>, name: string): (r: nat)
    ensures r <= |keys|
    ensures forall j :: 0 <= j < r ==> Less(keys[j].name, name)
    ensures r < |keys| ==> !Less(keys[r].name, name)
  {
    if keys == [] || !Less(keys[0].name, name) then 0
    else 1 + FirstNotLess(keys[1..], name)
  }

  /** `_search_node(node, name)`.  An internal node with too few
      children makes Python raise IndexError; a valid tree has one more
      child than keys, so that branch is never taken there, and the model
      answers `None` in it. */
  function SearchNode(n: BNode, name: string): (r: Option<Key>)
    ensures r.Some? ==> r.value.name == name
  {
    var i := FirstNotLess(n.keys, name);
    if i < |n.keys| && n.keys[i].name == name then Some(n.keys[i])
    else if n.leaf || i >= |n.children| then None
    else SearchNode(n.children[i], name)
  }

  function Search(b: BTree, name: string): (r: Option<Key>)
    ensures r.Some? ==> r.value.name == name
  {
    SearchNode(b.root, name)
  }

  // ---------------------------------------------------------------------
  // Split and insert
  // ---------------------------------------------------------------------

  /** Position after the last key whose name is not above `name` (the
      backward scan in `_insert_non_full`). */
  function InsertPos(keys: seq<Key>, name: string): (r: nat)
    ensures r <= |keys|
    ensures forall j :: r <= j < |keys| ==> Less(name, keys[j].name)
    ensures r > 0 ==> LessEq(keys[r - 1].name, name)
  {
    if keys == [] then 0
    else if Less(name, keys[|keys| - 1].name) then InsertPos(keys[..|keys| - 1], name)
    else |keys|
  }

  /** Python's `list.insert(i, x)` for an index inside the list. */
  function InsertAt<T>(s: seq<T>, i: nat, x: T): (r: seq<T>)
    requires i <= |s|
    ensures |r| == |s| + 1 && r[i] == x && r[..i] == s[..i] && r[i + 1..] == s[i..]
  {
    s[..i] + [x] + s[i..]
  }

  /** The child `_split_child` may split: a full child of the right shape. */
  predicate CanSplit(p: BNode, i: nat, t: int)
  {
    i < |p.children| && i <= |p.keys| && IsFull(p.children[i], t) &&
    (p.children[i].leaf || |p.children[i].children| == 2 * t)
  }

  /** The first `t - 1` keys (and `t` children) stay in the old child. */
  function LeftHalf(c: BNode, t: int): BNode
    requires IsFull(c, t) && (c.leaf || |c.children| == 2 * t)
  {
    BNode(c.leaf, c.keys[..t - 1], if c.leaf then c.children else c.children[..t])
  }

  /** The last `t - 1` keys (and `t` children) move to the new sibling. */
  function RightHalf(c: BNode, t: int): BNode
    requires IsFull(c, t) && (c.leaf || |c.children| == 2 * t)
  {
    BNode(c.leaf, c.keys[t..], if c.leaf then [] else c.children[t..])
  }

  function SplitChild(p: BNode, i: nat, t: int): (r: BNode)
    requires CanSplit(p, i, t)
    ensures |r.keys| == |p.keys| + 1 && |r.children| == |p.children| + 1
    ensures r.leaf == p.leaf
    ensures r.keys[i] == p.children[i].keys[t - 1]
    ensures r.children[i] == LeftHalf(p.children[i], t) && r.children[i + 1] == RightHalf(p.children[i], t)
    ensures r.children[i].keys + [r.keys[i]] + r.children[i + 1].keys == p.children[i].keys
    ensures |r.children[i].keys| == t - 1 && |r.children[i + 1].keys| == t - 1
    ensures !p.children[i].leaf ==>
              |r.children[i].children| == t && |r.children[i + 1].children| == t &&
              r.children[i].children + r.children[i + 1].children == p.children[i].children
    ensures r.keys[..i] == p.keys[..i] && r.keys[i + 1..] == p.keys[i..]
    ensures r.children[..i] == p.children[..i] && r.children[i + 2..] == p.children[i + 1..]
  {
    var c := p.children[i];
    var left := LeftHalf(c, t);
    var right := RightHalf(c, t);
    assert !c.leaf ==> c.children[..t] + c.children[t..] == c.children;
    assert c.keys[..t - 1] + [c.keys[t - 1]] + c.keys[t..] == c.keys;
    BNode(p.leaf, InsertAt(p.keys, i, c.keys[t - 1]), p.children[..i] + [left, right] + p.children[i + 1..])
  }

  function ReplaceChild(n: BNode, j: nat, c: BNode): (r: BNode)
    requires j < |n.children|
  {
    n.(children := n.children[j := c])
  }

  /** The child `_insert_non_full` descends into: the one after the last key
      not above `k`, or its new right half when it was split and the median
      is below `k`. */
  function Slot(n: BNode, k: Key, t: int): (j: nat)
    requires |n.children| == |n.keys| + 1
  {
    var i := InsertPos(n.keys, k.name);
    var c := n.children[i];
    if IsFull(c, t) && Less(c.keys[t - 1].name, k.name) then i + 1 else i
  }

  /** An inner node with the child on the insertion path split if it was
      full. */
  function MakeRoom(n: BNode, k: Key, t: int, ghost h: nat): (r: BNode)
    requires Balanced(n, h) && !n.leaf
  {
    var i := InsertPos(n.keys, k.name);
    if IsFull(n.children[i], t) then
      BalancedCanSplit(n, i, t, h);
      SplitChild(n, i, t)
    else n
  }

  /** `_insert_non_full`: descend to a leaf, splitting a full child before
      entering it, and put `k` after the leaf keys whose name is not above
      its own. */
  function InsertNonFull(n: BNode, k: Key, t: int, ghost h: nat): (r: BNode)
    requires Balanced(n, h)
    ensures r.leaf == n.leaf
    ensures n.leaf ==> |r.keys| == |n.keys| + 1 && multiset(r.keys) == multiset(n.keys) + multiset{k}
    decreases h
  {
    if n.leaf then
      var i := InsertPos(n.keys, k.name);
      assert n.keys == n.keys[..i] + n.keys[i..];
      n.(keys := InsertAt(n.keys, i, k))
    else
      MakeRoomShape(n, k, t, h);
      var n1 := MakeRoom(n, k, t, h);
      var j := Slot(n, k, t);
      ReplaceChild(n1, j, InsertNonFull(n1.children[j], k, t, h - 1))
  }

  /** The height `insert` leaves: one more exactly when the root was full. */
  ghost function NewHeight(b: BTree, h: nat): nat
  {
    if IsFull(b.root, b.t) then h + 1 else h
  }

  /** The root above a full root, before its split. */
  function Lift(root: BNode): BNode
  {
    BNode(false, [], [root])
  }

  /** `insert`: split a full root under a new root, then insert below. */
  function Insert(b: BTree, k: Key, ghost h: nat): (r: BTree)
    requires Balanced(b.root, h)
    ensures r.t == b.t
  {
    if IsFull(b.root, b.t) then
      LiftBalanced(b.root, b.t, h);
      var n1 := SplitChild(Lift(b.root), 0, b.t);
      BTree(InsertNonFull(n1, k, b.t, h + 1), b.t)
    else
      BTree(InsertNonFull(b.root, k, b.t, h), b.t)
  }

  // ---------------------------------------------------------------------
  // Ordering facts on key sequences
  // ---------------------------------------------------------------------

  lemma SortedMiddle(a: seq<Key>, c: seq<Key>, b: seq<Key>)
    requires Sorted(a + c + b)
    ensures Sorted(c)
  {
    var s := a + c + b;
    forall i, j | 0 <= i < j < |c|
      ensures LessEq(c[i].name, c[j].name)
    {
      assert c[i] == s[|a| + i] && c[j] == s[|a| + j];
    }
  }

  /** `k` belongs at position `p` of `s`. */
  ghost predicate Fits(s: seq<Key>, p: nat, k: Key)
  {
    p <= |s| &&
    (forall i :: 0 <= i < p ==> LessEq(s[i].name, k.name)) &&
    (forall i :: p <= i < |s| ==> LessEq(k.name, s[i].name))
  }

  lemma SortedSplice(s: seq<Key>, p: nat, k: Key)
    requires Sorted(s) && Fits(s, p, k)
    ensures Sorted(s[..p] + [k] + s[p..])
  {
    var r := s[..p] + [k] + s[p..];
    forall i, j | 0 <= i < j < |r|
      ensures LessEq(r[i].name, r[j].name)
    {
      if j < p {
        assert r[i] == s[i] && r[j] == s[j];
      } else if j == p {
        assert r[i] == s[i];
      } else if i == p {
        assert r[j] == s[j - 1];
      } else if i < p {
        assert r[i] == s[i] && r[j] == s[j - 1];
      } else {
        assert r[i] == s[i - 1] && r[j] == s[j - 1];
      }
    }
  }

  lemma SpliceEq(a: seq<Key>, c: seq<Key>, b: seq<Key>, q: nat, k: Key)
    requires q <= |c|
    ensures a + (c[..q] + [k] + c[q..]) + b
         == (a + c + b)[..|a| + q] + [k] + (a + c + b)[|a| + q..]
  {
    var s := a + c + b;
    assert s[..|a| + q] == a + c[..q];
    assert s[|a| + q..] == c[q..] + b;
  }

  /** If `k` fits into the middle part and the outer parts lie on the right
      sides of `k`, it fits into the whole. */
  lemma SpliceFits(a: seq<Key>, c: seq<Key>, b: seq<Key>, q: nat, k: Key)
    requires Sorted(a + c + b) && Fits(c, q, k)
    requires a != [] ==> LessEq(a[|a| - 1].name, k.name)
    requires b != [] ==> LessEq(k.name, b[0].name)
    ensures Fits(a + c + b, |a| + q, k)
  {
    var s := a + c + b;
    forall i | 0 <= i < |a| + q
      ensures LessEq(s[i].name, k.name)
    {
      if i < |a| {
        assert s[|a| - 1] == a[|a| - 1];
        if i < |a| - 1 {
          LessEqTrans(s[i].name, a[|a| - 1].name, k.name);
        }
      } else {
        assert s[i] == c[i - |a|];
      }
    }
    forall i | |a| + q <= i < |s|
      ensures LessEq(k.name, s[i].name)
    {
      if i < |a| + |c| {
        assert s[i] == c[i - |a|];
      } else {
        assert s[|a| + |c|] == b[0];
        if i > |a| + |c| {
          LessEqTrans(k.name, b[0].name, s[i].name);
        }
      }
    }
  }

  // ---------------------------------------------------------------------
  // In-order decomposition
  // ---------------------------------------------------------------------

  lemma {:induction false} PairsConcat(cs1: seq<BNode>, ks1: seq<Key>, cs2: seq<BNode>, ks2: seq<Key>, h: nat)
    requires |cs1| == |ks1|
    ensures Pairs(cs1 + cs2, ks1 + ks2, h) == Pairs(cs1, ks1, h) + Pairs(cs2, ks2, h)
    decreases |cs1|
  {
    if cs1 == [] {
      assert cs1 + cs2 == cs2 && ks1 + ks2 == ks2;
    } else {
      assert (cs1 + cs2)[1..] == cs1[1..] + cs2;
      assert (ks1 + ks2)[1..] == ks1[1..] + ks2;
      PairsConcat(cs1[1..], ks1[1..], cs2, ks2, h);
    }
  }

  /** `Pairs` of a sequence split after position `j`, with the `j`-th pair
      unfolded. */
  lemma PairsAt(cs: seq<BNode>, ks: seq<Key>, h: nat, j: nat)
    requires |cs| == |ks| && j < |cs|
    ensures Pairs(cs, ks, h) == Pairs(cs[..j], ks[..j], h) + Inorder(cs[j], h) + [ks[j]] + Pairs(cs[j + 1..], ks[j + 1..], h)
  {
    assert cs == cs[..j] + cs[j..] && ks == ks[..j] + ks[j..];
    PairsConcat(cs[..j], ks[..j], cs[j..], ks[j..], h);
    assert cs[j..][1..] == cs[j + 1..] && ks[j..][1..] == ks[j + 1..];
  }

  lemma Regroup<T>(a: seq<T>, b: seq<T>, x: seq<T>, c: seq<T>, d: seq<T>)
    ensures a + (b + x + c) + d == a + b + (x + c + d)
  {
  }

  lemma InorderInner(n: BNode, h: nat)
    requires h >= 1 && !n.leaf && |n.children| == |n.keys| + 1
    ensures Inorder(n, h) == Pairs(n.children[..|n.keys|], n.keys, h - 1) + Inorder(n.children[|n.keys|], h - 1)
  {
  }

  lemma DecomposeInner(n: BNode, h: nat, j: nat)
    requires h >= 1 && !n.leaf && |n.children| == |n.keys| + 1 && j < |n.keys|
    ensures Inorder(n, h) == Before(n, h, j) + Inorder(n.children[j], h - 1) + After(n, h, j)
  {
    var m := |n.keys|;
    var cs, ks := n.children, n.keys;
    var rest := Pairs(cs[j + 1..m], ks[j + 1..], h - 1);
    InorderInner(n, h);
    assert Pairs(cs[..m], ks, h - 1) == Before(n, h, j) + Inorder(cs[j], h - 1) + [ks[j]] + rest by {
      PairsAt(cs[..m], ks, h - 1, j);
      assert cs[..m][..j] == cs[..j] && cs[..m][j] == cs[j] && cs[..m][j + 1..] == cs[j + 1..m];
    }
    Regroup([], Before(n, h, j) + Inorder(cs[j], h - 1), [ks[j]], rest, Inorder(cs[m], h - 1));
  }

  lemma DecomposeLast(n: BNode, h: nat)
    requires h >= 1 && !n.leaf && |n.children| == |n.keys| + 1
    ensures Inorder(n, h) == Before(n, h, |n.keys|) + Inorder(n.children[|n.keys|], h - 1) + After(n, h, |n.keys|)
  {
    InorderInner(n, h);
    assert n.keys[..|n.keys|] == n.keys;
  }

  lemma BeforeLast(n: BNode, h: nat, j: nat)
    requires h >= 1 && 0 < j <= |n.keys| && j <= |n.children|
    ensures |Before(n, h, j)| > 0 && Before(n, h, j)[|Before(n, h, j)| - 1] == n.keys[j - 1]
  {
    var cs, ks := n.children[..j], n.keys[..j];
    PairsAt(cs, ks, h - 1, j - 1);
    assert cs[j..] == [];
  }

  /** Child `j` of an inner node sits between key `j - 1` and key `j`. */
  lemma Decompose(n: BNode, h: nat, j: nat)
    requires h >= 1 && !n.leaf && |n.children| == |n.keys| + 1 && j <= |n.keys|
    ensures Inorder(n, h) == Before(n, h, j) + Inorder(n.children[j], h - 1) + After(n, h, j)
    ensures j > 0 ==> |Before(n, h, j)| > 0 && Before(n, h, j)[|Before(n, h, j)| - 1] == n.keys[j - 1]
    ensures j < |n.keys| ==> |After(n, h, j)| > 0 && After(n, h, j)[0] == n.keys[j]
  {
    if j < |n.keys| {
      DecomposeInner(n, h, j);
    } else {
      DecomposeLast(n, h);
    }
    if j > 0 {
      BeforeLast(n, h, j);
    }
  }

  // ---------------------------------------------------------------------
  // Split preserves the tree
  // ---------------------------------------------------------------------

  lemma BalancedCanSplit(n: BNode, i: nat, t: int, h: nat)
    requires Balanced(n, h) && !n.leaf && i <= |n.keys| && IsFull(n.children[i], t)
    ensures CanSplit(n, i, t)
  {
    assert Balanced(n.children[i], h - 1);
  }

  lemma HalvesBalanced(c: BNode, t: int, h: nat)
    requires Balanced(c, h) && IsFull(c, t) && (c.leaf || |c.children| == 2 * t)
    ensures Balanced(LeftHalf(c, t), h) && Balanced(RightHalf(c, t), h)
  {
    var l, r := LeftHalf(c, t), RightHalf(c, t);
    if h > 0 {
      forall i | 0 <= i < |l.children| ensures Balanced(l.children[i], h - 1) {
        assert l.children[i] == c.children[i];
      }
      forall i | 0 <= i < |r.children| ensures Balanced(r.children[i], h - 1) {
        assert r.children[i] == c.children[t + i];
      }
    }
  }

  lemma Assoc<T>(a: seq<T>, b: seq<T>, c: seq<T>)
    ensures a + b + c == a + (b + c)
  {
  }

  lemma PairsCons(x: BNode, xs: seq<BNode>, k: Key, ks: seq<Key>, h: nat)
    ensures Pairs([x] + xs, [k] + ks, h) == Inorder(x, h) + [k] + Pairs(xs, ks, h)
  {
    assert ([x] + xs)[1..] == xs && ([k] + ks)[1..] == ks;
  }

  lemma LeftHalfInorder(c: BNode, t: int, h: nat)
    requires h >= 1 && !c.leaf && IsFull(c, t) && |c.children| == 2 * t
    ensures Inorder(LeftHalf(c, t), h)
         == Pairs(c.children[..t - 1], c.keys[..t - 1], h - 1) + Inorder(c.children[t - 1], h - 1)
  {
    var l := LeftHalf(c, t);
    InorderInner(l, h);
    assert l.children[..t - 1] == c.children[..t - 1] && l.children[t - 1] == c.children[t - 1];
  }

  lemma RightHalfInorder(c: BNode, t: int, h: nat)
    requires h >= 1 && !c.leaf && IsFull(c, t) && |c.children| == 2 * t
    ensures Inorder(RightHalf(c, t), h)
         == Pairs(c.children[t..2 * t - 1], c.keys[t..], h - 1) + Inorder(c.children[2 * t - 1], h - 1)
  {
    var r := RightHalf(c, t);
    InorderInner(r, h);
    assert r.children[..t - 1] == c.children[t..2 * t - 1] && r.children[t - 1] == c.children[2 * t - 1];
  }

  lemma FullPairs(c: BNode, t: int, h: nat)
    requires IsFull(c, t) && |c.children| == 2 * t
    ensures Pairs(c.children[..2 * t - 1], c.keys, h)
         == Pairs(c.children[..t - 1], c.keys[..t - 1], h) + Inorder(c.children[t - 1], h)
            + [c.keys[t - 1]] + Pairs(c.children[t..2 * t - 1], c.keys[t..], h)
  {
    var cs := c.children[..2 * t - 1];
    PairsAt(cs, c.keys, h, t - 1);
    assert cs[..t - 1] == c.children[..t - 1] && cs[t - 1] == c.children[t - 1];
    assert cs[t..] == c.children[t..2 * t - 1];
  }

  lemma LeafHalvesInorder(c: BNode, t: int)
    requires c.leaf && IsFull(c, t)
    ensures Inorder(c, 0) == Inorder(LeftHalf(c, t), 0) + [c.keys[t - 1]] + Inorder(RightHalf(c, t), 0)
  {
    assert c.keys == c.keys[..t - 1] + [c.keys[t - 1]] + c.keys[t..];
  }

  lemma InnerHalvesInorder(c: BNode, t: int, h: nat)
    requires h >= 1 && !c.leaf && IsFull(c, t) && |c.children| == 2 * t
    ensures Inorder(c, h) == Inorder(LeftHalf(c, t), h) + [c.keys[t - 1]] + Inorder(RightHalf(c, t), h)
  {
    var m := 2 * t - 1;
    var pl := Pairs(c.children[..t - 1], c.keys[..t - 1], h - 1);
    var pr := Pairs(c.children[t..m], c.keys[t..], h - 1);
    var mid, last := Inorder(c.children[t - 1], h - 1), Inorder(c.children[m], h - 1);
    var pairs := Pairs(c.children[..m], c.keys, h - 1);
    assert Inorder(c, h) == pairs + last by {
      InorderInner(c, h);
      assert c.children[..|c.keys|] == c.children[..m];
    }
    assert Inorder(LeftHalf(c, t), h) == pl + mid by {
      LeftHalfInorder(c, t, h);
    }
    assert Inorder(RightHalf(c, t), h) == pr + last by {
      RightHalfInorder(c, t, h);
    }
    assert pairs == pl + mid + [c.keys[t - 1]] + pr by {
      FullPairs(c, t, h - 1);
    }
    Combine(Inorder(c, h), Pairs(c.children[..m], c.keys, h - 1), Inorder(c.children[m], h - 1),
            Inorder(LeftHalf(c, t), h), Inorder(RightHalf(c, t), h),
            pl, Inorder(c.children[t - 1], h - 1), [c.keys[t - 1]], pr);
  }

  /** `whole = (pl + mid + k + pr) + last` regroups as `(pl + mid) + k + (pr + last)`. */
  lemma Combine<T>(whole: seq<T>, pairs: seq<T>, last: seq<T>, left: seq<T>, right: seq<T>,
                   pl: seq<T>, mid: seq<T>, k: seq<T>, pr: seq<T>)
    requires whole == pairs + last && pairs == pl + mid + k + pr
    requires left == pl + mid && right == pr + last
    ensures whole == left + k + right
  {
  }

  /** The two halves of a full child, with the median between them, hold
      the child's keys in order. */
  lemma HalvesInorder(c: BNode, t: int, h: nat)
    requires Balanced(c, h) && IsFull(c, t) && (c.leaf || |c.children| == 2 * t)
    ensures Inorder(c, h) == Inorder(LeftHalf(c, t), h) + [c.keys[t - 1]] + Inorder(RightHalf(c, t), h)
  {
    if h == 0 {
      LeafHalvesInorder(c, t);
    } else {
      InnerHalvesInorder(c, t, h);
    }
  }

  lemma SplitChildBalanced(n: BNode, i: nat, t: int, h: nat)
    requires Balanced(n, h) && !n.leaf && i <= |n.keys| && IsFull(n.children[i], t)
    ensures CanSplit(n, i, t)
    ensures Balanced(SplitChild(n, i, t), h)
  {
    BalancedCanSplit(n, i, t, h);
    var c := n.children[i];
    HalvesBalanced(c, t, h - 1);
    var r := SplitChild(n, i, t);
    forall j | 0 <= j < |r.children| ensures Balanced(r.children[j], h - 1) {
      if j < i {
        assert r.children[j] == n.children[j];
      } else if j > i + 1 {
        assert r.children[j] == r.children[i + 2..][j - i - 2] == n.children[j - 1];
      }
    }
  }

  /** After a split, the keys past child `i` are the median, the new right
      half, and what followed the old child. */
  lemma AfterSplit(n: BNode, i: nat, t: int, h: nat)
    requires h >= 1 && !n.leaf && |n.children| == |n.keys| + 1 && CanSplit(n, i, t)
    ensures After(SplitChild(n, i, t), h, i)
         == [n.children[i].keys[t - 1]] + Inorder(RightHalf(n.children[i], t), h - 1) + After(n, h, i)
  {
    if i < |n.keys| {
      AfterSplitInner(n, i, t, h);
    } else {
      AfterLast(SplitChild(n, i, t), h, i);
    }
  }

  /** Past the second-to-last child only the last key and child remain. */
  lemma AfterLast(r: BNode, h: nat, i: nat)
    requires h >= 1 && |r.children| == |r.keys| + 1 && i + 1 == |r.keys|
    ensures After(r, h, i) == [r.keys[i]] + Inorder(r.children[i + 1], h - 1)
  {
    assert r.children[i + 1..i + 1] == [];
  }

  lemma AfterSplitInner(n: BNode, i: nat, t: int, h: nat)
    requires h >= 1 && !n.leaf && |n.children| == |n.keys| + 1 && CanSplit(n, i, t) && i < |n.keys|
    ensures After(SplitChild(n, i, t), h, i)
         == [n.children[i].keys[t - 1]] + Inorder(RightHalf(n.children[i], t), h - 1) + After(n, h, i)
  {
    var m := |n.keys|;
    var med := [n.children[i].keys[t - 1]];
    var right := RightHalf(n.children[i], t);
    var rest, ks := n.children[i + 1..m], n.keys[i + 1..];
    var last := Inorder(n.children[m], h - 1);
    AfterSplitUnfold(n, i, t, h);
    PairsCons(right, rest, n.keys[i], ks, h - 1);
    Regroup(med, Inorder(right, h - 1), [n.keys[i]], Pairs(rest, ks, h - 1), last);
  }

  lemma AfterSplitUnfold(n: BNode, i: nat, t: int, h: nat)
    requires h >= 1 && !n.leaf && |n.children| == |n.keys| + 1 && CanSplit(n, i, t) && i < |n.keys|
    ensures After(SplitChild(n, i, t), h, i)
         == [n.children[i].keys[t - 1]]
            + Pairs([RightHalf(n.children[i], t)] + n.children[i + 1..|n.keys|], [n.keys[i]] + n.keys[i + 1..], h - 1)
            + Inorder(n.children[|n.keys|], h - 1)
  {
    SplitSlices(n, i, t);
    AfterOf(SplitChild(n, i, t), n, i, h, RightHalf(n.children[i], t));
  }

  /** `After` of a node whose children and keys past `i` are those of `n`
      with `right` and key `i` of `n` put in front. */
  lemma AfterOf(r: BNode, n: BNode, i: nat, h: nat, right: BNode)
    requires h >= 1 && |n.children| == |n.keys| + 1 && i < |n.keys|
    requires |r.keys| == |n.keys| + 1 && |r.children| == |r.keys| + 1
    requires r.children[i + 1..|n.keys| + 1] == [right] + n.children[i + 1..|n.keys|]
    requires r.keys[i + 1..] == [n.keys[i]] + n.keys[i + 1..]
    requires r.children[|n.keys| + 1] == n.children[|n.keys|]
    ensures After(r, h, i)
         == [r.keys[i]] + Pairs([right] + n.children[i + 1..|n.keys|], [n.keys[i]] + n.keys[i + 1..], h - 1)
            + Inorder(n.children[|n.keys|], h - 1)
  {
  }

  /** Where the parent's children and keys end up after splitting child `i`
      (not the last). */
  lemma SplitSlices(n: BNode, i: nat, t: int)
    requires CanSplit(n, i, t) && |n.children| == |n.keys| + 1 && i < |n.keys|
    ensures var r := SplitChild(n, i, t);
            var m := |n.keys|;
            r.children[i + 1..m + 1] == [RightHalf(n.children[i], t)] + n.children[i + 1..m] &&
            r.keys[i + 1..] == [n.keys[i]] + n.keys[i + 1..] &&
            r.children[m + 1] == n.children[m]
  {
    SlicesOf(SplitChild(n, i, t), n, i, RightHalf(n.children[i], t));
  }

  /** `SplitSlices` for any node whose children and keys past `i` are
      those `SplitChild` leaves. */
  lemma SlicesOf(r: BNode, n: BNode, i: nat, right: BNode)
    requires |n.children| == |n.keys| + 1 && i < |n.keys|
    requires |r.children| == |n.children| + 1 && |r.keys| == |n.keys| + 1
    requires r.children[i + 1] == right && r.children[i + 2..] == n.children[i + 1..]
    requires r.keys[i + 1..] == n.keys[i..]
    ensures var m := |n.keys|;
            r.children[i + 1..m + 1] == [right] + n.children[i + 1..m] &&
            r.keys[i + 1..] == [n.keys[i]] + n.keys[i + 1..] &&
            r.children[m + 1] == n.children[m]
  {
    var m := |n.keys|;
    assert r.children[m + 1] == r.children[i + 2..][m - i - 1];
    assert n.keys[i..] == [n.keys[i]] + n.keys[i + 1..];
    assert r.children[i + 1..m + 1] == [r.children[i + 1]] + r.children[i + 2..][..m - i - 1];
  }

  lemma SplitChildInorder(n: BNode, i: nat, t: int, h: nat)
    requires Balanced(n, h) && !n.leaf && i <= |n.keys| && IsFull(n.children[i], t)
    ensures CanSplit(n, i, t)
    ensures Inorder(SplitChild(n, i, t), h) == Inorder(n, h)
  {
    BalancedCanSplit(n, i, t, h);
    var c := n.children[i];
    OldInorder(n, i, t, h);
    NewInorder(n, i, t, h);
    Regroup(Before(n, h, i), Inorder(LeftHalf(c, t), h - 1), [c.keys[t - 1]], Inorder(RightHalf(c, t), h - 1), After(n, h, i));
  }

  /** The in-order keys of `n` around the full child `i`, split in halves. */
  lemma OldInorder(n: BNode, i: nat, t: int, h: nat)
    requires Balanced(n, h) && !n.leaf && i <= |n.keys| && CanSplit(n, i, t)
    ensures var c := n.children[i];
      Inorder(n, h) == Before(n, h, i) + (Inorder(LeftHalf(c, t), h - 1) + [c.keys[t - 1]] + Inorder(RightHalf(c, t), h - 1)) + After(n, h, i)
  {
    HalvesInorder(n.children[i], t, h - 1);
    Decompose(n, h, i);
  }

  /** The in-order keys after the split: the left half in place of the
      child, then the median, the right half and the rest. */
  lemma NewInorder(n: BNode, i: nat, t: int, h: nat)
    requires Balanced(n, h) && !n.leaf && i <= |n.keys| && CanSplit(n, i, t)
    ensures var c := n.children[i];
      Inorder(SplitChild(n, i, t), h) == Before(n, h, i) + Inorder(LeftHalf(c, t), h - 1) + ([c.keys[t - 1]] + Inorder(RightHalf(c, t), h - 1) + After(n, h, i))
  {
    var r := SplitChild(n, i, t);
    assert Inorder(r, h) == Before(r, h, i) + Inorder(r.children[i], h - 1) + After(r, h, i) by {
      Decompose(r, h, i);
    }
    assert Before(r, h, i) == Before(n, h, i) by {
      assert r.children[..i] == n.children[..i] && r.keys[..i] == n.keys[..i];
    }
    AfterSplit(n, i, t, h);
  }

  // ---------------------------------------------------------------------
  // Insert preserves the tree
  // ---------------------------------------------------------------------

  lemma ReplaceChildBalanced(n: BNode, j: nat, c: BNode, h: nat)
    requires Balanced(n, h) && j < |n.children| && Balanced(c, h - 1)
    ensures Balanced(ReplaceChild(n, j, c), h)
  {
    var r := ReplaceChild(n, j, c);
    forall i | 0 <= i < |r.children| ensures Balanced(r.children[i], h - 1) {
      if i != j {
        assert r.children[i] == n.children[i];
      }
    }
  }

  /** Replacing child `j` changes only the middle part of the in-order
      sequence. */
  lemma ReplaceChildInorder(n: BNode, j: nat, c: BNode, h: nat)
    requires h >= 1 && !n.leaf && |n.children| == |n.keys| + 1 && j <= |n.keys|
    ensures Inorder(ReplaceChild(n, j, c), h) == Before(n, h, j) + Inorder(c, h - 1) + After(n, h, j)
  {
    var r := ReplaceChild(n, j, c);
    var m := |n.keys|;
    Decompose(r, h, j);
    assert r.children[..j] == n.children[..j];
    if j < m {
      assert r.children[j + 1..m] == n.children[j + 1..m];
      assert r.children[m] == n.children[m];
    }
  }

  /** The child `_insert_non_full` descends into lies between its
      neighbouring keys. */
  ghost predicate Between(n: BNode, j: nat, k: Key)
    requires j <= |n.keys|
  {
    (j > 0 ==> LessEq(n.keys[j - 1].name, k.name)) &&
    (j < |n.keys| ==> LessEq(k.name, n.keys[j].name))
  }

  lemma MakeRoomShape(n: BNode, k: Key, t: int, h: nat)
    requires Balanced(n, h) && !n.leaf
    ensures Slot(n, k, t) <= |MakeRoom(n, k, t, h).keys|
    ensures Balanced(MakeRoom(n, k, t, h), h)
  {
    var i := InsertPos(n.keys, k.name);
    if IsFull(n.children[i], t) {
      SplitChildBalanced(n, i, t, h);
    }
  }

  /** The split before descending keeps the keys, and the child chosen
      afterwards is the one `k` belongs in. */
  lemma MakeRoomInorder(n: BNode, k: Key, t: int, h: nat)
    requires Balanced(n, h) && !n.leaf
    ensures Slot(n, k, t) <= |MakeRoom(n, k, t, h).keys|
    ensures Inorder(MakeRoom(n, k, t, h), h) == Inorder(n, h)
    ensures Between(MakeRoom(n, k, t, h), Slot(n, k, t), k)
  {
    MakeRoomShape(n, k, t, h);
    var i := InsertPos(n.keys, k.name);
    var n1 := MakeRoom(n, k, t, h);
    var j := Slot(n, k, t);
    if IsFull(n.children[i], t) {
      SplitChildInorder(n, i, t, h);
      var med := n1.keys[i];
      if j == i + 1 {
        Asymmetric(med.name, k.name);
        if j < |n1.keys| {
          assert n1.keys[j] == n1.keys[i + 1..][0] == n.keys[i];
          Asymmetric(k.name, n.keys[i].name);
        }
      } else if i > 0 {
        assert n1.keys[i - 1] == n1.keys[..i][i - 1] == n.keys[i - 1];
      }
    } else if i < |n.keys| {
      Asymmetric(k.name, n.keys[i].name);
    }
  }

  lemma MakeRoomBounded(n: BNode, k: Key, t: int, h: nat)
    requires Balanced(n, h) && !n.leaf && Bounded(n, t) && Roomy(n, t)
    ensures Slot(n, k, t) < |MakeRoom(n, k, t, h).children|
    ensures Bounded(MakeRoom(n, k, t, h), t)
    ensures Roomy(MakeRoom(n, k, t, h).children[Slot(n, k, t)], t)
  {
    MakeRoomShape(n, k, t, h);
    var i := InsertPos(n.keys, k.name);
    if IsFull(n.children[i], t) {
      BalancedCanSplit(n, i, t, h);
      SplitChildBounded(n, i, t);
    }
  }

  lemma {:induction false} InsertNonFullBalanced(n: BNode, k: Key, t: int, h: nat)
    requires Balanced(n, h)
    ensures Balanced(InsertNonFull(n, k, t, h), h)
    decreases h
  {
    if !n.leaf {
      MakeRoomShape(n, k, t, h);
      var n1 := MakeRoom(n, k, t, h);
      var j := Slot(n, k, t);
      InsertNonFullBalanced(n1.children[j], k, t, h - 1);
      ReplaceChildBalanced(n1, j, InsertNonFull(n1.children[j], k, t, h - 1), h);
    }
  }

  lemma DescendInorder(n: BNode, j: nat, c: BNode, k: Key, q: nat, h: nat)
    requires h >= 1 && !n.leaf && |n.children| == |n.keys| + 1 && j <= |n.keys|
    requires Between(n, j, k)
    requires q <= |Inorder(n.children[j], h - 1)|
    requires Inorder(c, h - 1) == Inorder(n.children[j], h - 1)[..q] + [k] + Inorder(n.children[j], h - 1)[q..]
    requires Sorted(Inorder(n.children[j], h - 1)) ==> Fits(Inorder(n.children[j], h - 1), q, k)
    ensures var s := Inorder(n, h);
            var p := |Before(n, h, j)| + q;
            p <= |s| &&
            Inorder(ReplaceChild(n, j, c), h) == s[..p] + [k] + s[p..] &&
            (Sorted(s) ==> Fits(s, p, k))
  {
    Decompose(n, h, j);
    ReplaceChildInorder(n, j, c, h);
    var a, m, b := Before(n, h, j), Inorder(n.children[j], h - 1), After(n, h, j);
    SpliceEq(a, m, b, q, k);
    if Sorted(Inorder(n, h)) {
      SortedMiddle(a, m, b);
      SpliceFits(a, m, b, q, k);
    }
  }

  /** The leaf insertion point keeps a sorted key list sorted. */
  lemma InsertPosFits(s: seq<Key>, k: Key)
    requires Sorted(s)
    ensures Fits(s, InsertPos(s, k.name), k)
  {
    var p := InsertPos(s, k.name);
    forall x | 0 <= x < p ensures LessEq(s[x].name, k.name) {
      if x < p - 1 {
        LessEqTrans(s[x].name, s[p - 1].name, k.name);
      }
    }
    forall x | p <= x < |s| ensures LessEq(k.name, s[x].name) {
      Asymmetric(k.name, s[x].name);
    }
  }

  /** The in-order fact `insert` establishes: `k` goes in at position `p`,
      which in a sorted sequence keeps it sorted. */
  ghost predicate PlacedAt(s: seq<Key>, s': seq<Key>, p: nat, k: Key)
  {
    p <= |s| && s' == s[..p] + [k] + s[p..] && (Sorted(s) ==> Fits(s, p, k))
  }

  lemma LeafInsertInorder(n: BNode, k: Key, t: int, h: nat) returns (p: nat)
    requires Balanced(n, h) && n.leaf
    ensures PlacedAt(Inorder(n, h), Inorder(InsertNonFull(n, k, t, h), h), p, k)
  {
    p := InsertPos(n.keys, k.name);
    if Sorted(n.keys) {
      InsertPosFits(n.keys, k);
    }
  }

  lemma InnerInsertInorder(n: BNode, k: Key, t: int, h: nat, q: nat) returns (p: nat)
    requires Balanced(n, h) && !n.leaf
    requires Slot(n, k, t) < |MakeRoom(n, k, t, h).children|
    requires Balanced(MakeRoom(n, k, t, h).children[Slot(n, k, t)], h - 1)
    requires var c := MakeRoom(n, k, t, h).children[Slot(n, k, t)];
             PlacedAt(Inorder(c, h - 1), Inorder(InsertNonFull(c, k, t, h - 1), h - 1), q, k)
    ensures PlacedAt(Inorder(n, h), Inorder(InsertNonFull(n, k, t, h), h), p, k)
  {
    var n1 := MakeRoom(n, k, t, h);
    var j := Slot(n, k, t);
    assert Inorder(n1, h) == Inorder(n, h) && Between(n1, j, k) && j <= |n1.keys| && Balanced(n1, h) by {
      MakeRoomShape(n, k, t, h);
      MakeRoomInorder(n, k, t, h);
    }
    var c' := InsertNonFull(n1.children[j], k, t, h - 1);
    assert InsertNonFull(n, k, t, h) == ReplaceChild(n1, j, c') by {
      InnerUnfold(n, k, t, h);
    }
    p := |Before(n1, h, j)| + q;
    assert PlacedAt(Inorder(n1, h), Inorder(ReplaceChild(n1, j, c'), h), p, k) by {
      DescendInorder(n1, j, c', k, q, h);
    }
  }

  /** Below an inner node the key goes into the child at its slot once
      that child has room. */
  lemma InnerUnfold(n: BNode, k: Key, t: int, h: nat)
    requires Balanced(n, h) && !n.leaf
    ensures Slot(n, k, t) < |MakeRoom(n, k, t, h).children|
    ensures Balanced(MakeRoom(n, k, t, h).children[Slot(n, k, t)], h - 1)
    ensures InsertNonFull(n, k, t, h)
         == ReplaceChild(MakeRoom(n, k, t, h), Slot(n, k, t),
                         InsertNonFull(MakeRoom(n, k, t, h).children[Slot(n, k, t)], k, t, h - 1))
  {
    MakeRoomShape(n, k, t, h);
  }

  /** Inserting places `k` somewhere in the in-order sequence; in a sorted
      tree, at a position that keeps it sorted. */
  lemma {:induction false} InsertNonFullInorder(n: BNode, k: Key, t: int, h: nat) returns (p: nat)
    requires Balanced(n, h)
    ensures PlacedAt(Inorder(n, h), Inorder(InsertNonFull(n, k, t, h), h), p, k)
    decreases h
  {
    if n.leaf {
      p := LeafInsertInorder(n, k, t, h);
    } else {
      MakeRoomShape(n, k, t, h);
      var c := MakeRoom(n, k, t, h).children[Slot(n, k, t)];
      var q := InsertNonFullInorder(c, k, t, h - 1);
      p := InnerInsertInorder(n, k, t, h, q);
    }
  }

  lemma SplitChildBounded(n: BNode, i: nat, t: int)
    requires CanSplit(n, i, t) && Bounded(n, t) && !IsFull(n, t)
    ensures Bounded(SplitChild(n, i, t), t)
    ensures !IsFull(SplitChild(n, i, t).children[i], t) && !IsFull(SplitChild(n, i, t).children[i + 1], t)
  {
    var c := n.children[i];
    var r := SplitChild(n, i, t);
    var left, right := r.children[i], r.children[i + 1];
    assert Bounded(c, t);
    assert Bounded(left, t) by {
      forall x | 0 <= x < |left.children| ensures Bounded(left.children[x], t) {
        assert left.children[x] == c.children[x];
      }
    }
    assert Bounded(right, t) by {
      forall x | 0 <= x < |right.children| ensures Bounded(right.children[x], t) {
        assert right.children[x] == c.children[t + x];
      }
    }
    forall x | 0 <= x < |r.children| ensures Bounded(r.children[x], t) {
      if x < i {
        assert r.children[x] == n.children[x];
      } else if x > i + 1 {
        assert r.children[x] == r.children[i + 2..][x - i - 2] == n.children[x - 1];
      }
    }
  }

  lemma ReplaceChildBounded(n: BNode, j: nat, c: BNode, t: int)
    requires Bounded(n, t) && j < |n.children| && Bounded(c, t)
    ensures Bounded(ReplaceChild(n, j, c), t)
  {
    var r := ReplaceChild(n, j, c);
    forall i | 0 <= i < |r.children| ensures Bounded(r.children[i], t) {
      if i != j {
        assert r.children[i] == n.children[i];
      }
    }
  }

  /** No node grows past `2t - 1` keys. */
  lemma {:induction false} InsertNonFullBounded(n: BNode, k: Key, t: int, h: nat)
    requires Balanced(n, h) && Bounded(n, t) && Roomy(n, t)
    ensures Bounded(InsertNonFull(n, k, t, h), t)
    decreases h
  {
    if !n.leaf {
      MakeRoomShape(n, k, t, h);
      MakeRoomBounded(n, k, t, h);
      var n1 := MakeRoom(n, k, t, h);
      var j := Slot(n, k, t);
      assert Balanced(n1.children[j], h - 1);
      InsertNonFullBounded(n1.children[j], k, t, h - 1);
      ReplaceChildBounded(n1, j, InsertNonFull(n1.children[j], k, t, h - 1), t);
    }
  }

  // ---------------------------------------------------------------------
  // The root
  // ---------------------------------------------------------------------

  lemma LiftBalanced(root: BNode, t: int, h: nat)
    requires Balanced(root, h) && IsFull(root, t)
    ensures Balanced(Lift(root), h + 1) && Inorder(Lift(root), h + 1) == Inorder(root, h)
    ensures CanSplit(Lift(root), 0, t)
    ensures Balanced(SplitChild(Lift(root), 0, t), h + 1)
    ensures Inorder(SplitChild(Lift(root), 0, t), h + 1) == Inorder(root, h)
  {
    var l := Lift(root);
    assert l.children[..0] == [];
    SplitChildBalanced(l, 0, t, h + 1);
    SplitChildInorder(l, 0, t, h + 1);
  }

  lemma LiftBounded(root: BNode, t: int)
    requires Bounded(root, t) && IsFull(root, t) && CanSplit(Lift(root), 0, t)
    ensures Bounded(SplitChild(Lift(root), 0, t), t) && Roomy(SplitChild(Lift(root), 0, t), t)
  {
    var l := Lift(root);
    assert Bounded(l, t) by {
      assert l.children[0] == root;
    }
    SplitChildBounded(l, 0, t);
  }

  /** Height is determined by the node. */
  lemma {:induction false} BalancedHeight(n: BNode, h1: nat, h2: nat)
    requires Balanced(n, h1) && Balanced(n, h2)
    ensures h1 == h2
    decreases h1
  {
    if h1 > 0 && h2 > 0 {
      BalancedHeight(n.children[0], h1 - 1, h2 - 1);
    }
  }

  lemma EmptyValid(t: int)
    requires t >= 1
    ensures Valid(Empty(t), 0) && Contents(Empty(t), 0) == []
  {
  }

  lemma InsertPlacedFull(b: BTree, k: Key, h: nat) returns (p: nat)
    requires Balanced(b.root, h) && Bounded(b.root, b.t) && IsFull(b.root, b.t)
    ensures Balanced(Insert(b, k, h).root, h + 1)
    ensures Bounded(Insert(b, k, h).root, b.t)
    ensures PlacedAt(Contents(b, h), Contents(Insert(b, k, h), h + 1), p, k)
  {
    var n1 := NewRoot(b, k, h);
    p := InsertBelow(n1, k, b.t, h + 1);
  }

  /** A full root is split under a new root, which has room, before the
      key goes below it. */
  lemma NewRoot(b: BTree, k: Key, h: nat) returns (n1: BNode)
    requires Balanced(b.root, h) && Bounded(b.root, b.t) && IsFull(b.root, b.t)
    ensures Balanced(n1, h + 1) && Bounded(n1, b.t) && Roomy(n1, b.t)
    ensures Inorder(n1, h + 1) == Contents(b, h)
    ensures Insert(b, k, h).root == InsertNonFull(n1, k, b.t, h + 1)
  {
    LiftBalanced(b.root, b.t, h);
    LiftBounded(b.root, b.t);
    n1 := SplitChild(Lift(b.root), 0, b.t);
  }

  /** Inserting into a node with room keeps it balanced and bounded and
      places the key in its in-order sequence. */
  lemma InsertBelow(n: BNode, k: Key, t: int, h: nat) returns (p: nat)
    requires Balanced(n, h) && Bounded(n, t) && Roomy(n, t)
    ensures Balanced(InsertNonFull(n, k, t, h), h)
    ensures Bounded(InsertNonFull(n, k, t, h), t)
    ensures PlacedAt(Inorder(n, h), Inorder(InsertNonFull(n, k, t, h), h), p, k)
  {
    InsertNonFullBalanced(n, k, t, h);
    InsertNonFullBounded(n, k, t, h);
    p := InsertNonFullInorder(n, k, t, h);
  }

  lemma InsertPlacedRoomy(b: BTree, k: Key, h: nat) returns (p: nat)
    requires Balanced(b.root, h) && Bounded(b.root, b.t) && !IsFull(b.root, b.t)
    ensures Balanced(Insert(b, k, h).root, h)
    ensures Bounded(Insert(b, k, h).root, b.t)
    ensures PlacedAt(Contents(b, h), Contents(Insert(b, k, h), h), p, k)
  {
    assert Insert(b, k, h).root == InsertNonFull(b.root, k, b.t, h);
    p := InsertBelow(b.root, k, b.t, h);
  }

  /** The shape and placement half of `insert`: balanced at the new height,
      bounded, and `k` placed in the in-order sequence. */
  lemma InsertPlaced(b: BTree, k: Key, h: nat) returns (p: nat)
    requires Balanced(b.root, h) && Bounded(b.root, b.t)
    ensures Balanced(Insert(b, k, h).root, NewHeight(b, h))
    ensures Bounded(Insert(b, k, h).root, b.t)
    ensures PlacedAt(Contents(b, h), Contents(Insert(b, k, h), NewHeight(b, h)), p, k)
  {
    if IsFull(b.root, b.t) {
      p := InsertPlacedFull(b, k, h);
    } else {
      p := InsertPlacedRoomy(b, k, h);
    }
  }

  lemma PlacedMultiset(s: seq<Key>, s': seq<Key>, p: nat, k: Key)
    requires PlacedAt(s, s', p, k)
    ensures multiset(s') == multiset(s) + multiset{k}
    ensures Sorted(s) ==> Sorted(s')
  {
    assert s == s[..p] + s[p..];
    if Sorted(s) {
      SortedSplice(s, p, k);
    }
  }

  /** `insert` keeps the tree valid, grows it by one level exactly when the
      root was full, and adds `k` to its keys at a place that keeps them
      sorted. */
  lemma InsertValid(b: BTree, k: Key, h: nat) returns (p: nat)
    requires Valid(b, h)
    ensures Valid(Insert(b, k, h), NewHeight(b, h))
    ensures forall h' :: Balanced(Insert(b, k, h).root, h') ==> h' == NewHeight(b, h)
    ensures var s := Contents(b, h);
            p <= |s| && Contents(Insert(b, k, h), NewHeight(b, h)) == s[..p] + [k] + s[p..]
    ensures multiset(Contents(Insert(b, k, h), NewHeight(b, h))) == multiset(Contents(b, h)) + multiset{k}
  {
    var r := Insert(b, k, h);
    var h' := NewHeight(b, h);
    p := InsertPlaced(b, k, h);
    PlacedMultiset(Contents(b, h), Contents(r, h'), p, k);
    forall h2 | Balanced(r.root, h2) ensures h2 == h' {
      BalancedHeight(r.root, h2, h');
    }
  }

  // ---------------------------------------------------------------------
  // Search is sound and complete
  // ---------------------------------------------------------------------

  /** A key `search` returns is one of the tree's keys. */
  lemma {:induction false} SearchNodeSound(n: BNode, name: string, h: nat)
    requires Balanced(n, h) && SearchNode(n, name).Some?
    ensures SearchNode(n, name).value in Inorder(n, h)
    decreases h
  {
    var i := FirstNotLess(n.keys, name);
    if !n.leaf {
      if i < |n.keys| && n.keys[i].name == name {
        Decompose(n, h, i + 1);
      } else {
        Decompose(n, h, i);
        SearchNodeSound(n.children[i], name, h - 1);
      }
    }
  }

  /** Keys below `name` before a part and keys above it after the part
      leave `name` only inside the part. */
  lemma OnlyInside(a: seq<Key>, c: seq<Key>, b: seq<Key>, name: string)
    requires Sorted(a + c + b)
    requires a != [] ==> Less(a[|a| - 1].name, name)
    requires b != [] ==> Less(name, b[0].name)
    ensures forall x :: x in a + c + b && x.name == name ==> x in c
  {
    var s := a + c + b;
    forall m | 0 <= m < |s| && s[m].name == name ensures |a| <= m < |a| + |c| {
      Irreflexive(name);
      SideOf(a, c, b, name, m);
    }
    forall x | x in s && x.name == name ensures x in c {
      var m :| 0 <= m < |s| && s[m] == x;
      assert x == c[m - |a|];
    }
  }

  /** A key before the part is below `name`, a key after it above. */
  lemma SideOf(a: seq<Key>, c: seq<Key>, b: seq<Key>, name: string, m: int)
    requires Sorted(a + c + b) && 0 <= m < |a + c + b|
    requires a != [] ==> Less(a[|a| - 1].name, name)
    requires b != [] ==> Less(name, b[0].name)
    ensures m < |a| ==> Less((a + c + b)[m].name, name)
    ensures m >= |a| + |c| ==> Less(name, (a + c + b)[m].name)
  {
    var s := a + c + b;
    if m < |a| {
      assert s[|a| - 1] == a[|a| - 1];
      if m < |a| - 1 {
        LessEqLess(s[m].name, a[|a| - 1].name, name);
      }
    } else if m >= |a| + |c| {
      assert s[|a| + |c|] == b[0];
      if m > |a| + |c| {
        LessLessEq(name, b[0].name, s[m].name);
      }
    }
  }

  /** When the scan stops before a key of another name, that key is above
      `name`. */
  lemma ScanStops(keys: seq<Key>, name: string)
    ensures var i := FirstNotLess(keys, name);
            i < |keys| && keys[i].name != name ==> Less(name, keys[i].name)
  {
    var i := FirstNotLess(keys, name);
    if i < |keys| {
      Total(keys[i].name, name);
    }
  }

  /** In a sorted tree, `search` finds every name the tree holds. */
  lemma {:induction false} SearchNodeComplete(n: BNode, x: Key, h: nat)
    requires Balanced(n, h) && Sorted(Inorder(n, h)) && x in Inorder(n, h)
    ensures SearchNode(n, x.name).Some?
    decreases h
  {
    var name := x.name;
    var i := FirstNotLess(n.keys, name);
    if !(i < |n.keys| && n.keys[i].name == name) {
      if n.leaf {
        LeafMiss(n, x, h, i);
      } else {
        ChildHolds(n, x, h, i);
        SearchNodeComplete(n.children[i], x, h - 1);
        assert SearchNode(n, name) == SearchNode(n.children[i], name);
      }
    }
  }

  /** In a sorted leaf, a key is found where the scan stops. */
  lemma LeafMiss(n: BNode, x: Key, h: nat, i: nat)
    requires Balanced(n, h) && Sorted(Inorder(n, h)) && n.leaf
    requires i == FirstNotLess(n.keys, x.name) && !(i < |n.keys| && n.keys[i].name == x.name)
    ensures x !in Inorder(n, h)
  {
    var name := x.name;
    ScanStops(n.keys, name);
    assert n.keys == n.keys[..i] + [] + n.keys[i..];
    OnlyInside(n.keys[..i], [], n.keys[i..], name);
  }

  /** A key of a sorted inner node that is not among its keys lies in the
      child the search descends into. */
  lemma ChildHolds(n: BNode, x: Key, h: nat, i: nat)
    requires Balanced(n, h) && Sorted(Inorder(n, h)) && x in Inorder(n, h) && !n.leaf
    requires i == FirstNotLess(n.keys, x.name) && !(i < |n.keys| && n.keys[i].name == x.name)
    ensures i < |n.children| && Balanced(n.children[i], h - 1)
    ensures Sorted(Inorder(n.children[i], h - 1)) && x in Inorder(n.children[i], h - 1)
  {
    var name := x.name;
    ScanStops(n.keys, name);
    var a, c, b := Before(n, h, i), Inorder(n.children[i], h - 1), After(n, h, i);
    assert Inorder(n, h) == a + c + b && (a != [] ==> Less(a[|a| - 1].name, name)) && (b != [] ==> Less(name, b[0].name)) by {
      Decompose(n, h, i);
    }
    OnlyInside(a, c, b, name);
    SortedMiddle(a, c, b);
  }

  /** `search(name)` succeeds exactly when some key has that name. */
  lemma SearchSpec(b: BTree, name: string, h: nat)
    requires Valid(b, h)
    ensures Search(b, name).Some? <==> exists x :: x in Contents(b, h) && x.name == name
    ensures Search(b, name).Some? ==> Search(b, name).value in Contents(b, h) && Search(b, name).value.name == name
  {
    if Search(b, name).Some? {
      SearchNodeSound(b.root, name, h);
    }
    if x :| x in Contents(b, h) && x.name == name {
      SearchNodeComplete(b.root, x, h);
    }
  }

  /** After `insert(data)`, `search(data["name"])` finds a key with that
      name, and every name found before is still found. */
  lemma SearchAfterInsert(b: BTree, k: Key, name: string, h: nat)
    requires Valid(b, h)
    ensures Search(Insert(b, k, h), k.name).Some?
    ensures Search(Insert(b, k, h), k.name).value.name == k.name
    ensures Search(Insert(b, k, h), name).Some? <==> (name == k.name || Search(b, name).Some?)
  {
    var r := Insert(b, k, h);
    var h' := NewHeight(b, h);
    var p := InsertValid(b, k, h);
    var s := Contents(b, h);
    var s' := Contents(r, h');
    assert forall x :: x in s' <==> x == k || x in s by {
      PlacedMembers(s, s', p, k);
    }
    assert Search(r, k.name).Some? by {
      SearchSpec(r, k.name, h');
    }
    assert Search(r, name).Some? <==> exists x :: x in s' && x.name == name by {
      SearchSpec(r, name, h');
    }
    assert Search(b, name).Some? <==> exists x :: x in s && x.name == name by {
      SearchSpec(b, name, h);
    }
  }

  /** The keys after placing `k` are the keys before and `k`. */
  lemma PlacedMembers(s: seq<Key>, s': seq<Key>, p: nat, k: Key)
    requires p <= |s| && s' == s[..p] + [k] + s[p..]
    ensures forall x :: x in s' <==> x == k || x in s
  {
    assert s == s[..p] + s[p..];
  }
}

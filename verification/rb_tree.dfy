/** The red-black tree (`RedBlackTree`), ordered by `value` and carrying a
    `key` per node.

    Nodes are immutable values.  The parent pointers the source walks in
    `_insert_fixup`, `_delete_fixup` and `_transplant` become a zipper: a
    focus subtree together with the path of frames from its parent up to
    the root (innermost first).  The sentinel `TNULL` is `Nil`.
 */
module RbTree {
  import opened Wrappers

  datatype Color = Red | Black

  datatype Tree = Nil | Node(color: Color, left: Tree, key: int, value: int, right: Tree)

  /** A `(key, value)` pair as stored in a node. */
  datatype Item = Item(key: int, value: int)

  datatype Dir = Left | Right

  /** A parent on the path to the focus: the focus is its `dir` child, and
      `sibling` is its other child. */
  datatype Frame = Frame(dir: Dir, color: Color, key: int, value: int, sibling: Tree)

  /** `TNULL` is black. */
  function ColorOf(t: Tree): Color
  {
    if t.Nil? then Black else t.color
  }

  /** The sentinel's children are the sentinel. */
  function LeftOf(t: Tree): Tree
  {
    if t.Nil? then Nil else t.left
  }

  function RightOf(t: Tree): Tree
  {
    if t.Nil? then Nil else t.right
  }

  function Blacken(t: Tree): (r: Tree)
    ensures ColorOf(r) == Black && Items(r) == Items(t)
  {
    if t.Nil? then Nil else t.(color := Black)
  }

  function Redden(t: Tree): (r: Tree)
    ensures Items(r) == Items(t)
  {
    if t.Nil? then Nil else t.(color := Red)
  }

  // ---------------------------------------------------------------------
  // Traversals
  // ---------------------------------------------------------------------

  /** The `(key, value)` pairs in order. */
  function Items(t: Tree): seq<Item>
  {
    if t.Nil? then [] else Items(t.left) + [Item(t.key, t.value)] + Items(t.right)
  }

  /** `inorder_traversal`: `(key, value, color)` triples in order. */
  function InorderTraversal(t: Tree): (r: seq<(int, int, Color)>)
    ensures |r| == |Items(t)|
    ensures forall i :: 0 <= i < |r| ==> r[i].0 == Items(t)[i].key && r[i].1 == Items(t)[i].value
  {
    if t.Nil? then []
    else InorderTraversal(t.left) + [(t.key, t.value, t.color)] + InorderTraversal(t.right)
  }

  /** `get_all_keys`: the keys, in value order. */
  function AllKeys(t: Tree): (r: seq<int>)
    ensures |r| == |Items(t)|
    ensures forall i :: 0 <= i < |r| ==> r[i] == Items(t)[i].key
  {
    if t.Nil? then [] else AllKeys(t.left) + [t.key] + AllKeys(t.right)
  }

  /** Values strictly ascending: the binary-search-tree order. */
  ghost predicate Ordered(s: seq<Item>)
  {
    forall i, j :: 0 <= i < j < |s| ==> s[i].value < s[j].value
  }

  ghost predicate HasValue(s: seq<Item>, v: int)
  {
    exists i :: 0 <= i < |s| && s[i].value == v
  }

  // ---------------------------------------------------------------------
  // Red-black properties
  // ---------------------------------------------------------------------

  /** No red node has a red child. */
  predicate RedOk(t: Tree)
  {
    t.Nil? ||
    ((t.color == Red ==> ColorOf(t.left) == Black && ColorOf(t.right) == Black) &&
     RedOk(t.left) && RedOk(t.right))
  }

  /** Black nodes on the leftmost path (the sentinel not counted). */
  function BlackHeight(t: Tree): nat
  {
    if t.Nil? then 0 else BlackHeight(t.left) + (if t.color == Black then 1 else 0)
  }

  /** Every path from a node down to the sentinel meets as many black nodes. */
  predicate BlackBalanced(t: Tree)
  {
    t.Nil? ||
    (BlackHeight(t.left) == BlackHeight(t.right) && BlackBalanced(t.left) && BlackBalanced(t.right))
  }

  predicate RB(t: Tree)
  {
    RedOk(t) && BlackBalanced(t)
  }

  /** A red-black tree as the source keeps it between operations. */
  ghost predicate Valid(t: Tree)
  {
    Ordered(Items(t)) && RB(t) && ColorOf(t) == Black
  }

  // ---------------------------------------------------------------------
  // The zipper
  // ---------------------------------------------------------------------

  /** Hang `t` under the parent described by `f`. */
  function Attach(f: Frame, t: Tree): Tree
  {
    if f.dir == Left then Node(f.color, t, f.key, f.value, f.sibling)
    else Node(f.color, f.sibling, f.key, f.value, t)
  }

  /** Rebuild the whole tree around the focus `t`. */
  function Plug(t: Tree, path: seq<Frame>): Tree
    decreases |path|
  {
    if path == [] then t else Plug(Attach(path[0], t), path[1..])
  }

  /** The items a frame contributes before its focus child. */
  function LeftPart(f: Frame): seq<Item>
  {
    if f.dir == Right then Items(f.sibling) + [Item(f.key, f.value)] else []
  }

  /** The items a frame contributes after its focus child. */
  function RightPart(f: Frame): seq<Item>
  {
    if f.dir == Left then [Item(f.key, f.value)] + Items(f.sibling) else []
  }

  /** All items before the focus. */
  function Pre(path: seq<Frame>): seq<Item>
    decreases |path|
  {
    if path == [] then [] else Pre(path[1..]) + LeftPart(path[0])
  }

  /** All items after the focus. */
  function Post(path: seq<Frame>): seq<Item>
    decreases |path|
  {
    if path == [] then [] else RightPart(path[0]) + Post(path[1..])
  }

  // ---------------------------------------------------------------------
  // Search
  // ---------------------------------------------------------------------

  /** The descent in `search`: stop at the sentinel or at the node holding
      `v`, and return it with the path to it. */
  function Locate(t: Tree, v: int): (r: (Tree, seq<Frame>))
    ensures r.0.Nil? || r.0.value == v
  {
    if t.Nil? || v == t.value then (t, [])
    else if v < t.value then
      var (z, p) := Locate(t.left, v);
      (z, p + [Frame(Left, t.color, t.key, t.value, t.right)])
    else
      var (z, p) := Locate(t.right, v);
      (z, p + [Frame(Right, t.color, t.key, t.value, t.left)])
  }

  /** `search`: the node's pair, or `None` for the sentinel. */
  function Search(t: Tree, v: int): (r: Option<Item>)
    ensures r.Some? ==> r.value.value == v
  {
    var z := Locate(t, v).0;
    if z.Nil? then None else Some(Item(z.key, z.value))
  }

  // ---------------------------------------------------------------------
  // Insert
  // ---------------------------------------------------------------------

  /** Cases 2 and 3 of `_insert_fixup`: the uncle is black, so one or two
      rotations around the grandparent finish the repair.  `z` is the red
      node, `p` its red parent and `g` its grandparent. */
  function Rotate(z: Tree, p: Frame, g: Frame): Tree
    requires z.Node?
  {
    if g.dir == Left then
      if p.dir == Left then
        Node(Black, z, p.key, p.value, Node(Red, p.sibling, g.key, g.value, g.sibling))
      else
        Node(Black, Node(Red, p.sibling, p.key, p.value, z.left), z.key, z.value,
             Node(Red, z.right, g.key, g.value, g.sibling))
    else
      if p.dir == Right then
        Node(Black, Node(Red, g.sibling, g.key, g.value, p.sibling), p.key, p.value, z)
      else
        Node(Black, Node(Red, g.sibling, g.key, g.value, z.left), z.key, z.value,
             Node(Red, z.right, p.key, p.value, p.sibling))
  }

  /** Case 1 of `_insert_fixup`: the uncle is red; parent and uncle turn
      black, the grandparent red, and the grandparent becomes the focus. */
  function Recolor(z: Tree, p: Frame, g: Frame): (r: Tree)
    ensures r.Node? && r.color == Red
  {
    Attach(g.(color := Red, sibling := Blacken(g.sibling)), Attach(p.(color := Black), z))
  }

  /** `_insert_fixup`, starting from the red node `z` at the end of `path`. */
  function InsertFixup(z: Tree, path: seq<Frame>): Tree
    requires z.Node?
    decreases |path|
  {
    if |path| < 2 || path[0].color == Black then Blacken(Plug(z, path))
    else if ColorOf(path[1].sibling) == Red then InsertFixup(Recolor(z, path[0], path[1]), path[2..])
    else Blacken(Plug(Rotate(z, path[0], path[1]), path[2..]))
  }

  /** `insert(key, value)`: an existing value only gets its key replaced;
      otherwise a red leaf is hung where the search stopped, and the tree
      repaired. */
  function Insert(t: Tree, k: int, v: int): Tree
  {
    var (z, path) := Locate(t, v);
    if z.Node? then Plug(z.(key := k), path)
    else if path == [] then Node(Black, Nil, k, v, Nil)
    else InsertFixup(Node(Red, Nil, k, v, Nil), path)
  }

  // ---------------------------------------------------------------------
  // Delete
  // ---------------------------------------------------------------------

  /** `_minimum` on a non-empty subtree, with the path to it. */
  function LocateMin(t: Tree): (r: (Tree, seq<Frame>))
    requires t.Node?
    ensures r.0.Node? && r.0.left.Nil?
  {
    if t.left.Nil? then (t, [])
    else
      var (y, p) := LocateMin(t.left);
      (y, p + [Frame(Left, t.color, t.key, t.value, t.right)])
  }

  /** The structural half of `delete`: remove node `z` (whose path is
      `zpath`) with `_transplant`, returning the node `x` that moved into
      the vacated place, its path, and the original colour of the node
      that was actually spliced out. */
  function Unlink(z: Tree, zpath: seq<Frame>): (r: (Tree, seq<Frame>, Color))
    requires z.Node?
  {
    if z.left.Nil? then (z.right, zpath, z.color)
    else if z.right.Nil? then (z.left, zpath, z.color)
    else
      var (y, mpath) := LocateMin(z.right);
      (y.right, mpath + [Frame(Right, z.color, y.key, y.value, z.left)] + zpath, y.color)
  }

  /** Case 3 of `_delete_fixup` when `x` is a left child: the sibling's red
      left child rotates up. */
  function LiftLeftNephew(w: Tree): (r: Tree)
    requires w.Node? && w.left.Node?
    ensures r.Node? && Items(r) == Items(w)
  {
    Node(Black, w.left.left, w.left.key, w.left.value, Node(Red, w.left.right, w.key, w.value, w.right))
  }

  /** The mirror image of `LiftLeftNephew`. */
  function LiftRightNephew(w: Tree): (r: Tree)
    requires w.Node? && w.right.Node?
    ensures r.Node? && Items(r) == Items(w)
  {
    Node(Black, Node(Red, w.left, w.key, w.value, w.right.left), w.right.key, w.right.value, w.right.right)
  }

  /** Case 1 of `_delete_fixup`: when the sibling is red it turns black,
      the parent turns red, and a rotation at the parent makes the
      sibling's inner child the new sibling.  The parent frame after it. */
  function SiblingRedParent(f: Frame): (r: Frame)
    ensures r.dir == f.dir && r.key == f.key && r.value == f.value
    ensures ColorOf(f.sibling) == Red ==> r.color == Red
  {
    if ColorOf(f.sibling) != Red then f
    else if f.dir == Left then f.(color := Red, sibling := f.sibling.left)
    else f.(color := Red, sibling := f.sibling.right)
  }

  /** The frames above the parent after case 1: the old sibling, now black,
      sits on top of the parent. */
  function SiblingRedAbove(f: Frame, rest: seq<Frame>): (r: seq<Frame>)
    ensures |r| == |rest| + (if ColorOf(f.sibling) == Red then 1 else 0)
  {
    if ColorOf(f.sibling) != Red then rest
    else if f.dir == Left then [Frame(Left, Black, f.sibling.key, f.sibling.value, f.sibling.right)] + rest
    else [Frame(Right, Black, f.sibling.key, f.sibling.value, f.sibling.left)] + rest
  }

  /** Case 4 of `_delete_fixup`, with `x` a left child under parent `f` and
      a sibling `w` whose far child is red: rotate at the parent. */
  function FarNephewLeft(x: Tree, f: Frame, w: Tree): Tree
    requires w.Node?
  {
    Node(f.color, Node(Black, x, f.key, f.value, w.left), w.key, w.value, Blacken(w.right))
  }

  /** The mirror image of `FarNephewLeft`. */
  function FarNephewRight(x: Tree, f: Frame, w: Tree): Tree
    requires w.Node?
  {
    Node(f.color, Blacken(w.left), w.key, w.value, Node(Black, w.right, f.key, f.value, x))
  }

  /** `_delete_fixup` for the focus `x`, which carries an extra black.
      "Is `x` its parent's left child" is read from the path. */
  function DeleteFixup(x: Tree, path: seq<Frame>): Tree
    decreases |path|, if ColorOf(x) == Black then 1 else 0
  {
    if path == [] || ColorOf(x) == Red then Plug(Blacken(x), path)
    else
      var f := SiblingRedParent(path[0]);
      var up := SiblingRedAbove(path[0], path[1..]);
      var w := f.sibling;
      if ColorOf(LeftOf(w)) == Black && ColorOf(RightOf(w)) == Black then
        // Case 2: the sibling turns red and the parent becomes the focus.
        DeleteFixup(Attach(f.(sibling := Redden(w)), x), up)
      else if f.dir == Left then
        // Case 3 turns the near red nephew into the far one; case 4 ends
        // the loop at the root.
        var w' := if ColorOf(RightOf(w)) == Black then LiftLeftNephew(w) else w;
        Blacken(Plug(FarNephewLeft(x, f, w'), up))
      else
        var w' := if ColorOf(LeftOf(w)) == Black then LiftRightNephew(w) else w;
        Blacken(Plug(FarNephewRight(x, f, w'), up))
  }

  /** `delete(value)`: nothing happens when the value is absent. */
  function Delete(t: Tree, v: int): Tree
  {
    var (z, zpath) := Locate(t, v);
    if z.Nil? then t
    else
      var (x, xpath, yc) := Unlink(z, zpath);
      if yc == Black then DeleteFixup(x, xpath) else Plug(x, xpath)
  }

  /** `get_height`: nodes on the longest downward path. */
  function Height(t: Tree): nat
  {
    if t.Nil? then 0 else 1 + (if Height(t.left) < Height(t.right) then Height(t.right) else Height(t.left))
  }

  // ---------------------------------------------------------------------
  // Reference definitions on ordered sequences of items
  // ---------------------------------------------------------------------

  ghost predicate Below(s: seq<Item>, v: int)
  {
    forall i :: 0 <= i < |s| ==> s[i].value < v
  }

  ghost predicate Above(s: seq<Item>, v: int)
  {
    forall i :: 0 <= i < |s| ==> v < s[i].value
  }

  /** Put `it` into an ascending sequence, replacing the item with the
      same value if there is one. */
  function InsertItem(s: seq<Item>, it: Item): seq<Item>
  {
    if s == [] then [it]
    else if it.value < s[0].value then [it] + s
    else if it.value == s[0].value then [it] + s[1..]
    else [s[0]] + InsertItem(s[1..], it)
  }

  /** Drop the items holding value `v`. */
  function RemoveValue(s: seq<Item>, v: int): seq<Item>
  {
    if s == [] then []
    else (if s[0].value == v then [] else [s[0]]) + RemoveValue(s[1..], v)
  }

  lemma {:induction false} InsertItemSpec(s: seq<Item>, it: Item)
    requires Ordered(s)
    ensures Ordered(InsertItem(s, it))
    ensures forall x :: x in InsertItem(s, it) <==> x == it || (x in s && x.value != it.value)
  {
    if s != [] && it.value > s[0].value {
      InsertItemSpec(s[1..], it);
      var r := InsertItem(s[1..], it);
      forall j | 0 <= j < |r|
        ensures s[0].value < r[j].value
      {
        assert r[j] in r;
      }
    }
  }

  lemma {:induction false} RemoveValueSpec(s: seq<Item>, v: int)
    requires Ordered(s)
    ensures Ordered(RemoveValue(s, v))
    ensures forall x :: x in RemoveValue(s, v) <==> x in s && x.value != v
  {
    if s != [] {
      RemoveValueSpec(s[1..], v);
      var r := RemoveValue(s[1..], v);
      forall j | 0 <= j < |r|
        ensures s[0].value < r[j].value
      {
        assert r[j] in r;
      }
    }
  }

  lemma {:induction false} InsertItemSkip(a: seq<Item>, b: seq<Item>, it: Item)
    requires Below(a, it.value)
    ensures InsertItem(a + b, it) == a + InsertItem(b, it)
    decreases |a|
  {
    if a == [] {
      assert a + b == b;
    } else {
      assert (a + b)[0] == a[0] && (a + b)[1..] == a[1..] + b;
      InsertItemSkip(a[1..], b, it);
      calc {
        InsertItem(a + b, it);
        [a[0]] + InsertItem(a[1..] + b, it);
        [a[0]] + (a[1..] + InsertItem(b, it));
        { assert a == [a[0]] + a[1..]; }
        a + InsertItem(b, it);
      }
    }
  }

  lemma {:induction false} RemoveAbsent(s: seq<Item>, v: int)
    requires !HasValue(s, v)
    ensures RemoveValue(s, v) == s
    decreases |s|
  {
    if s != [] {
      assert forall i :: 0 <= i < |s[1..]| ==> s[1..][i] == s[i + 1];
      RemoveAbsent(s[1..], v);
    }
  }

  lemma {:induction false} RemoveConcat(a: seq<Item>, b: seq<Item>, v: int)
    ensures RemoveValue(a + b, v) == RemoveValue(a, v) + RemoveValue(b, v)
    decreases |a|
  {
    if a == [] {
      assert a + b == b;
    } else {
      assert (a + b)[0] == a[0] && (a + b)[1..] == a[1..] + b;
      RemoveConcat(a[1..], b, v);
      var h := if a[0].value == v then [] else [a[0]];
      calc {
        RemoveValue(a + b, v);
        h + RemoveValue(a[1..] + b, v);
        h + (RemoveValue(a[1..], v) + RemoveValue(b, v));
        (h + RemoveValue(a[1..], v)) + RemoveValue(b, v);
      }
    }
  }

  lemma OrderedAround(a: seq<Item>, m: Item, b: seq<Item>)
    requires Ordered(a + [m] + b)
    ensures Below(a, m.value) && Above(b, m.value)
    ensures Ordered(a) && Ordered(b)
  {
    var s := a + [m] + b;
    assert forall i :: 0 <= i < |a| ==> s[i] == a[i];
    assert forall i :: 0 <= i < |b| ==> s[|a| + 1 + i] == b[i];
    assert s[|a|] == m;
  }

  /** In an ascending sequence, removing the value of one item removes
      exactly that item. */
  lemma RemoveOne(a: seq<Item>, m: Item, b: seq<Item>)
    requires Ordered(a + [m] + b)
    ensures RemoveValue(a + [m] + b, m.value) == a + b
  {
    OrderedAround(a, m, b);
    RemoveConcat(a + [m], b, m.value);
    RemoveConcat(a, [m], m.value);
    RemoveAbsent(a, m.value);
    RemoveAbsent(b, m.value);
  }

  // ---------------------------------------------------------------------
  // The zipper rebuilds the tree it was taken from
  // ---------------------------------------------------------------------

  lemma {:induction false} PlugItems(t: Tree, path: seq<Frame>)
    ensures Items(Plug(t, path)) == Pre(path) + Items(t) + Post(path)
    decreases |path|
  {
    if path != [] {
      var f, rest := path[0], path[1..];
      PlugItems(Attach(f, t), rest);
      assert Items(Attach(f, t)) == LeftPart(f) + Items(t) + RightPart(f);
      Regroup4(Pre(rest), LeftPart(f), Items(t), RightPart(f), Post(rest));
    }
  }

  lemma Regroup4(p: seq<Item>, l: seq<Item>, m: seq<Item>, r: seq<Item>, q: seq<Item>)
    ensures p + (l + m + r) + q == (p + l) + m + (r + q)
  {
  }

  lemma {:induction false} PlugAppend(t: Tree, p: seq<Frame>, f: Frame)
    ensures Plug(t, p + [f]) == Attach(f, Plug(t, p))
    decreases |p|
  {
    if p != [] {
      assert (p + [f])[0] == p[0] && (p + [f])[1..] == p[1..] + [f];
      PlugAppend(Attach(p[0], t), p[1..], f);
    }
  }

  lemma {:induction false} PreAppend(p: seq<Frame>, f: Frame)
    ensures Pre(p + [f]) == LeftPart(f) + Pre(p)
    decreases |p|
  {
    if p != [] {
      assert (p + [f])[0] == p[0] && (p + [f])[1..] == p[1..] + [f];
      PreAppend(p[1..], f);
    }
  }

  lemma {:induction false} PostAppend(p: seq<Frame>, f: Frame)
    ensures Post(p + [f]) == Post(p) + RightPart(f)
    decreases |p|
  {
    if p != [] {
      assert (p + [f])[0] == p[0] && (p + [f])[1..] == p[1..] + [f];
      PostAppend(p[1..], f);
    }
  }

  lemma {:induction false} PlugSplit(t: Tree, p: seq<Frame>, q: seq<Frame>)
    ensures Plug(t, p + q) == Plug(Plug(t, p), q)
    decreases |p|
  {
    if p == [] {
      assert p + q == q;
    } else {
      assert (p + q)[1..] == p[1..] + q;
      PlugSplit(Attach(p[0], t), p[1..], q);
    }
  }

  /** Replacing the focus by a subtree with the same items leaves the whole
      tree's items unchanged. */
  lemma PlugCongruent(a: Tree, b: Tree, path: seq<Frame>)
    requires Items(a) == Items(b)
    ensures Items(Plug(a, path)) == Items(Plug(b, path))
  {
    PlugItems(a, path);
    PlugItems(b, path);
  }

  /** `Locate` returns a zipper of the tree it searched, and in an ordered
      tree everything before the focus is smaller than `v` and everything
      after it larger. */
  lemma {:induction false} LocateSpec(t: Tree, v: int)
    ensures Plug(Locate(t, v).0, Locate(t, v).1) == t
    ensures Ordered(Items(t)) ==> Below(Pre(Locate(t, v).1), v) && Above(Post(Locate(t, v).1), v)
  {
    if t.Node? && v != t.value {
      var m := Item(t.key, t.value);
      if v < t.value {
        var (z, p) := Locate(t.left, v);
        var f := Frame(Left, t.color, t.key, t.value, t.right);
        LocateSpec(t.left, v);
        PlugAppend(z, p, f);
        PreAppend(p, f);
        PostAppend(p, f);
        if Ordered(Items(t)) {
          OrderedAround(Items(t.left), m, Items(t.right));
        }
      } else {
        var (z, p) := Locate(t.right, v);
        var f := Frame(Right, t.color, t.key, t.value, t.left);
        LocateSpec(t.right, v);
        PlugAppend(z, p, f);
        PreAppend(p, f);
        PostAppend(p, f);
        if Ordered(Items(t)) {
          OrderedAround(Items(t.left), m, Items(t.right));
        }
      }
    }
  }

  /** `search` finds a value exactly when the tree holds it, and then
      returns the pair stored with it. */
  lemma SearchSpec(t: Tree, v: int)
    requires Ordered(Items(t))
    ensures Search(t, v).Some? <==> HasValue(Items(t), v)
    ensures Search(t, v).Some? ==> Search(t, v).value in Items(t)
  {
    var (z, p) := Locate(t, v);
    LocateSpec(t, v);
    PlugItems(z, p);
    if z.Node? {
      var i := |Pre(p)| + |Items(z.left)|;
      assert Items(t)[i] == Item(z.key, z.value);
    } else {
      forall i | 0 <= i < |Items(t)|
        ensures Items(t)[i].value != v
      {
        if i < |Pre(p)| {
          assert Items(t)[i] == Pre(p)[i];
        } else {
          assert Items(t)[i] == Post(p)[i - |Pre(p)|];
        }
      }
    }
  }

  // ---------------------------------------------------------------------
  // Insert keeps the items in order
  // ---------------------------------------------------------------------

  /** Five in-order pieces regroup freely. */
  lemma Regroup5(a: seq<Item>, x: Item, b: seq<Item>, y: Item, c: seq<Item>)
    ensures a + [x] + (b + [y] + c) == (a + [x] + b) + [y] + c
  {
  }

  /** A focus item between its surroundings regroups freely. */
  lemma Regroup(p: seq<Item>, l: seq<Item>, m: Item, r: seq<Item>, q: seq<Item>)
    ensures p + (l + [m] + r) + q == (p + l) + ([m] + (r + q))
    ensures (p + l) + ([m] + (r + q)) == (p + l) + [m] + (r + q)
  {
  }

  lemma RotateItems(z: Tree, p: Frame, g: Frame)
    requires z.Node?
    ensures Items(Rotate(z, p, g)) == Items(Attach(g, Attach(p, z)))
  {
    var zi, pi, gi := Item(z.key, z.value), Item(p.key, p.value), Item(g.key, g.value);
    var a, b, c, d := Items(z.left), Items(z.right), Items(p.sibling), Items(g.sibling);
    if g.dir == Left && p.dir == Left {
      Regroup5(Items(z), pi, c, gi, d);
    } else if g.dir == Left {
      calc {
        Items(Rotate(z, p, g));
        (c + [pi] + a) + [zi] + (b + [gi] + d);
        { Regroup5(c + [pi] + a, zi, b, gi, d); }
        ((c + [pi] + a) + [zi] + b) + [gi] + d;
        { Regroup5(c, pi, a, zi, b); }
        (c + [pi] + (a + [zi] + b)) + [gi] + d;
      }
    } else if p.dir == Right {
      Regroup5(d, gi, c, pi, Items(z));
    } else {
      calc {
        Items(Rotate(z, p, g));
        (d + [gi] + a) + [zi] + (b + [pi] + c);
        { Regroup5(d + [gi] + a, zi, b, pi, c); }
        ((d + [gi] + a) + [zi] + b) + [pi] + c;
        { Regroup5(d, gi, a, zi, b); }
        (d + [gi] + (a + [zi] + b)) + [pi] + c;
        { Regroup5(d, gi, a + [zi] + b, pi, c); }
        d + [gi] + ((a + [zi] + b) + [pi] + c);
      }
    }
  }

  lemma RecolorItems(z: Tree, p: Frame, g: Frame)
    ensures Items(Recolor(z, p, g)) == Items(Attach(g, Attach(p, z)))
  {
  }

  /** The insert repair only recolours and rotates: the in-order items of
      the tree do not change. */
  lemma {:induction false} InsertFixupItems(z: Tree, path: seq<Frame>)
    requires z.Node?
    ensures Items(InsertFixup(z, path)) == Items(Plug(z, path))
    decreases |path|
  {
    if |path| >= 2 && path[0].color == Red {
      var p, g, rest := path[0], path[1], path[2..];
      assert Plug(z, path) == Plug(Attach(g, Attach(p, z)), rest) by {
        assert path[1..][0] == g && path[1..][1..] == rest;
      }
      if ColorOf(g.sibling) == Red {
        InsertFixupItems(Recolor(z, p, g), rest);
        RecolorItems(z, p, g);
        PlugCongruent(Recolor(z, p, g), Attach(g, Attach(p, z)), rest);
      } else {
        RotateItems(z, p, g);
        PlugCongruent(Rotate(z, p, g), Attach(g, Attach(p, z)), rest);
      }
    }
  }

  lemma InsertExistingItems(t: Tree, k: int, v: int)
    requires Ordered(Items(t)) && Locate(t, v).0.Node?
    ensures Items(Insert(t, k, v)) == InsertItem(Items(t), Item(k, v))
  {
    var (z, path) := Locate(t, v);
    var it := Item(k, v);
    LocateSpec(t, v);
    assert Insert(t, k, v) == Plug(z.(key := k), path);
    PlugItems(z, path);
    PlugItems(z.(key := k), path);
    var m := Item(z.key, z.value);
    Regroup(Pre(path), Items(z.left), m, Items(z.right), Post(path));
    Regroup(Pre(path), Items(z.left), it, Items(z.right), Post(path));
    var a, b := Pre(path) + Items(z.left), Items(z.right) + Post(path);
    OrderedAround(a, m, b);
    InsertItemSkip(a, [m] + b, it);
  }

  /** An item whose value falls between two runs goes between them. */
  lemma InsertItemBetween(a: seq<Item>, b: seq<Item>, it: Item)
    requires Below(a, it.value) && Above(b, it.value)
    ensures InsertItem(a + b, it) == a + ([it] + b)
  {
    InsertItemSkip(a, b, it);
    if b != [] {
      assert it.value < b[0].value;
    }
  }

  lemma InsertLeafItems(path: seq<Frame>, k: int, v: int)
    ensures Items(InsertFixup(Node(Red, Nil, k, v, Nil), path)) == Pre(path) + ([Item(k, v)] + Post(path))
  {
    InsertFixupItems(Node(Red, Nil, k, v, Nil), path);
    PlugItems(Node(Red, Nil, k, v, Nil), path);
  }

  lemma InsertNewItems(t: Tree, k: int, v: int)
    requires Ordered(Items(t)) && Locate(t, v).0.Nil? && Locate(t, v).1 != []
    ensures Items(Insert(t, k, v)) == InsertItem(Items(t), Item(k, v))
  {
    var path := Locate(t, v).1;
    PathItems(t, v);
    NewLeafItems(t, k, v);
    InsertItemBetween(Pre(path), Post(path), Item(k, v));
  }

  /** When the value is not in an ordered tree, the items before its
      search path are all below it and those after all above it. */
  lemma PathItems(t: Tree, v: int)
    requires Ordered(Items(t)) && Locate(t, v).0.Nil?
    ensures Items(t) == Pre(Locate(t, v).1) + Post(Locate(t, v).1)
    ensures Below(Pre(Locate(t, v).1), v) && Above(Post(Locate(t, v).1), v)
  {
    LocateSpec(t, v);
    PlugItems(Nil, Locate(t, v).1);
  }

  /** A value not in the tree goes in as a new leaf at the end of its
      search path, between the items before and after that path. */
  lemma NewLeafItems(t: Tree, k: int, v: int)
    requires Locate(t, v).0.Nil? && Locate(t, v).1 != []
    ensures Items(Insert(t, k, v)) == Pre(Locate(t, v).1) + ([Item(k, v)] + Post(Locate(t, v).1))
  {
    var path := Locate(t, v).1;
    assert Insert(t, k, v) == InsertFixup(Node(Red, Nil, k, v, Nil), path);
    InsertLeafItems(path, k, v);
  }

  /** `insert(k, v)` puts `(k, v)` into the ascending item sequence,
      replacing the key of an existing item with value `v`. */
  lemma InsertItems(t: Tree, k: int, v: int)
    requires Ordered(Items(t))
    ensures Items(Insert(t, k, v)) == InsertItem(Items(t), Item(k, v))
  {
    var (z, path) := Locate(t, v);
    if z.Node? {
      InsertExistingItems(t, k, v);
    } else if path != [] {
      InsertNewItems(t, k, v);
    } else {
      LocateSpec(t, v);
    }
  }

  /** The binary-search-tree order survives `insert`. */
  lemma InsertOrdered(t: Tree, k: int, v: int)
    requires Ordered(Items(t))
    ensures Ordered(Items(Insert(t, k, v)))
    ensures forall x :: x in Items(Insert(t, k, v)) <==> x == Item(k, v) || (x in Items(t) && x.value != v)
  {
    InsertItems(t, k, v);
    InsertItemSpec(Items(t), Item(k, v));
  }

  // ---------------------------------------------------------------------
  // Delete removes exactly the item with the value
  // ---------------------------------------------------------------------

  /** `_minimum` walks left only: the minimum's item comes first, and
      putting its right child in its place leaves the rest. */
  lemma {:induction false} MinItems(t: Tree)
    requires t.Node?
    ensures Items(t) == [Item(LocateMin(t).0.key, LocateMin(t).0.value)] + Items(Plug(LocateMin(t).0.right, LocateMin(t).1))
  {
    if t.left.Node? {
      var (y, p) := LocateMin(t.left);
      var f := Frame(Left, t.color, t.key, t.value, t.right);
      MinItems(t.left);
      PlugAppend(y.right, p, f);
      var yi, rest := Item(y.key, y.value), Items(Plug(y.right, p));
      calc {
        Items(t);
        ([yi] + rest) + [Item(t.key, t.value)] + Items(t.right);
        [yi] + (rest + [Item(t.key, t.value)] + Items(t.right));
        [yi] + Items(Plug(y.right, p + [f]));
      }
    }
  }

  /** The successor `y` of `z` takes `z`'s place, and `y`'s right child
      takes `y`'s. */
  lemma SuccessorSubtreeItems(z: Tree)
    requires z.Node? && z.right.Node?
    ensures var (y, mpath) := LocateMin(z.right);
      Items(Attach(Frame(Right, z.color, y.key, y.value, z.left), Plug(y.right, mpath))) == Items(z.left) + Items(z.right)
  {
    MinItems(z.right);
  }

  /** Splicing out the successor when `z` has two children. */
  lemma UnlinkSuccessorItems(z: Tree, zpath: seq<Frame>)
    requires z.Node? && z.left.Node? && z.right.Node?
    ensures Items(Plug(Unlink(z, zpath).0, Unlink(z, zpath).1)) == Pre(zpath) + Items(z.left) + Items(z.right) + Post(zpath)
  {
    var (y, mpath) := LocateMin(z.right);
    var f := Frame(Right, z.color, y.key, y.value, z.left);
    var x := y.right;
    var s := Attach(f, Plug(x, mpath));
    assert Plug(Unlink(z, zpath).0, Unlink(z, zpath).1) == Plug(s, zpath) by {
      PlugSplit(x, mpath + [f], zpath);
      PlugAppend(x, mpath, f);
    }
    assert Items(s) == Items(z.left) + Items(z.right) by {
      SuccessorSubtreeItems(z);
    }
    PlugItems(s, zpath);
  }

  /** The `_transplant` steps of `delete` take out `z`'s own item and keep
      every other item in place. */
  lemma UnlinkItems(z: Tree, zpath: seq<Frame>)
    requires z.Node?
    ensures Items(Plug(Unlink(z, zpath).0, Unlink(z, zpath).1)) == Pre(zpath) + Items(z.left) + Items(z.right) + Post(zpath)
  {
    if z.left.Nil? {
      PlugItems(z.right, zpath);
    } else if z.right.Nil? {
      PlugItems(z.left, zpath);
    } else {
      UnlinkSuccessorItems(z, zpath);
    }
  }

  /** Case 1 of the delete repair keeps the items. */
  lemma SiblingRedItems(x: Tree, f: Frame, rest: seq<Frame>)
    ensures Items(Plug(Attach(SiblingRedParent(f), x), SiblingRedAbove(f, rest))) == Items(Plug(Attach(f, x), rest))
  {
    if ColorOf(f.sibling) == Red {
      var f', up := SiblingRedParent(f), SiblingRedAbove(f, rest);
      assert Plug(Attach(f', x), up) == Plug(Attach(up[0], Attach(f', x)), rest) by {
        assert up[1..] == rest;
      }
      var w, xi, fi := f.sibling, Items(x), Item(f.key, f.value);
      var wi := Item(w.key, w.value);
      if f.dir == Left {
        Regroup5(xi + [fi] + Items(w.left), wi, Items(w.right), fi, []);
        assert Items(Attach(up[0], Attach(f', x))) == (xi + [fi] + Items(w.left)) + [wi] + Items(w.right);
        assert Items(Attach(f, x)) == xi + [fi] + (Items(w.left) + [wi] + Items(w.right));
      } else {
        assert Items(Attach(up[0], Attach(f', x))) == Items(w.left) + [wi] + (Items(w.right) + [fi] + xi);
        assert Items(Attach(f, x)) == (Items(w.left) + [wi] + Items(w.right)) + [fi] + xi;
      }
      PlugCongruent(Attach(up[0], Attach(f', x)), Attach(f, x), rest);
    }
  }

  /** Case 4 of the delete repair keeps the items. */
  lemma FarNephewItems(x: Tree, f: Frame, w: Tree)
    requires w.Node? && Items(w) == Items(f.sibling)
    ensures f.dir == Left ==> Items(FarNephewLeft(x, f, w)) == Items(Attach(f, x))
    ensures f.dir == Right ==> Items(FarNephewRight(x, f, w)) == Items(Attach(f, x))
  {
    var xi, fi, wi := Items(x), Item(f.key, f.value), Item(w.key, w.value);
    if f.dir == Left {
      Regroup5(xi, fi, Items(w.left), wi, Items(w.right));
    } else {
      Regroup5(Items(w.left), wi, Items(w.right), fi, xi);
    }
  }

  /** The delete repair only recolours and rotates. */
  lemma {:induction false} DeleteFixupItems(x: Tree, path: seq<Frame>)
    ensures Items(DeleteFixup(x, path)) == Items(Plug(x, path))
    decreases |path|, if ColorOf(x) == Black then 1 else 0
  {
    if path == [] || ColorOf(x) == Red {
      PlugCongruent(Blacken(x), x, path);
    } else {
      var f := SiblingRedParent(path[0]);
      var up := SiblingRedAbove(path[0], path[1..]);
      var w := f.sibling;
      SiblingRedItems(x, path[0], path[1..]);
      assert Plug(x, path) == Plug(Attach(path[0], x), path[1..]);
      if ColorOf(LeftOf(w)) == Black && ColorOf(RightOf(w)) == Black {
        var x' := Attach(f.(sibling := Redden(w)), x);
        DeleteFixupItems(x', up);
        PlugCongruent(x', Attach(f, x), up);
      } else if f.dir == Left {
        var w' := if ColorOf(RightOf(w)) == Black then LiftLeftNephew(w) else w;
        FarNephewItems(x, f, w');
        PlugCongruent(FarNephewLeft(x, f, w'), Attach(f, x), up);
      } else {
        var w' := if ColorOf(LeftOf(w)) == Black then LiftRightNephew(w) else w;
        FarNephewItems(x, f, w');
        PlugCongruent(FarNephewRight(x, f, w'), Attach(f, x), up);
      }
    }
  }

  /** `delete(v)` removes the item with value `v` and keeps every other
      item, in order. */
  lemma DeleteFoundItems(t: Tree, v: int)
    requires Ordered(Items(t)) && Locate(t, v).0.Node?
    ensures Items(Delete(t, v)) == RemoveValue(Items(t), v)
  {
    var (z, zpath) := Locate(t, v);
    var m := Item(z.key, z.value);
    var a, b := Pre(zpath) + Items(z.left), Items(z.right) + Post(zpath);
    LocateSpec(t, v);
    assert Items(Delete(t, v)) == a + b by {
      var (x, xpath, yc) := Unlink(z, zpath);
      assert Delete(t, v) == if yc == Black then DeleteFixup(x, xpath) else Plug(x, xpath);
      UnlinkItems(z, zpath);
      DeleteFixupItems(x, xpath);
    }
    assert Items(t) == a + [m] + b by {
      PlugItems(z, zpath);
      Regroup(Pre(zpath), Items(z.left), m, Items(z.right), Post(zpath));
    }
    RemoveOne(a, m, b);
  }

  /** `delete(v)` removes the item with value `v` and keeps every other
      item, in order. */
  lemma DeleteItems(t: Tree, v: int)
    requires Ordered(Items(t))
    ensures Items(Delete(t, v)) == RemoveValue(Items(t), v)
  {
    if Locate(t, v).0.Node? {
      DeleteFoundItems(t, v);
    } else {
      SearchSpec(t, v);
      RemoveAbsent(Items(t), v);
    }
  }

  // ---------------------------------------------------------------------
  // Search after insert and delete
  // ---------------------------------------------------------------------

  /** In an ordered tree `search(v)` returns the one item with value `v`. */
  lemma SearchIsItem(t: Tree, v: int, it: Item)
    requires Ordered(Items(t))
    ensures Search(t, v) == Some(it) <==> it in Items(t) && it.value == v
  {
    SearchSpec(t, v);
    if it in Items(t) && it.value == v {
      var s := Items(t);
      var i :| 0 <= i < |s| && s[i] == it;
      assert HasValue(s, v);
      var found := Search(t, v).value;
      var j :| 0 <= j < |s| && s[j] == found;
      assert !(i < j) && !(j < i);
    }
  }

  /** After `insert(k, v)`, `search(v)` finds `(k, v)` and every other
      search answers as before. */
  lemma SearchAfterInsert(t: Tree, k: int, v: int, u: int)
    requires Ordered(Items(t))
    ensures Search(Insert(t, k, v), v) == Some(Item(k, v))
    ensures u != v ==> Search(Insert(t, k, v), u) == Search(t, u)
  {
    var t' := Insert(t, k, v);
    InsertOrdered(t, k, v);
    SearchIsItem(t', v, Item(k, v));
    if u != v {
      SearchSpec(t, u);
      SearchSpec(t', u);
      if Search(t, u).Some? {
        SearchIsItem(t', u, Search(t, u).value);
      } else if Search(t', u).Some? {
        SearchIsItem(t, u, Search(t', u).value);
      }
    }
  }

  /** The binary-search-tree order survives `delete`. */
  lemma DeleteOrdered(t: Tree, v: int)
    requires Ordered(Items(t))
    ensures Ordered(Items(Delete(t, v)))
    ensures forall x :: x in Items(Delete(t, v)) <==> x in Items(t) && x.value != v
  {
    DeleteItems(t, v);
    RemoveValueSpec(Items(t), v);
  }

  /** Deleting an absent value leaves the tree exactly as it was. */
  lemma DeleteAbsent(t: Tree, v: int)
    requires Ordered(Items(t)) && !HasValue(Items(t), v)
    ensures Delete(t, v) == t
  {
    SearchSpec(t, v);
  }

  /** After `delete(v)`, `search(v)` finds nothing and every other search
      answers as before. */
  lemma SearchAfterDelete(t: Tree, v: int, u: int)
    requires Ordered(Items(t))
    ensures Search(Delete(t, v), v).None?
    ensures u != v ==> Search(Delete(t, v), u) == Search(t, u)
  {
    var t' := Delete(t, v);
    DeleteOrdered(t, v);
    SearchSpec(t', v);
    if Search(t', v).Some? {
      assert Search(t', v).value in Items(t');
    }
    if u != v {
      SearchSpec(t, u);
      SearchSpec(t', u);
      if Search(t, u).Some? {
        SearchIsItem(t', u, Search(t, u).value);
      } else if Search(t', u).Some? {
        SearchIsItem(t, u, Search(t', u).value);
      }
    }
  }

  // ---------------------------------------------------------------------
  // Insert keeps the red-black properties
  // ---------------------------------------------------------------------

  /** The frames above a focus of colour `c` and black height `bh` fit it:
      each sibling is a red-black tree of the right black height, and no
      red frame has a red child, except that with `allowRed` the innermost
      frame may be red above a red focus. */
  ghost predicate PathOk(path: seq<Frame>, c: Color, bh: nat, allowRed: bool)
    decreases |path|
  {
    path == [] ||
    (RB(path[0].sibling) && BlackHeight(path[0].sibling) == bh &&
     (path[0].color == Red ==> ColorOf(path[0].sibling) == Black && (allowRed || c == Black)) &&
     PathOk(path[1..], path[0].color, bh + (if path[0].color == Black then 1 else 0), false))
  }

  /** The focus of `_insert_fixup`: a red node with black children. */
  ghost predicate RedFocus(z: Tree, bh: nat)
  {
    z.Node? && z.color == Red && ColorOf(z.left) == Black && ColorOf(z.right) == Black &&
    RB(z) && BlackHeight(z) == bh
  }

  lemma {:induction false} PlugRB(t: Tree, path: seq<Frame>, bh: nat)
    requires RB(t) && BlackHeight(t) == bh && PathOk(path, ColorOf(t), bh, false)
    ensures RB(Plug(t, path))
    decreases |path|
  {
    if path != [] {
      var f := path[0];
      PlugRB(Attach(f, t), path[1..], bh + (if f.color == Black then 1 else 0));
    }
  }

  lemma {:induction false} PlugRBInv(t: Tree, path: seq<Frame>)
    requires RB(Plug(t, path))
    ensures RB(t) && PathOk(path, ColorOf(t), BlackHeight(t), false)
    decreases |path|
  {
    if path != [] {
      PlugRBInv(Attach(path[0], t), path[1..]);
    }
  }

  lemma PathOkRelax(path: seq<Frame>, bh: nat)
    requires PathOk(path, Black, bh, false)
    ensures PathOk(path, Red, bh, true)
  {
  }

  lemma BlackenRB(t: Tree)
    requires RB(t)
    ensures RB(Blacken(t))
  {
  }

  lemma RecolorRB(z: Tree, path: seq<Frame>, bh: nat)
    requires RedFocus(z, bh) && PathOk(path, Red, bh, true)
    requires |path| >= 2 && path[0].color == Red && ColorOf(path[1].sibling) == Red
    ensures RedFocus(Recolor(z, path[0], path[1]), bh + 1)
    ensures PathOk(path[2..], Red, bh + 1, true)
  {
    assert path[1..][0] == path[1] && path[1..][1..] == path[2..];
    PathOkRelax(path[2..], bh + 1);
  }

  lemma RotateRB(z: Tree, path: seq<Frame>, bh: nat)
    requires RedFocus(z, bh) && PathOk(path, Red, bh, true)
    requires |path| >= 2 && path[0].color == Red && ColorOf(path[1].sibling) == Black
    ensures RB(Rotate(z, path[0], path[1])) && ColorOf(Rotate(z, path[0], path[1])) == Black
    ensures BlackHeight(Rotate(z, path[0], path[1])) == bh + 1
    ensures PathOk(path[2..], Black, bh + 1, false)
  {
    var p, g := path[0], path[1];
    assert path[1..][0] == g && path[1..][1..] == path[2..];
    assert RB(p.sibling) && BlackHeight(p.sibling) == bh && ColorOf(p.sibling) == Black;
    assert RB(g.sibling) && BlackHeight(g.sibling) == bh && g.color == Black;
    var r := Rotate(z, p, g);
    if g.dir == Left && p.dir == Left {
      assert RB(r.right) && BlackHeight(r.right) == bh;
    } else if g.dir == Left {
      assert RB(r.left) && BlackHeight(r.left) == bh;
      assert RB(r.right) && BlackHeight(r.right) == bh;
    } else if p.dir == Right {
      assert RB(r.left) && BlackHeight(r.left) == bh;
    } else {
      assert RB(r.left) && BlackHeight(r.left) == bh;
      assert RB(r.right) && BlackHeight(r.right) == bh;
    }
  }

  /** `_insert_fixup` turns a tree whose only fault is a red node under a
      red parent into a red-black tree with a black root. */
  lemma {:induction false} InsertFixupRB(z: Tree, path: seq<Frame>, bh: nat)
    requires RedFocus(z, bh) && PathOk(path, Red, bh, true)
    ensures RB(InsertFixup(z, path)) && ColorOf(InsertFixup(z, path)) == Black
    decreases |path|
  {
    if path == [] {
      BlackenRB(z);
    } else if path[0].color == Black {
      PlugRB(z, path, bh);
      BlackenRB(Plug(z, path));
    } else if |path| == 1 {
      // A red root above a red node: blackening the root mends both.
      var r := Blacken(Plug(z, path));
      assert Plug(z, path) == Plug(Attach(path[0], z), path[1..]);
      assert path[1..] == [];
      assert r == Blacken(Attach(path[0], z));
      assert RB(path[0].sibling) && BlackHeight(path[0].sibling) == bh;
      assert RB(r.left) && RB(r.right) && BlackHeight(r.left) == BlackHeight(r.right);
    } else if ColorOf(path[1].sibling) == Red {
      RecolorRB(z, path, bh);
      InsertFixupRB(Recolor(z, path[0], path[1]), path[2..], bh + 1);
    } else {
      RotateRB(z, path, bh);
      PlugRB(Rotate(z, path[0], path[1]), path[2..], bh + 1);
      BlackenRB(Plug(Rotate(z, path[0], path[1]), path[2..]));
    }
  }

  /** Same colours and values everywhere; keys may differ. */
  predicate SameShape(a: Tree, b: Tree)
  {
    (a.Nil? && b.Nil?) ||
    (a.Node? && b.Node? && a.color == b.color && a.value == b.value &&
     SameShape(a.left, b.left) && SameShape(a.right, b.right))
  }

  lemma {:induction false} SameShapeRefl(t: Tree)
    ensures SameShape(t, t)
  {
    if t.Node? {
      SameShapeRefl(t.left);
      SameShapeRefl(t.right);
    }
  }

  lemma {:induction false} SameShapePlug(a: Tree, b: Tree, path: seq<Frame>)
    requires SameShape(a, b)
    ensures SameShape(Plug(a, path), Plug(b, path))
    decreases |path|
  {
    if path != [] {
      SameShapeRefl(path[0].sibling);
      SameShapePlug(Attach(path[0], a), Attach(path[0], b), path[1..]);
    }
  }

  lemma {:induction false} SameShapeRB(a: Tree, b: Tree)
    requires SameShape(a, b)
    ensures RB(a) == RB(b) && ColorOf(a) == ColorOf(b) && BlackHeight(a) == BlackHeight(b)
    ensures |Items(a)| == |Items(b)|
  {
    if a.Node? {
      SameShapeRB(a.left, b.left);
      SameShapeRB(a.right, b.right);
    }
  }

  /** `insert` on a value already present only replaces that node's key:
      colours, values and shape stay as they were. */
  lemma InsertExistingShape(t: Tree, k: int, v: int)
    requires Search(t, v).Some?
    ensures SameShape(Insert(t, k, v), t)
    ensures |Items(Insert(t, k, v))| == |Items(t)|
  {
    var (z, path) := Locate(t, v);
    LocateSpec(t, v);
    SameShapeRefl(z.left);
    SameShapeRefl(z.right);
    SameShapePlug(z.(key := k), z, path);
    SameShapeRB(Insert(t, k, v), t);
  }

  /** `insert` keeps a red-black tree red-black, with a black root. */
  lemma InsertRB(t: Tree, k: int, v: int)
    requires RB(t) && ColorOf(t) == Black
    ensures RB(Insert(t, k, v)) && ColorOf(Insert(t, k, v)) == Black
  {
    var (z, path) := Locate(t, v);
    LocateSpec(t, v);
    if z.Node? {
      InsertExistingShape(t, k, v);
      SameShapeRB(Insert(t, k, v), t);
    } else if path != [] {
      PlugRBInv(z, path);
      PathOkRelax(path, 0);
      InsertFixupRB(Node(Red, Nil, k, v, Nil), path, 0);
    }
  }

  /** Every `insert` keeps the tree a valid red-black search tree. */
  lemma InsertValid(t: Tree, k: int, v: int)
    requires Valid(t)
    ensures Valid(Insert(t, k, v))
  {
    InsertRB(t, k, v);
    InsertOrdered(t, k, v);
  }

  // ---------------------------------------------------------------------
  // Height
  // ---------------------------------------------------------------------

  /** No path is more than twice as long as the black height. */
  lemma {:induction false} HeightBound(t: Tree)
    requires RB(t)
    ensures Height(t) <= 2 * BlackHeight(t) + (if ColorOf(t) == Red then 1 else 0)
  {
    if t.Node? {
      HeightBound(t.left);
      HeightBound(t.right);
    }
  }

  function Pow2(n: nat): nat
  {
    if n == 0 then 1 else 2 * Pow2(n - 1)
  }

  /** A red-black tree of black height `h` holds at least 2^h - 1 items, so
      its height is logarithmic in its size. */
  lemma {:induction false} SizeBound(t: Tree)
    requires RB(t)
    ensures |Items(t)| + 1 >= Pow2(BlackHeight(t))
  {
    if t.Node? {
      SizeBound(t.left);
      SizeBound(t.right);
      if t.color == Black {
        assert Pow2(BlackHeight(t)) == 2 * Pow2(BlackHeight(t.left));
      }
    }
  }
}

/** The Huffman coder of module/data_structure/HuffmanTree.py.

    Characters are counted (Python's `Counter`, whose keys come in order of
    first occurrence), one leaf per character goes into the binary heap of
    heap.py as `(freq, index, node)`, and the two least entries are merged
    until one tree is left.  Codes are read off the tree, left `0` and right
    `1`; decoding walks the tree bit by bit.

    Python compares the heap tuples on `(freq, index)`; the index is unique,
    so the node itself is never compared.
 */
module Huffman {
  import opened Wrappers
  import MinHeap

  /** A leaf carries a character, an internal node none (`char is None`). */
  datatype Tree = Leaf(c: char, freq: nat) | Node(freq: nat, left: Tree, right: Tree)

  /** The (character, frequency) pairs of the leaves. */
  function Leaves(t: Tree): multiset<(char, nat)>
  {
    match t
    case Leaf(c, f) => multiset{(c, f)}
    case Node(_, l, r) => Leaves(l) + Leaves(r)
  }

  function CharSet(t: Tree): set<char>
  {
    match t
    case Leaf(c, _) => {c}
    case Node(_, l, r) => CharSet(l) + CharSet(r)
  }

  /** Every internal node's frequency is the sum of its children's. */
  predicate FreqOk(t: Tree)
  {
    match t
    case Leaf(_, _) => true
    case Node(f, l, r) => f == l.freq + r.freq && FreqOk(l) && FreqOk(r)
  }

  /** No character sits on two leaves. */
  predicate Unique(t: Tree)
  {
    match t
    case Leaf(_, _) => true
    case Node(_, l, r) => Unique(l) && Unique(r) && CharSet(l) !! CharSet(r)
  }

  // ---------------------------------------------------------------------
  // Counting characters

  /** The count recorded for `c`, 0 when it has none. */
  function Lookup(fs: seq<(char, nat)>, c: char): nat
  {
    if fs == [] then 0 else if fs[0].0 == c then fs[0].1 else Lookup(fs[1..], c)
  }

  predicate DistinctKeys(fs: seq<(char, nat)>)
  {
    forall i, j :: 0 <= i < j < |fs| ==> fs[i].0 != fs[j].0
  }

  function Keys(fs: seq<(char, nat)>): set<char>
  {
    if fs == [] then {} else {fs[0].0} + Keys(fs[1..])
  }

  lemma {:induction false} KeyIndex(fs: seq<(char, nat)>, c: char) returns (i: nat)
    requires c in Keys(fs)
    ensures i < |fs| && fs[i].0 == c
  {
    i := 0;
    if fs[0].0 != c {
      var j := KeyIndex(fs[1..], c);
      i := j + 1;
    }
  }

  lemma {:induction false} IndexKey(fs: seq<(char, nat)>, i: nat)
    requires i < |fs|
    ensures fs[i].0 in Keys(fs)
  {
    if i > 0 {
      IndexKey(fs[1..], i - 1);
    }
  }

  /** Count one more `c`: bump its entry, or append `(c, 1)`. */
  function Bump(fs: seq<(char, nat)>, c: char): (r: seq<(char, nat)>)
    requires DistinctKeys(fs)
    ensures DistinctKeys(r) && Keys(r) == Keys(fs) + {c}
    ensures Lookup(r, c) == Lookup(fs, c) + 1
    ensures forall d :: d != c ==> Lookup(r, d) == Lookup(fs, d)
    ensures forall i :: 0 <= i < |r| ==> r[i].1 > 0 || (i < |fs| && r[i] == fs[i])
  {
    if fs == [] then [(c, 1)]
    else if fs[0].0 == c then
      var r := [(c, fs[0].1 + 1)] + fs[1..];
      assert r[1..] == fs[1..];
      HeadNotInTail(fs);
      NotInKeysLookup(fs[1..], c);
      ConsDistinct(r[0], fs[1..]);
      r
    else
      var rest := Bump(fs[1..], c);
      var r := [fs[0]] + rest;
      assert r[1..] == rest;
      HeadNotInTail(fs);
      ConsDistinct(fs[0], rest);
      r
  }

  lemma HeadNotInTail(fs: seq<(char, nat)>)
    requires DistinctKeys(fs) && fs != []
    ensures fs[0].0 !in Keys(fs[1..])
  {
    if fs[0].0 in Keys(fs[1..]) {
      var j := KeyIndex(fs[1..], fs[0].0);
    }
  }

  lemma ConsDistinct(x: (char, nat), rest: seq<(char, nat)>)
    requires DistinctKeys(rest) && x.0 !in Keys(rest)
    ensures DistinctKeys([x] + rest)
  {
    var r := [x] + rest;
    forall j | 0 < j < |r|
      ensures r[j].0 != x.0
    {
      IndexKey(rest, j - 1);
    }
  }

  lemma NotInKeysLookup(fs: seq<(char, nat)>, c: char)
    requires c !in Keys(fs)
    ensures Lookup(fs, c) == 0
  {
    if fs != [] {
      NotInKeysLookup(fs[1..], c);
    }
  }

  /** `Counter(data)`: one entry per distinct character, in order of first
      occurrence, with its number of occurrences. */
  function Count(data: string): (fs: seq<(char, nat)>)
    ensures DistinctKeys(fs)
    ensures Keys(fs) == set i | 0 <= i < |data| :: data[i]
    ensures forall c :: Lookup(fs, c) == multiset(data)[c]
    decreases |data|
  {
    if data == [] then []
    else
      var n := |data| - 1;
      var prev := Count(data[..n]);
      assert data == data[..n] + [data[n]];
      assert (set i | 0 <= i < |data| :: data[i]) == (set i | 0 <= i < n :: data[..n][i]) + {data[n]};
      Bump(prev, data[n])
  }

  // ---------------------------------------------------------------------
  // Building the tree

  /** A heap entry `(freq, index, node)`. */
  datatype HItem = HItem(f: nat, idx: nat, t: Tree)

  predicate HLe(a: HItem, b: HItem)
  {
    a.f < b.f || (a.f == b.f && a.idx <= b.idx)
  }

  function HOrder(): (HItem, HItem) -> bool
  {
    (a: HItem, b: HItem) => HLe(a, b)
  }

  lemma HOrderIsTotalPreorder()
    ensures MinHeap.TotalPreorder(HOrder())
  {
  }

  /** All leaves of the trees in a collection of heap entries. */
  ghost function MLeaves(m: multiset<HItem>): multiset<(char, nat)>
    decreases |m|
  {
    if m == multiset{} then multiset{}
    else
      var x :| x in m;
      Leaves(x.t) + MLeaves(m - multiset{x})
  }

  /** `MLeaves` does not depend on which entry is taken first. */
  lemma {:induction false} MLeavesAny(m: multiset<HItem>, x: HItem)
    requires x in m
    ensures MLeaves(m) == Leaves(x.t) + MLeaves(m - multiset{x})
    decreases |m|, 1
  {
    var z :| z in m && MLeaves(m) == Leaves(z.t) + MLeaves(m - multiset{z});
    if z != x {
      MLeavesSwap(m, x, z);
    }
  }

  /** Taking `z` first or `x` first gives the same leaves. */
  lemma {:induction false} MLeavesSwap(m: multiset<HItem>, x: HItem, z: HItem)
    requires x in m && z in m && x != z
    ensures Leaves(z.t) + MLeaves(m - multiset{z}) == Leaves(x.t) + MLeaves(m - multiset{x})
    decreases |m|, 0
  {
    var mz, mx := m - multiset{z}, m - multiset{x};
    assert |mz| < |m| && |mx| < |m|;
    assert x in mz && z in mx;
    MLeavesAny(mz, x);
    MLeavesAny(mx, z);
    assert mz - multiset{x} == mx - multiset{z};
    var rest := MLeaves(mz - multiset{x});
    var lx, lz := Leaves(x.t), Leaves(z.t);
    assert MLeaves(mz) == lx + rest;
    assert MLeaves(mx) == lz + rest;
    assert lz + (lx + rest) == lx + (lz + rest);
  }

  lemma MLeavesAdd(m: multiset<HItem>, y: HItem)
    ensures MLeaves(m + multiset{y}) == MLeaves(m) + Leaves(y.t)
  {
    MLeavesAny(m + multiset{y}, y);
    assert m + multiset{y} - multiset{y} == m;
  }

  /** Every entry's key is its tree's frequency, and the tree's frequencies add up. */
  ghost predicate EntriesOk(m: multiset<HItem>)
  {
    forall x :: x in m ==> x.f == x.t.freq && FreqOk(x.t)
  }

  /** The initial heap entries: one leaf per counted character. */
  function LeafItems(fs: seq<(char, nat)>): (items: seq<HItem>)
    ensures |items| == |fs|
    ensures forall i :: 0 <= i < |fs| ==> items[i] == HItem(fs[i].1, i, Leaf(fs[i].0, fs[i].1))
  {
    seq(|fs|, i requires 0 <= i < |fs| => HItem(fs[i].1, i, Leaf(fs[i].0, fs[i].1)))
  }

  /** Entries holding one leaf each carry, together, exactly those leaves. */
  lemma {:induction false} LeafItemsLeaves(items: seq<HItem>, fs: seq<(char, nat)>)
    requires |items| == |fs|
    requires forall i :: 0 <= i < |items| ==> Leaves(items[i].t) == multiset{fs[i]}
    ensures MLeaves(multiset(items)) == multiset(fs)
  {
    if items != [] {
      var k := |items| - 1;
      var pre, x := items[..k], items[k];
      var fpre, f := fs[..k], fs[k];
      assert items == pre + [x];
      assert fs == fpre + [f];
      LeafItemsLeaves(pre, fpre);
      MLeavesAdd(multiset(pre), x);
    }
  }

  lemma LeafItemsEntries(fs: seq<(char, nat)>)
    ensures EntriesOk(multiset(LeafItems(fs)))
  {
    var items := LeafItems(fs);
    forall x: HItem | x in multiset(items)
      ensures x.f == x.t.freq && FreqOk(x.t)
    {
      assert x in items;
      var i :| 0 <= i < |items| && items[i] == x;
    }
  }

  /** One round of the build loop keeps the leaves ... */
  lemma MergeLeaves(h: multiset<HItem>, a: HItem, rest1: multiset<HItem>, b: HItem, rest2: multiset<HItem>, y: HItem)
    requires rest1 + multiset{a} == h && rest2 + multiset{b} == rest1
    requires y.t == Node(a.f + b.f, a.t, b.t)
    ensures MLeaves(rest2 + multiset{y}) == MLeaves(h)
  {
    TakeLeaves(h, a, rest1);
    TakeLeaves(rest1, b, rest2);
    MLeavesAdd(rest2, y);
    assert Leaves(y.t) == Leaves(a.t) + Leaves(b.t);
  }

  lemma TakeLeaves(m: multiset<HItem>, x: HItem, rest: multiset<HItem>)
    requires rest + multiset{x} == m
    ensures MLeaves(m) == Leaves(x.t) + MLeaves(rest)
  {
    assert x in m;
    MLeavesAny(m, x);
    assert m - multiset{x} == rest;
  }

  /** ... and the frequencies. */
  lemma MergeEntries(h: multiset<HItem>, a: HItem, rest1: multiset<HItem>, b: HItem, rest2: multiset<HItem>, y: HItem)
    requires rest1 + multiset{a} == h && rest2 + multiset{b} == rest1
    requires y == HItem(a.f + b.f, y.idx, Node(a.f + b.f, a.t, b.t))
    requires EntriesOk(h)
    ensures EntriesOk(rest2 + multiset{y})
  {
    assert a in h && b in h;
    forall x | x in rest2 + multiset{y}
      ensures x.f == x.t.freq && FreqOk(x.t)
    {
      if x != y {
        assert x in h;
      }
    }
  }

  /** The heap the build loop starts from: one leaf entry per character. */
  method InitialHeap(fs: seq<(char, nat)>) returns (h: MinHeap.MinHeap<HItem>)
    ensures MinHeap.IsHeap(HOrder(), h.items) && |h.items| == |fs|
    ensures MLeaves(multiset(h.items)) == multiset(fs)
    ensures EntriesOk(multiset(h.items))
    ensures |fs| == 1 ==> h.items == [HItem(fs[0].1, 0, Leaf(fs[0].0, fs[0].1))]
  {
    HOrderIsTotalPreorder();
    var items := LeafItems(fs);
    LeafItemsOk(fs);
    h := MinHeap.Heapify(HOrder(), items);
    if |fs| == 1 {
      SingletonPermutation(h.items, items);
    }
  }

  /** The initial entries carry the counted characters with their counts. */
  lemma LeafItemsOk(fs: seq<(char, nat)>)
    ensures MLeaves(multiset(LeafItems(fs))) == multiset(fs)
    ensures EntriesOk(multiset(LeafItems(fs)))
  {
    var items := LeafItems(fs);
    forall i | 0 <= i < |items|
      ensures Leaves(items[i].t) == multiset{fs[i]}
    {
      assert (fs[i].0, fs[i].1) == fs[i];
    }
    LeafItemsLeaves(items, fs);
    LeafItemsEntries(fs);
  }

  lemma SingletonPermutation<T>(a: seq<T>, b: seq<T>)
    requires multiset(a) == multiset(b) && |b| == 1
    ensures a == b
  {
    assert |a| == |multiset(a)|;
    assert a[0] in multiset(b);
    assert b == [b[0]];
  }

  /** One round of the build loop: pop the two least entries and push their
      parent, numbered `count` for tie-breaking. */
  method MergeRound(h: MinHeap.MinHeap<HItem>, count: nat) returns (r: MinHeap.MinHeap<HItem>)
    requires MinHeap.IsHeap(HOrder(), h.items) && MinHeap.Size(h) > 1
    requires EntriesOk(multiset(h.items))
    ensures MinHeap.IsHeap(HOrder(), r.items)
    ensures MinHeap.Size(r) == MinHeap.Size(h) - 1
    ensures MLeaves(multiset(r.items)) == MLeaves(multiset(h.items))
    ensures EntriesOk(multiset(r.items))
  {
    HOrderIsTotalPreorder();
    MinHeap.PopMin(HOrder(), h);
    var p1 := MinHeap.Pop(HOrder(), h).value;
    var a, h1 := p1.0, p1.1;
    MinHeap.PopMin(HOrder(), h1);
    var p2 := MinHeap.Pop(HOrder(), h1).value;
    var b, h2 := p2.0, p2.1;
    var merged := HItem(a.f + b.f, count, Node(a.f + b.f, a.t, b.t));
    MergeLeaves(multiset(h.items), a, multiset(h1.items), b, multiset(h2.items), merged);
    MergeEntries(multiset(h.items), a, multiset(h1.items), b, multiset(h2.items), merged);
    MinHeap.PushHeap(HOrder(), h2, merged);
    r := MinHeap.Push(HOrder(), h2, merged);
  }

  /** The entry left at the end carries all the leaves. */
  lemma LastEntry(items: seq<HItem>)
    requires |items| == 1 && EntriesOk(multiset(items))
    ensures Leaves(items[0].t) == MLeaves(multiset(items)) && FreqOk(items[0].t)
  {
    var x := items[0];
    assert items == [x];
    var m := multiset(items);
    assert m == multiset{x};
    assert x in m;
    MLeavesAny(m, x);
    assert m - multiset{x} == multiset{};
  }

  /** `build_huffman_tree(freq)`: None for an empty map; otherwise the tree
      left after repeatedly merging the two least entries.  Its leaves are the
      counted characters with their counts and every internal node's
      frequency is the sum of its children's.  A single character gives a
      lone leaf. */
  method BuildHuffmanTree(fs: seq<(char, nat)>) returns (root: Option<Tree>)
    ensures fs == [] <==> root.None?
    ensures root.Some? ==> Leaves(root.value) == multiset(fs) && FreqOk(root.value)
    ensures |fs| == 1 ==> root == Some(Leaf(fs[0].0, fs[0].1))
  {
    var h := InitialHeap(fs);
    var count: nat := |fs|;
    while MinHeap.Size(h) > 1
      invariant MinHeap.IsHeap(HOrder(), h.items)
      invariant MLeaves(multiset(h.items)) == multiset(fs)
      invariant EntriesOk(multiset(h.items))
      invariant (|h.items| == 0) == (fs == [])
      invariant |fs| == 1 ==> h.items == [HItem(fs[0].1, 0, Leaf(fs[0].0, fs[0].1))]
      decreases MinHeap.Size(h)
    {
      h := MergeRound(h, count);
      count := count + 1;
    }
    if MinHeap.Size(h) == 0 {
      return None;
    }
    LastEntry(h.items);
    root := Some(h.items[0].t);
  }

  // ---------------------------------------------------------------------
  // Codes

  /** The path to `c` inside `t`: `0` for left, `1` for right. */
  function CodeOf(t: Tree, c: char): string
    requires c in CharSet(t)
  {
    match t
    case Leaf(_, _) => []
    case Node(_, l, r) => if c in CharSet(l) then "0" + CodeOf(l, c) else "1" + CodeOf(r, c)
  }

  /** `_generate_codes(node, current_code)`: a code for every leaf under
      `t`, prefixed by `pre`. */
  function CodesFrom(t: Tree, pre: string): (m: map<char, string>)
    requires Unique(t)
    ensures m.Keys == CharSet(t)
    ensures forall c :: c in m ==> m[c] == pre + CodeOf(t, c)
  {
    match t
    case Leaf(c, _) => map[c := pre]
    case Node(_, l, r) =>
      var ml, mr := CodesFrom(l, pre + "0"), CodesFrom(r, pre + "1");
      CodesUnion(t, pre, ml, mr);
      ml + mr
  }

  lemma CodesUnion(t: Tree, pre: string, ml: map<char, string>, mr: map<char, string>)
    requires t.Node? && Unique(t)
    requires ml.Keys == CharSet(t.left) && forall c :: c in ml ==> ml[c] == (pre + "0") + CodeOf(t.left, c)
    requires mr.Keys == CharSet(t.right) && forall c :: c in mr ==> mr[c] == (pre + "1") + CodeOf(t.right, c)
    ensures (ml + mr).Keys == CharSet(t)
    ensures forall c :: c in ml + mr ==> (ml + mr)[c] == pre + CodeOf(t, c)
  {
    forall c | c in ml + mr
      ensures (ml + mr)[c] == pre + CodeOf(t, c)
    {
      if c in ml {
        CodeLeft(t, pre, c, ml, mr);
      } else {
        CodeRight(t, pre, c, mr);
      }
    }
  }

  lemma CodeLeft(t: Tree, pre: string, c: char, ml: map<char, string>, mr: map<char, string>)
    requires t.Node? && Unique(t) && c in ml && ml.Keys == CharSet(t.left) && mr.Keys == CharSet(t.right)
    requires ml[c] == (pre + "0") + CodeOf(t.left, c)
    ensures (ml + mr)[c] == pre + CodeOf(t, c)
  {
    assert c !in mr;
    assert CodeOf(t, c) == "0" + CodeOf(t.left, c);
    AppendAssoc(pre, "0", CodeOf(t.left, c));
  }

  lemma CodeRight(t: Tree, pre: string, c: char, mr: map<char, string>)
    requires t.Node? && Unique(t) && c in mr && mr.Keys == CharSet(t.right)
    requires mr[c] == (pre + "1") + CodeOf(t.right, c)
    ensures mr[c] == pre + CodeOf(t, c)
  {
    assert c !in CharSet(t.left);
    assert CodeOf(t, c) == "1" + CodeOf(t.right, c);
    AppendAssoc(pre, "1", CodeOf(t.right, c));
  }

  lemma AppendAssoc(a: string, b: string, c: string)
    ensures (a + b) + c == a + (b + c)
  {
  }

  /** `generate_huffman_codes(root)`: no codes for no tree. */
  function GenerateCodes(root: Option<Tree>): (m: map<char, string>)
    requires root.Some? ==> Unique(root.value)
    ensures root.None? ==> m == map[]
    ensures root.Some? ==> m.Keys == CharSet(root.value)
    ensures root.Some? ==> forall c :: c in m ==> m[c] == CodeOf(root.value, c)
  {
    if root.None? then map[] else CodesFrom(root.value, [])
  }

  /** No code is a prefix of another character's code. */
  lemma {:induction false} PrefixFree(t: Tree, a: char, b: char)
    requires Unique(t) && a in CharSet(t) && b in CharSet(t) && a != b
    ensures !IsPrefix(CodeOf(t, a), CodeOf(t, b))
  {
    match t
    case Leaf(_, _) =>
    case Node(_, l, r) =>
      var ca, cb := CodeOf(t, a), CodeOf(t, b);
      if a in CharSet(l) && b in CharSet(l) {
        PrefixFree(l, a, b);
        PrefixCons('0', CodeOf(l, a), CodeOf(l, b));
      } else if a in CharSet(r) && b in CharSet(r) {
        assert a !in CharSet(l) && b !in CharSet(l);
        PrefixFree(r, a, b);
        PrefixCons('1', CodeOf(r, a), CodeOf(r, b));
      } else {
        assert ca[0] != cb[0];
      }
  }

  predicate IsPrefix(p: string, s: string)
  {
    |p| <= |s| && s[..|p|] == p
  }

  lemma PrefixCons(x: char, p: string, s: string)
    requires !IsPrefix(p, s)
    ensures !IsPrefix([x] + p, [x] + s)
  {
    var xs := [x] + s;
    if |p| + 1 <= |xs| {
      assert xs[..|p| + 1][1..] == s[..|p|];
    }
  }

  /** Below an internal node every code is non-empty. */
  lemma CodeNonEmpty(t: Tree, c: char)
    requires t.Node? && c in CharSet(t)
    ensures |CodeOf(t, c)| > 0
  {
  }

  // ---------------------------------------------------------------------
  // Encoding and decoding

  /** `''.join(codes[char] for char in data)`. */
  function Encode(codes: map<char, string>, data: string): string
    requires forall i :: 0 <= i < |data| ==> data[i] in codes
  {
    if data == [] then [] else codes[data[0]] + Encode(codes, data[1..])
  }

  /** The decoding loop from node `cur`: `0` goes left, any other bit right;
      on reaching a leaf its character is emitted and the walk restarts at
      the root.  Bits left over after the last leaf are dropped. */
  function Walk(bits: string, root: Tree, cur: Tree): string
    requires root.Node? && cur.Node?
    decreases |bits|
  {
    if bits == [] then []
    else
      var next := if bits[0] == '0' then cur.left else cur.right;
      if next.Leaf? then [next.c] + Walk(bits[1..], root, root)
      else Walk(bits[1..], root, next)
  }

  /** `huffman_decoding(encoded_data, root)`: "" for no data or no tree.  A
      tree that is a lone leaf has no children, so the first bit raises
      AttributeError. */
  function HuffmanDecoding(bits: string, root: Option<Tree>): (r: Result<string>)
    ensures bits == [] || root.None? ==> r == Ok([])
    ensures bits != [] && root.Some? && root.value.Leaf? ==> r == Err(AttributeError)
  {
    if bits == [] || root.None? then Ok([])
    else if root.value.Leaf? then Err(AttributeError)
    else Ok(Walk(bits, root.value, root.value))
  }

  /** Walking a character's code from the subtree it lies in emits that
      character and returns to the root. */
  lemma {:induction false} WalkCode(root: Tree, t: Tree, c: char, rest: string)
    requires root.Node? && t.Node? && Unique(t) && c in CharSet(t)
    ensures Walk(CodeOf(t, c) + rest, root, t) == [c] + Walk(rest, root, root)
  {
    var l, r := t.left, t.right;
    var code := CodeOf(t, c);
    if c in CharSet(l) {
      assert code + rest == "0" + (CodeOf(l, c) + rest);
      if l.Node? {
        WalkCode(root, l, c, rest);
      }
    } else {
      assert code + rest == "1" + (CodeOf(r, c) + rest);
      if r.Node? {
        WalkCode(root, r, c, rest);
      }
    }
  }

  /** With a root that is an internal node, decoding undoes encoding. */
  lemma {:induction false} WalkEncode(root: Tree, data: string)
    requires root.Node? && Unique(root)
    requires forall i :: 0 <= i < |data| ==> data[i] in CharSet(root)
    ensures Walk(Encode(GenerateCodes(Some(root)), data), root, root) == data
  {
    if data != [] {
      var codes := GenerateCodes(Some(root));
      WalkEncode(root, data[1..]);
      WalkCode(root, root, data[0], Encode(codes, data[1..]));
    }
  }

  lemma {:induction false} EncodeNonEmpty(root: Tree, data: string)
    requires root.Node? && Unique(root) && data != []
    requires forall i :: 0 <= i < |data| ==> data[i] in CharSet(root)
    ensures Encode(GenerateCodes(Some(root)), data) != []
  {
    CodeNonEmpty(root, data[0]);
  }

  lemma {:induction false} LeavesUnique(t: Tree)
    requires forall p, q :: p in Leaves(t) && q in Leaves(t) && p.0 == q.0 ==> p == q && Leaves(t)[p] == 1
    ensures Unique(t)
  {
    match t
    case Leaf(_, _) =>
    case Node(_, l, r) =>
      LeavesUnique(l);
      LeavesUnique(r);
      forall c | c in CharSet(l) && c in CharSet(r)
        ensures false
      {
        var p := CharLeaf(l, c);
        var q := CharLeaf(r, c);
      }
  }

  lemma {:induction false} CharLeaf(t: Tree, c: char) returns (p: (char, nat))
    requires c in CharSet(t)
    ensures p in Leaves(t) && p.0 == c
  {
    match t
    case Leaf(_, f) => p := (c, f);
    case Node(_, l, r) =>
      if c in CharSet(l) {
        p := CharLeaf(l, c);
      } else {
        p := CharLeaf(r, c);
      }
  }

  lemma {:induction false} LeafChars(t: Tree, p: (char, nat))
    requires p in Leaves(t)
    ensures p.0 in CharSet(t)
  {
    match t
    case Leaf(_, _) =>
    case Node(_, l, r) =>
      if p in Leaves(l) {
        LeafChars(l, p);
      } else {
        LeafChars(r, p);
      }
  }

  /** The leaves of a tree built from a count are its distinct characters. */
  lemma CountLeaves(t: Tree, fs: seq<(char, nat)>)
    requires DistinctKeys(fs) && Leaves(t) == multiset(fs)
    ensures Unique(t) && CharSet(t) == Keys(fs)
  {
    forall p, q | p in Leaves(t) && q in Leaves(t) && p.0 == q.0
      ensures p == q && Leaves(t)[p] == 1
    {
      var i :| 0 <= i < |fs| && fs[i] == p;
      var j :| 0 <= j < |fs| && fs[j] == q;
      assert i == j;
      DistinctCount(fs, i);
    }
    LeavesUnique(t);
    forall c | c in CharSet(t)
      ensures c in Keys(fs)
    {
      var p := CharLeaf(t, c);
      var i :| 0 <= i < |fs| && fs[i] == p;
      IndexKey(fs, i);
    }
    forall c | c in Keys(fs)
      ensures c in CharSet(t)
    {
      var i := KeyIndex(fs, c);
      assert fs[i] in multiset(fs);
      LeafChars(t, fs[i]);
    }
  }

  /** With distinct keys, each entry occurs once. */
  lemma {:induction false} DistinctCount(fs: seq<(char, nat)>, i: nat)
    requires DistinctKeys(fs) && i < |fs|
    ensures multiset(fs)[fs[i]] == 1
  {
    if |fs| > 0 {
      var n := |fs| - 1;
      assert fs == fs[..n] + [fs[n]];
      assert DistinctKeys(fs[..n]);
      if i < n {
        DistinctCount(fs[..n], i);
        assert fs[n] != fs[i];
      } else {
        assert fs[i] !in fs[..n];
      }
    }
  }

  /** A tree with at least two distinct characters has an internal root, and
      one with a single character is a leaf. */
  lemma {:induction false} NodeIffTwoChars(t: Tree)
    requires Unique(t)
    ensures t.Node? <==> |CharSet(t)| >= 2
  {
    if t.Node? {
      var a := CharLeafAny(t.left);
      var b := CharLeafAny(t.right);
      assert a != b;
      assert {a, b} <= CharSet(t);
      assert |{a, b}| == 2;
      SubsetCard({a, b}, CharSet(t));
    }
  }

  lemma SubsetCard(a: set<char>, b: set<char>)
    requires a <= b
    ensures |a| <= |b|
  {
    assert b == a + (b - a);
  }

  lemma {:induction false} CharLeafAny(t: Tree) returns (c: char)
    ensures c in CharSet(t)
  {
    match t
    case Leaf(x, _) => c := x;
    case Node(_, l, _) => c := CharLeafAny(l);
  }

  /** `huffman_encoding(data)`: `("", None)` for empty data; otherwise the
      codes of the characters concatenated, and the tree.  The tree's leaves
      are exactly the characters of `data`, each once, with its count.  With
      at least two distinct characters decoding gives `data` back; with a
      single one the tree is a lone leaf, its code is empty, and the encoded
      string is empty. */
  method HuffmanEncoding(data: string) returns (bits: string, root: Option<Tree>)
    ensures data == [] ==> bits == [] && root == None
    ensures data != [] ==> root.Some? && Unique(root.value) && FreqOk(root.value)
    ensures data != [] ==> CharSet(root.value) == set i | 0 <= i < |data| :: data[i]
    ensures data != [] ==> forall c :: c in CharSet(root.value) ==> (c, multiset(data)[c]) in Leaves(root.value)
    ensures data != [] && |CharSet(root.value)| >= 2 ==> HuffmanDecoding(bits, root) == Ok(data)
    ensures data != [] && |CharSet(root.value)| == 1 ==> bits == [] && root.value == Leaf(data[0], |data|)
  {
    if data == [] {
      return [], None;
    }
    var fs := Count(data);
    root := BuildHuffmanTree(fs);
    CountLeaves(root.value, fs);
    var t := root.value;
    forall c | c in CharSet(t)
      ensures (c, multiset(data)[c]) in Leaves(t)
    {
      var i := KeyIndex(fs, c);
      LookupAt(fs, i);
    }
    var codes := GenerateCodes(root);
    assert forall i :: 0 <= i < |data| ==> data[i] in codes;
    bits := Encode(codes, data);
    NodeIffTwoChars(t);
    if t.Node? {
      EncodeNonEmpty(t, data);
      WalkEncode(t, data);
    } else {
      SingleLeafData(t, data);
      EncodeLeaf(codes, t.c, data);
    }
  }

  lemma {:induction false} LookupAt(fs: seq<(char, nat)>, i: nat)
    requires DistinctKeys(fs) && i < |fs|
    ensures Lookup(fs, fs[i].0) == fs[i].1
  {
    if i > 0 {
      assert DistinctKeys(fs[1..]);
      LookupAt(fs[1..], i - 1);
    }
  }

  /** Data all of whose characters are the one leaf's is that character repeated. */
  lemma SingleLeafData(t: Tree, data: string)
    requires t.Leaf? && data != [] && CharSet(t) == set i | 0 <= i < |data| :: data[i]
    requires (t.c, multiset(data)[t.c]) in Leaves(t)
    ensures data == seq(|data|, _ => t.c) && t == Leaf(data[0], |data|)
  {
    assert forall i :: 0 <= i < |data| ==> data[i] in CharSet(t);
    assert data == seq(|data|, _ => t.c);
    assert data[0] == t.c;
    RepeatCount(t.c, |data|);
  }

  lemma {:induction false} RepeatCount(c: char, n: nat)
    ensures multiset(seq(n, _ => c))[c] == n
  {
    if n > 0 {
      assert seq(n, _ => c) == seq(n - 1, _ => c) + [c];
      RepeatCount(c, n - 1);
    }
  }

  lemma {:induction false} EncodeLeaf(codes: map<char, string>, c: char, data: string)
    requires c in codes && codes[c] == [] && forall i :: 0 <= i < |data| ==> data[i] == c
    ensures Encode(codes, data) == []
  {
    if data != [] {
      EncodeLeaf(codes, c, data[1..]);
    }
  }

  // ---------------------------------------------------------------------
  // Data made of one repeated character

  /** As written, data made of one character repeated `n` times encodes to
      the empty string with a lone-leaf tree, and decoding that gives back
      the empty string: the data is lost. */
  lemma SingleCharacterLost(c: char, n: nat)
    requires n > 0
    ensures Encode(GenerateCodes(Some(Leaf(c, n))), seq(n, _ => c)) == []
    ensures HuffmanDecoding([], Some(Leaf(c, n))) == Ok([]) != Ok(seq(n, _ => c))
  {
    var data := seq(n, _ => c);
    var codes := GenerateCodes(Some(Leaf(c, n)));
    assert codes == map[c := []];
    EncodeLeaf(codes, c, data);
    assert |data| == n;
  }

  /** The evidently intended codes: a lone leaf gets the code `0`, so every
      character has a non-empty code. */
  function CorrectedCodes(root: Option<Tree>): (m: map<char, string>)
    requires root.Some? ==> Unique(root.value)
    ensures root.None? ==> m == map[]
    ensures root.Some? ==> m.Keys == CharSet(root.value)
    ensures root.Some? ==> forall c :: c in m ==> |m[c]| > 0
    ensures root.Some? && root.value.Node? ==> m == GenerateCodes(root)
  {
    if root.Some? && root.value.Leaf? then map[root.value.c := "0"]
    else
      var m := GenerateCodes(root);
      assert root.Some? ==> forall c :: c in m ==> |m[c]| > 0 by {
        if root.Some? {
          forall c | c in m
            ensures |m[c]| > 0
          {
            CodeNonEmpty(root.value, c);
          }
        }
      }
      m
  }

  /** The evidently intended decoding: below a lone leaf every bit stands for
      its character. */
  function CorrectedDecoding(bits: string, root: Option<Tree>): (r: Result<string>)
    ensures r.Ok?
    ensures root.Some? && root.value.Node? ==> r == HuffmanDecoding(bits, root)
    ensures root.Some? && root.value.Leaf? ==> |r.value| == |bits|
    ensures root.Some? && root.value.Leaf? ==> forall i :: 0 <= i < |r.value| ==> r.value[i] == root.value.c
  {
    if bits == [] || root.None? then Ok([])
    else if root.value.Leaf? then Ok(seq(|bits|, _ => root.value.c))
    else Ok(Walk(bits, root.value, root.value))
  }

  /** Encoding with the corrected codes: decoding gives back every input,
      including data made of a single repeated character. */
  method CorrectedEncoding(data: string) returns (bits: string, root: Option<Tree>)
    ensures data == [] <==> root == None
    ensures data == [] <==> bits == []
    ensures CorrectedDecoding(bits, root) == Ok(data)
  {
    var ignored;
    ignored, root := HuffmanEncoding(data);
    if data == [] {
      return [], root;
    }
    var t := root.value;
    var codes := CorrectedCodes(root);
    assert forall i :: 0 <= i < |data| ==> data[i] in codes;
    bits := Encode(codes, data);
    EncodeNonEmptyCodes(codes, data);
    if t.Node? {
      WalkEncode(t, data);
    } else {
      assert CharSet(t) == {t.c};
      assert forall i :: 0 <= i < |data| ==> data[i] == t.c;
      EncodeZeros(codes, t.c, data);
      assert data == seq(|data|, _ => t.c);
    }
  }

  lemma {:induction false} EncodeNonEmptyCodes(codes: map<char, string>, data: string)
    requires forall i :: 0 <= i < |data| ==> data[i] in codes && |codes[data[i]]| > 0
    ensures data != [] ==> Encode(codes, data) != []
  {
    if data != [] {
      assert data[0] in codes;
    }
  }

  lemma {:induction false} EncodeZeros(codes: map<char, string>, c: char, data: string)
    requires c in codes && codes[c] == "0" && forall i :: 0 <= i < |data| ==> data[i] == c
    ensures |Encode(codes, data)| == |data|
  {
    if data != [] {
      EncodeZeros(codes, c, data[1..]);
    }
  }
}

/** The prefix tree `Trie` and its subclass `UsernameTrie` of
    module/data_structure/trie.py.

    A node has a dictionary of children keyed by character (kept here as a
    list of pairs in insertion order, as a Python dict iterates) and, when a
    word ends at it, the data stored with that word.  Words are lower-cased
    on the way in and on every lookup.  The Python methods mutate the tree in
    place; here each one returns the new tree.
 */
module Trie {
  import opened Wrappers

  /** `end` is `Some(data)` exactly when `is_end_of_word` holds. */
  datatype TrieNode<D> = TrieNode(children: seq<(char, TrieNode<D>)>, end: Option<D>)

  datatype Trie<D> = Trie(root: TrieNode<D>, size: int)

  function EmptyNode<D>(): TrieNode<D>
  {
    TrieNode([], None)
  }

  function Empty<D>(): (t: Trie<D>)
    ensures forall w :: Search(t, w) == None
  {
    Trie(EmptyNode(), 0)
  }

  // ---------------------------------------------------------------------
  // Lower-casing

  /** `str.lower` on one character, for the ASCII letters. */
  function LowerChar(c: char): char
  {
    if 'A' <= c <= 'Z' then (c as int + 32) as char else c
  }

  function Lower(w: string): (r: string)
    ensures |r| == |w|
  {
    seq(|w|, i requires 0 <= i < |w| => LowerChar(w[i]))
  }

  // ---------------------------------------------------------------------
  // Children

  /** The keys of a child list. */
  function Keys<D>(cs: seq<(char, TrieNode<D>)>): set<char>
  {
    if cs == [] then {} else {cs[0].0} + Keys(cs[1..])
  }

  predicate UniqueKeys<D>(cs: seq<(char, TrieNode<D>)>)
  {
    cs == [] || (cs[0].0 !in Keys(cs[1..]) && UniqueKeys(cs[1..]))
  }

  /** `node.children[c]`, or None when `c not in node.children`. */
  function Child<D>(cs: seq<(char, TrieNode<D>)>, c: char): (r: Option<TrieNode<D>>)
    ensures r.Some? <==> c in Keys(cs)
  {
    if cs == [] then None
    else if cs[0].0 == c then Some(cs[0].1)
    else Child(cs[1..], c)
  }

  /** `node.children[c] = m`: the entry for `c` is replaced in place, or a
      new entry goes at the end. */
  function SetChild<D>(cs: seq<(char, TrieNode<D>)>, c: char, m: TrieNode<D>): (r: seq<(char, TrieNode<D>)>)
    ensures Keys(r) == Keys(cs) + {c}
    ensures UniqueKeys(cs) ==> UniqueKeys(r)
    ensures forall d :: Child(r, d) == if d == c then Some(m) else Child(cs, d)
  {
    if cs == [] then [(c, m)]
    else if cs[0].0 == c then [(c, m)] + cs[1..]
    else [cs[0]] + SetChild(cs[1..], c, m)
  }

  /** `del node.children[c]`. */
  function RemoveChild<D>(cs: seq<(char, TrieNode<D>)>, c: char): (r: seq<(char, TrieNode<D>)>)
    ensures UniqueKeys(cs) ==> Keys(r) == Keys(cs) - {c} && UniqueKeys(r)
    ensures UniqueKeys(cs) ==> forall d :: Child(r, d) == if d == c then None else Child(cs, d)
  {
    if cs == [] then []
    else if cs[0].0 == c then cs[1..]
    else [cs[0]] + RemoveChild(cs[1..], c)
  }

  /** Every child list in the tree has distinct keys, as a dict does. */
  predicate WF<D>(n: TrieNode<D>)
    decreases n
  {
    UniqueKeys(n.children) && forall i :: 0 <= i < |n.children| ==> WF(n.children[i].1)
  }

  lemma {:induction false} ChildIndex<D>(cs: seq<(char, TrieNode<D>)>, c: char) returns (i: nat)
    requires Child(cs, c).Some?
    ensures i < |cs| && cs[i] == (c, Child(cs, c).value)
  {
    if cs[0].0 == c {
      i := 0;
    } else {
      var j := ChildIndex(cs[1..], c);
      i := j + 1;
    }
  }

  lemma ChildWF<D>(n: TrieNode<D>, c: char)
    requires WF(n) && Child(n.children, c).Some?
    ensures WF(Child(n.children, c).value)
  {
    var i := ChildIndex(n.children, c);
  }

  /** Every entry of `SetChild(cs, c, m)` comes from `cs` or is `(c, m)`. */
  lemma {:induction false} SetChildEntries<D>(cs: seq<(char, TrieNode<D>)>, c: char, m: TrieNode<D>)
    ensures forall p :: p in SetChild(cs, c, m) ==> p in cs || p == (c, m)
  {
    if cs != [] && cs[0].0 != c {
      SetChildEntries(cs[1..], c, m);
    }
  }

  lemma {:induction false} RemoveChildEntries<D>(cs: seq<(char, TrieNode<D>)>, c: char)
    ensures forall p :: p in RemoveChild(cs, c) ==> p in cs
  {
    if cs != [] && cs[0].0 != c {
      RemoveChildEntries(cs[1..], c);
    }
  }

  lemma SetChildWF<D>(n: TrieNode<D>, c: char, m: TrieNode<D>)
    requires WF(n) && WF(m)
    ensures WF(n.(children := SetChild(n.children, c, m)))
  {
    var cs := SetChild(n.children, c, m);
    SetChildEntries(n.children, c, m);
    forall i | 0 <= i < |cs|
      ensures WF(cs[i].1)
    {
      assert cs[i] in cs;
      if cs[i] != (c, m) {
        var j :| 0 <= j < |n.children| && n.children[j] == cs[i];
      }
    }
  }

  lemma RemoveChildWF<D>(n: TrieNode<D>, c: char)
    requires WF(n)
    ensures WF(n.(children := RemoveChild(n.children, c)))
  {
    var cs := RemoveChild(n.children, c);
    RemoveChildEntries(n.children, c);
    forall i | 0 <= i < |cs|
      ensures WF(cs[i].1)
    {
      assert cs[i] in cs;
      var j :| 0 <= j < |n.children| && n.children[j] == cs[i];
    }
  }

  // ---------------------------------------------------------------------
  // Lookup

  /** `_find_node(word)`: follow the characters from `n`. */
  function FindNode<D>(n: TrieNode<D>, w: string): Option<TrieNode<D>>
    decreases |w|
  {
    if w == [] then Some(n)
    else match Child(n.children, w[0])
      case None => None
      case Some(m) => FindNode(m, w[1..])
  }

  /** The data of word `w` below `n`, if `w` ends there. */
  function Get<D>(n: TrieNode<D>, w: string): Option<D>
  {
    match FindNode(n, w)
    case None => None
    case Some(m) => m.end
  }

  /** Walking `p` then `s` is walking `p + s`. */
  lemma {:induction false} FindNodeAppend<D>(n: TrieNode<D>, p: string, s: string)
    ensures FindNode(n, p + s) == match FindNode(n, p) case None => None case Some(m) => FindNode(m, s)
    decreases |p|
  {
    if p != [] {
      var ps := p + s;
      assert ps != [] && ps[0] == p[0] && ps[1..] == p[1..] + s;
      match Child(n.children, p[0])
      case None =>
        assert FindNode(n, ps) == None;
      case Some(m) =>
        FindNodeAppend(m, p[1..], s);
        assert FindNode(n, ps) == FindNode(m, p[1..] + s);
        assert FindNode(n, p) == FindNode(m, p[1..]);
    } else {
      assert p + s == s;
    }
  }

  lemma {:induction false} GetEmptyNode<D>(w: string)
    ensures Get(EmptyNode<D>(), w) == None
  {
  }

  /** `search(word)`: None for the empty word; otherwise the data of the
      lower-cased word if it is stored. */
  function Search<D>(t: Trie<D>, w: string): Option<D>
  {
    if w == [] then None else Get(t.root, Lower(w))
  }

  // ---------------------------------------------------------------------
  // insert

  /** The walk of `insert` from `n`: create missing nodes along `w`, mark
      the last one as a word end holding `d`; the flag says whether the
      word is new. */
  function InsertNode<D>(n: TrieNode<D>, w: string, d: D): (r: (TrieNode<D>, bool))
    ensures r.1 <==> Get(n, w).None?
    decreases |w|
  {
    if w == [] then (n.(end := Some(d)), n.end.None?)
    else
      var child := match Child(n.children, w[0]) case Some(m) => m case None => EmptyNode();
      var (m', isNew) := InsertNode(child, w[1..], d);
      assert Child(n.children, w[0]).None? ==> Get(child, w[1..]).None? by {
        GetEmptyNode<D>(w[1..]);
      }
      (n.(children := SetChild(n.children, w[0], m')), isNew)
  }

  /** After inserting `w` with `d` below `n`, `w` holds `d` and every other
      word keeps its data. */
  lemma {:induction false} InsertNodeGet<D>(n: TrieNode<D>, w: string, d: D, v: string)
    ensures Get(InsertNode(n, w, d).0, v) == if v == w then Some(d) else Get(n, v)
    decreases |w|
  {
    if w != [] && v != [] {
      var child := match Child(n.children, w[0]) case Some(m) => m case None => EmptyNode();
      InsertNodeGet(child, w[1..], d, v[1..]);
      if Child(n.children, w[0]).None? {
        GetEmptyNode<D>(v[1..]);
      }
      assert v == w <==> v[0] == w[0] && v[1..] == w[1..];
    }
  }

  lemma {:induction false} InsertNodeWF<D>(n: TrieNode<D>, w: string, d: D)
    requires WF(n)
    ensures WF(InsertNode(n, w, d).0)
    decreases |w|
  {
    if w != [] {
      var child := match Child(n.children, w[0]) case Some(m) => m case None => EmptyNode();
      if Child(n.children, w[0]).Some? {
        ChildWF(n, w[0]);
      }
      InsertNodeWF(child, w[1..], d);
      SetChildWF(n, w[0], InsertNode(child, w[1..], d).0);
    }
  }

  /** `insert(word, data)`: False without change for the empty word;
      otherwise the lower-cased word is stored with `data`, and the result
      (True exactly for a new word) also says whether `size` grew. */
  function Insert<D>(t: Trie<D>, w: string, d: D): (r: (Trie<D>, bool))
    ensures w == [] ==> r == (t, false)
    ensures w != [] ==> (r.1 <==> Search(t, w).None?)
    ensures r.0.size == if r.1 then t.size + 1 else t.size
  {
    if w == [] then (t, false)
    else
      var (root, isNew) := InsertNode(t.root, Lower(w), d);
      (Trie(root, if isNew then t.size + 1 else t.size), isNew)
  }

  /** After `insert(w, d)` every spelling of `w` that lower-cases alike
      finds `d`; every other word keeps its data. */
  lemma InsertSearch<D>(t: Trie<D>, w: string, d: D, v: string)
    requires w != []
    ensures Search(Insert(t, w, d).0, v) == if v != [] && Lower(v) == Lower(w) then Some(d) else Search(t, v)
  {
    if v != [] {
      InsertNodeGet(t.root, Lower(w), d, Lower(v));
    }
  }

  // ---------------------------------------------------------------------
  // delete

  /** What `_delete_helper` leaves behind: the node, its return value (the
      node may be dropped by its parent) and whether the word was found,
      which is when `size` is decremented. */
  datatype Deleted<D> = Deleted(node: TrieNode<D>, prune: bool, removed: bool)

  /** `_delete_helper(node, word, index)` on the rest `w` of the word. */
  function DeleteNode<D>(n: TrieNode<D>, w: string): (r: Deleted<D>)
    ensures r.removed <==> Get(n, w).Some?
    ensures r.prune ==> r.node.end.None? && r.node.children == []
    decreases |w|
  {
    if w == [] then
      if n.end.None? then Deleted(n, false, false)
      else Deleted(n.(end := None), |n.children| == 0, true)
    else match Child(n.children, w[0])
      case None => Deleted(n, false, false)
      case Some(m) =>
        var r := DeleteNode(m, w[1..]);
        if r.prune then
          var cs := RemoveChild(n.children, w[0]);
          Deleted(n.(children := cs), n.end.None? && |cs| == 0, r.removed)
        else Deleted(n.(children := SetChild(n.children, w[0], r.node)), false, r.removed)
  }

  lemma {:induction false} GetBare<D>(n: TrieNode<D>, w: string)
    requires n.end.None? && n.children == []
    ensures Get(n, w) == None
  {
  }

  /** After deleting `w` below `n`, `w` holds nothing and every other word
      keeps its data: a dropped node never holds another word. */
  lemma {:induction false} DeleteNodeGet<D>(n: TrieNode<D>, w: string, v: string)
    requires WF(n)
    ensures Get(DeleteNode(n, w).node, v) == if v == w then None else Get(n, v)
    decreases |w|
  {
    if w != [] && v != [] && Child(n.children, w[0]).Some? {
      var m := Child(n.children, w[0]).value;
      ChildWF(n, w[0]);
      DeleteNodeGet(m, w[1..], v[1..]);
      var r := DeleteNode(m, w[1..]);
      if r.prune {
        GetBare(r.node, v[1..]);
      }
      assert v == w <==> v[0] == w[0] && v[1..] == w[1..];
    }
  }

  lemma {:induction false} DeleteNodeWF<D>(n: TrieNode<D>, w: string)
    requires WF(n)
    ensures WF(DeleteNode(n, w).node)
    decreases |w|
  {
    if w != [] && Child(n.children, w[0]).Some? {
      var m := Child(n.children, w[0]).value;
      ChildWF(n, w[0]);
      DeleteNodeWF(m, w[1..]);
      if DeleteNode(m, w[1..]).prune {
        RemoveChildWF(n, w[0]);
      } else {
        SetChildWF(n, w[0], DeleteNode(m, w[1..]).node);
      }
    }
  }

  /** `delete(word)` as written: False for the empty word; otherwise the
      result of `_delete_helper` at the root, which says whether the root
      could be dropped, not whether the word was found.  `size` goes down by
      one exactly when the word was stored. */
  function Delete<D>(t: Trie<D>, w: string): (r: (Trie<D>, bool))
    ensures w == [] ==> r == (t, false)
    ensures r.0.size == if w != [] && Search(t, w).Some? then t.size - 1 else t.size
    ensures r.1 ==> r.0.root.children == []
  {
    if w == [] then (t, false)
    else
      var r := DeleteNode(t.root, Lower(w));
      (Trie(r.node, if r.removed then t.size - 1 else t.size), r.prune)
  }

  /** After `delete(w)` no spelling of `w` is found; every other word keeps
      its data.  Deleting an absent word changes no word. */
  lemma DeleteSearch<D>(t: Trie<D>, w: string, v: string)
    requires WF(t.root)
    ensures Search(Delete(t, w).0, v) == if v != [] && w != [] && Lower(v) == Lower(w) then None else Search(t, v)
  {
    if v != [] && w != [] {
      DeleteNodeGet(t.root, Lower(w), Lower(v));
    }
  }

  /** `delete` keeps every child list a dict. */
  lemma DeleteWF<D>(t: Trie<D>, w: string)
    requires WF(t.root)
    ensures WF(Delete(t, w).0.root)
  {
    if w != [] {
      DeleteNodeWF(t.root, Lower(w));
    }
  }

  lemma InsertWF<D>(t: Trie<D>, w: string, d: D)
    requires WF(t.root)
    ensures WF(Insert(t, w, d).0.root)
  {
    if w != [] {
      InsertNodeWF(t.root, Lower(w), d);
    }
  }

  /** The evidently intended `delete`: the result says whether the word was
      stored and has now been removed. */
  function DeleteCorrected<D>(t: Trie<D>, w: string): (r: (Trie<D>, bool))
    ensures r.1 <==> Search(t, w).Some?
    ensures r.0 == Delete(t, w).0
  {
    if w == [] then (t, false)
    else
      var r := DeleteNode(t.root, Lower(w));
      (Trie(r.node, if r.removed then t.size - 1 else t.size), r.removed)
  }

  /** As written, deleting one of two stored words removes it but reports
      False, because the root keeps a child. */
  lemma DeleteReportsFalse(x: int, y: int)
    ensures var t := Insert(Insert(Empty<int>(), "a", x).0, "b", y).0;
            var (t', ok) := Delete(t, "a");
            Search(t, "a") == Some(x) && Search(t', "a") == None
            && t'.size == t.size - 1 && !ok
  {
    var t0 := Empty<int>();
    var t1 := Insert(t0, "a", x).0;
    var t := Insert(t1, "b", y).0;
    InsertSearch(t0, "a", x, "a");
    InsertSearch(t1, "b", y, "a");
    assert Lower("a") == "a" && Lower("b") == "b";
    assert WF(t0.root);
    InsertWF(t0, "a", x);
    InsertWF(t1, "b", y);
    DeleteSearch(t, "a", "a");
    assert Child(t.root.children, 'b').Some?;
    assert 'b' in Keys(Delete(t, "a").0.root.children);
  }

  // ---------------------------------------------------------------------
  // starts_with

  /** `_collect_words(node, current_word, results)`: the word ending at the
      node first, then each child's words in dict order. */
  function Collect<D>(n: TrieNode<D>, cur: string): seq<(string, D)>
    decreases n, |n.children| + 1
  {
    (if n.end.Some? then [(cur, n.end.value)] else []) + CollectFrom(n, cur, 0)
  }

  function CollectFrom<D>(n: TrieNode<D>, cur: string, i: nat): seq<(string, D)>
    decreases n, |n.children| - i
  {
    if i >= |n.children| then []
    else Collect(n.children[i].1, cur + [n.children[i].0]) + CollectFrom(n, cur, i + 1)
  }

  predicate IsPrefix(p: string, w: string)
  {
    |p| <= |w| && w[..|p|] == p
  }

  /** The collected pairs are exactly the words below `n`, each prefixed by
      `cur`, with their data. */
  lemma {:induction false} CollectSpec<D>(n: TrieNode<D>, cur: string, w: string, d: D)
    requires WF(n)
    ensures (w, d) in Collect(n, cur) <==> IsPrefix(cur, w) && Get(n, w[|cur|..]) == Some(d)
    decreases n, |n.children| + 1
  {
    CollectFromSpec(n, cur, 0, w, d);
    assert n.children[0..] == n.children;
    if IsPrefix(cur, w) && |w| == |cur| {
      assert w == cur && w[|cur|..] == [];
    }
  }

  lemma {:induction false} CollectFromSpec<D>(n: TrieNode<D>, cur: string, i: nat, w: string, d: D)
    requires WF(n) && i <= |n.children|
    ensures (w, d) in CollectFrom(n, cur, i) <==>
              IsPrefix(cur, w) && |w| > |cur| && ChildGet(n.children[i..], w[|cur|], w[|cur| + 1..]) == Some(d)
    decreases n, |n.children| - i
  {
    if i < |n.children| {
      CollectSpec(n.children[i].1, cur + [n.children[i].0], w, d);
      CollectFromSpec(n, cur, i + 1, w, d);
      CollectFromStep(n, cur, i, w, d);
    }
  }

  /** One child of `CollectFromSpec`, given what holds of its subtree and
      of the children after it. */
  lemma CollectFromStep<D>(n: TrieNode<D>, cur: string, i: nat, w: string, d: D)
    requires WF(n) && i < |n.children|
    requires var (k, m) := n.children[i];
      (w, d) in Collect(m, cur + [k]) <==> IsPrefix(cur + [k], w) && Get(m, w[|cur + [k]|..]) == Some(d)
    requires (w, d) in CollectFrom(n, cur, i + 1) <==>
      IsPrefix(cur, w) && |w| > |cur| && ChildGet(n.children[i + 1..], w[|cur|], w[|cur| + 1..]) == Some(d)
    ensures (w, d) in CollectFrom(n, cur, i) <==>
      IsPrefix(cur, w) && |w| > |cur| && ChildGet(n.children[i..], w[|cur|], w[|cur| + 1..]) == Some(d)
  {
    var k := n.children[i].0;
    var cs := n.children[i..];
    assert cs[0] == n.children[i] && cs[1..] == n.children[i + 1..];
    assert UniqueKeys(cs) by {
      UniqueSuffix(n.children, i);
    }
    PrefixStep(cur, k, w);
    if IsPrefix(cur, w) && |w| > |cur| {
      ChildGetCons(cs, w[|cur|], w[|cur| + 1..]);
    }
  }

  /** Extending a prefix by one character. */
  lemma PrefixStep(cur: string, k: char, w: string)
    ensures IsPrefix(cur + [k], w) <==> IsPrefix(cur, w) && |w| > |cur| && w[|cur|] == k
    ensures IsPrefix(cur + [k], w) ==> w[|cur + [k]|..] == w[|cur| + 1..]
  {
    if IsPrefix(cur, w) && |w| > |cur| {
      assert w[..|cur| + 1] == w[..|cur|] + [w[|cur|]];
    }
    if IsPrefix(cur + [k], w) {
      assert w[..|cur|] == (cur + [k])[..|cur|];
    }
  }

  /** Looking a child up in a list of children with distinct keys. */
  lemma ChildGetCons<D>(cs: seq<(char, TrieNode<D>)>, c: char, s: string)
    requires cs != [] && UniqueKeys(cs)
    ensures c == cs[0].0 ==> ChildGet(cs, c, s) == Get(cs[0].1, s) && ChildGet(cs[1..], c, s) == None
    ensures c != cs[0].0 ==> ChildGet(cs, c, s) == ChildGet(cs[1..], c, s)
  {
    if c == cs[0].0 {
      ChildGetAbsent(cs[1..], c, s);
    }
  }

  /** The data of `s` below the child for `c`, if there is one. */
  function ChildGet<D>(cs: seq<(char, TrieNode<D>)>, c: char, s: string): Option<D>
  {
    match Child(cs, c)
    case None => None
    case Some(m) => Get(m, s)
  }

  lemma ChildGetAbsent<D>(cs: seq<(char, TrieNode<D>)>, c: char, s: string)
    requires c !in Keys(cs)
    ensures ChildGet(cs, c, s) == None
  {
  }

  lemma {:induction false} UniqueSuffix<D>(cs: seq<(char, TrieNode<D>)>, i: nat)
    requires UniqueKeys(cs) && i <= |cs|
    ensures UniqueKeys(cs[i..])
  {
    if i > 0 {
      assert cs[i..] == cs[1..][i - 1..];
      UniqueSuffix(cs[1..], i - 1);
    }
  }

  /** `starts_with(prefix)`: [] for the empty prefix or when no node is
      reached; otherwise every stored word under the lower-cased prefix
      with its data. */
  function StartsWith<D>(t: Trie<D>, p: string): seq<(string, D)>
  {
    if p == [] then []
    else match FindNode(t.root, Lower(p))
      case None => []
      case Some(m) => Collect(m, Lower(p))
  }

  /** `starts_with` returns exactly the stored words that begin with the
      lower-cased prefix, each with its data. */
  lemma StartsWithSpec<D>(t: Trie<D>, p: string, w: string, d: D)
    requires WF(t.root)
    ensures (w, d) in StartsWith(t, p) <==> p != [] && IsPrefix(Lower(p), w) && Get(t.root, w) == Some(d)
  {
    if p != [] {
      var lp := Lower(p);
      if IsPrefix(lp, w) {
        assert w == lp + w[|lp|..];
        FindNodeAppend(t.root, lp, w[|lp|..]);
      }
      match FindNode(t.root, lp)
      case None =>
      case Some(m) =>
        FindNodeWF(t.root, lp);
        CollectSpec(m, lp, w, d);
    }
  }

  lemma {:induction false} FindNodeWF<D>(n: TrieNode<D>, w: string)
    requires WF(n) && FindNode(n, w).Some?
    ensures WF(FindNode(n, w).value)
    decreases |w|
  {
    if w != [] {
      ChildWF(n, w[0]);
      FindNodeWF(Child(n.children, w[0]).value, w[1..]);
    }
  }

  /** `get_all_words()`: every stored word with its data. */
  function AllWords<D>(t: Trie<D>): seq<(string, D)>
  {
    Collect(t.root, "")
  }

  lemma AllWordsSpec<D>(t: Trie<D>, w: string, d: D)
    requires WF(t.root)
    ensures (w, d) in AllWords(t) <==> Get(t.root, w) == Some(d)
  {
    CollectSpec(t.root, "", w, d);
  }

  // ---------------------------------------------------------------------
  // UsernameTrie

  datatype User = User(id: int, name: string)

  datatype UsernameTrie = UsernameTrie(trie: Trie<User>, idToName: map<int, string>)

  /** `insert_user(user_id, username)`: False without change when the name
      is already stored; otherwise the user is stored under the name and
      the id is mapped to the name. */
  function InsertUser(u: UsernameTrie, id: int, name: string): (r: (UsernameTrie, bool))
    ensures Search(u.trie, name).Some? ==> r == (u, false)
    ensures Search(u.trie, name).None? ==> r.1 && r.0.idToName == u.idToName[id := name]
    ensures Search(u.trie, name).None? && name != [] ==> SearchById(r.0, id) == Some(User(id, name))
  {
    if Search(u.trie, name).Some? then (u, false)
    else
      var t := Insert(u.trie, name, User(id, name)).0;
      assert name != [] ==> Search(t, name) == Some(User(id, name)) by {
        if name != [] {
          InsertSearch(u.trie, name, User(id, name), name);
        }
      }
      (UsernameTrie(t, u.idToName[id := name]), true)
  }

  /** `search_by_id(user_id)`: the user stored under the id's name, if any. */
  function SearchById(u: UsernameTrie, id: int): Option<User>
  {
    if id in u.idToName then Search(u.trie, u.idToName[id]) else None
  }

  /** As written, an empty username is accepted: the result is True and the
      id is mapped, but nothing is stored, so the id finds no user. */
  lemma EmptyUsernameAccepted(u: UsernameTrie, id: int)
    ensures InsertUser(u, id, "").1 && SearchById(InsertUser(u, id, "").0, id) == None
  {
  }

  /** The evidently intended `insert_user`: an empty username is refused
      like a taken one, so success always makes the user findable by id. */
  function InsertUserChecked(u: UsernameTrie, id: int, name: string): (r: (UsernameTrie, bool))
    ensures r.1 <==> name != [] && Search(u.trie, name).None?
    ensures !r.1 ==> r.0 == u
    ensures r.1 ==> SearchById(r.0, id) == Some(User(id, name)) && r.0.idToName == u.idToName[id := name]
  {
    if name == [] then (u, false) else InsertUser(u, id, name)
  }

  /** `delete_user(username)` as written: the trie `delete` decides the
      result, and the id mapping is dropped only when it reports True. */
  function DeleteUser(u: UsernameTrie, name: string): (r: (UsernameTrie, bool))
    ensures Search(u.trie, name).None? ==> r == (u, false)
    ensures Search(u.trie, name).Some? ==> r.0.trie == Delete(u.trie, name).0
  {
    match Search(u.trie, name)
    case None => (u, false)
    case Some(user) =>
      var (t, ok) := Delete(u.trie, name);
      (UsernameTrie(t, if ok && user.id in u.idToName then u.idToName - {user.id} else u.idToName), ok)
  }

  /** `delete_user` with the intended trie `delete`: True exactly when the
      user was stored, and then the user's id no longer finds anyone. */
  function DeleteUserCorrected(u: UsernameTrie, name: string): (r: (UsernameTrie, bool))
    requires WF(u.trie.root)
    ensures r.1 <==> Search(u.trie, name).Some?
    ensures r.1 ==> Search(r.0.trie, name) == None && Search(u.trie, name).value.id !in r.0.idToName
  {
    match Search(u.trie, name)
    case None => (u, false)
    case Some(user) =>
      var (t, ok) := DeleteCorrected(u.trie, name);
      DeleteSearch(u.trie, name, name);
      (UsernameTrie(t, if ok && user.id in u.idToName then u.idToName - {user.id} else u.idToName), ok)
  }

  /** `find_users_by_prefix(prefix)`: the data of `starts_with(prefix)`. */
  function FindUsersByPrefix(u: UsernameTrie, p: string): (r: seq<User>)
    ensures |r| == |StartsWith(u.trie, p)|
    ensures forall i :: 0 <= i < |r| ==> r[i] == StartsWith(u.trie, p)[i].1
  {
    var s := StartsWith(u.trie, p);
    seq(|s|, i requires 0 <= i < |s| => s[i].1)
  }
}

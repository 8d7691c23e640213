/** `k_way_merge_descending` of module/data_structure/kwaymerge.py: merge k
    best-first lists through the binary heap of heap.py.

    The heap holds one tuple `(-value1, -value2, list_index, item_index,
    item)` per list that still has items, the head of that list.  Python
    compares such tuples field by field; `(list_index, item_index)` differs
    between any two tuples in the heap, so the trailing dict is never
    compared and the model orders the tuples on their first four fields.
    `value1` and `value2` are the `score` and `visited` of an `Entry`.
 */
module KWayMerge {
  import opened Ranking
  import MinHeap

  datatype KItem = KItem(nv1: int, nv2: int, list: nat, pos: nat, e: Entry)

  /** The heap tuple for item `pos` of list `li`. */
  function HeapItem(lists: seq<seq<Entry>>, li: nat, pos: nat): KItem
    requires li < |lists| && pos < |lists[li]|
  {
    var e := lists[li][pos];
    KItem(-e.score, -e.visited, li, pos, e)
  }

  /** `x` is the heap tuple of some item of some list. */
  predicate IsItem(lists: seq<seq<Entry>>, x: KItem)
  {
    x.list < |lists| && x.pos < |lists[x.list]| && x == HeapItem(lists, x.list, x.pos)
  }

  /** Python's tuple `<=` on the first four fields. */
  predicate KLe(a: KItem, b: KItem)
  {
    a.nv1 < b.nv1 || (a.nv1 == b.nv1 &&
    (a.nv2 < b.nv2 || (a.nv2 == b.nv2 &&
    (a.list < b.list || (a.list == b.list && a.pos <= b.pos)))))
  }

  function KOrder(): (KItem, KItem) -> bool
  {
    (a: KItem, b: KItem) => KLe(a, b)
  }

  lemma KOrderIsTotalPreorder()
    ensures MinHeap.TotalPreorder(KOrder())
  {
  }

  /** All lists concatenated in order. */
  function Flatten(lists: seq<seq<Entry>>): seq<Entry>
  {
    if |lists| == 0 then [] else Flatten(lists[..|lists| - 1]) + lists[|lists| - 1]
  }

  predicate AllSorted(lists: seq<seq<Entry>>)
  {
    forall li :: 0 <= li < |lists| ==> SortedDesc(lists[li])
  }

  /** A cursor per list: how many of its items have been emitted. */
  predicate CursorOk(lists: seq<seq<Entry>>, cur: seq<nat>)
  {
    |cur| == |lists| && forall li :: 0 <= li < |lists| ==> cur[li] <= |lists[li]|
  }

  /** The head tuple of list `li`, if it has one left. */
  function Head(lists: seq<seq<Entry>>, cur: seq<nat>, li: nat): multiset<KItem>
    requires CursorOk(lists, cur) && li < |lists|
  {
    if cur[li] < |lists[li]| then multiset{HeapItem(lists, li, cur[li])} else multiset{}
  }

  /** The heads of lists `0..n-1`. */
  function Heads(lists: seq<seq<Entry>>, cur: seq<nat>, n: nat): multiset<KItem>
    requires CursorOk(lists, cur) && n <= |lists|
  {
    if n == 0 then multiset{} else Heads(lists, cur, n - 1) + Head(lists, cur, n - 1)
  }

  /** The items of lists `0..n-1` before their cursors. */
  function Taken(lists: seq<seq<Entry>>, cur: seq<nat>, n: nat): multiset<Entry>
    requires CursorOk(lists, cur) && n <= |lists|
  {
    if n == 0 then multiset{} else Taken(lists, cur, n - 1) + multiset(lists[n - 1][..cur[n - 1]])
  }

  /** How many items of lists `0..n-1` are at or after their cursors. */
  function Left(lists: seq<seq<Entry>>, cur: seq<nat>, n: nat): nat
    requires CursorOk(lists, cur) && n <= |lists|
  {
    if n == 0 then 0 else Left(lists, cur, n - 1) + (|lists[n - 1]| - cur[n - 1])
  }

  lemma CursorAdvance(lists: seq<seq<Entry>>, cur: seq<nat>, li: nat)
    requires CursorOk(lists, cur) && li < |lists| && cur[li] < |lists[li]|
    ensures CursorOk(lists, cur[li := cur[li] + 1])
  {
  }

  /** Advancing the cursor of list `li` takes one more item of it ... */
  lemma {:induction false} AdvanceTaken(lists: seq<seq<Entry>>, cur: seq<nat>, c: seq<nat>, n: nat, li: nat)
    requires CursorOk(lists, cur) && n <= |lists| && li < |lists| && cur[li] < |lists[li]|
    requires c == cur[li := cur[li] + 1] && CursorOk(lists, c)
    ensures Taken(lists, c, n) == Taken(lists, cur, n) + (if li < n then multiset{lists[li][cur[li]]} else multiset{})
  {
    if n > 0 {
      var m := n - 1;
      AdvanceTaken(lists, cur, c, m, li);
      var d := if li < m then multiset{lists[li][cur[li]]} else multiset{};
      var e := if li < n then multiset{lists[li][cur[li]]} else multiset{};
      var a, b := multiset(lists[m][..c[m]]), multiset(lists[m][..cur[m]]);
      if m == li {
        assert lists[li][..c[li]] == lists[li][..cur[li]] + [lists[li][cur[li]]];
      } else {
        assert c[m] == cur[m];
      }
      MultisetStep(Taken(lists, c, n), Taken(lists, c, m), a, Taken(lists, cur, n), Taken(lists, cur, m), b, d, e);
    }
  }

  /** ... leaves one item fewer ... */
  lemma {:induction false} AdvanceLeft(lists: seq<seq<Entry>>, cur: seq<nat>, c: seq<nat>, n: nat, li: nat)
    requires CursorOk(lists, cur) && n <= |lists| && li < |lists| && cur[li] < |lists[li]|
    requires c == cur[li := cur[li] + 1] && CursorOk(lists, c)
    ensures Left(lists, c, n) + (if li < n then 1 else 0) == Left(lists, cur, n)
  {
    if n > 0 {
      AdvanceLeft(lists, cur, c, n - 1, li);
    }
  }

  /** ... does not touch the heads of the lists before it ... */
  lemma {:induction false} HeadsBefore(lists: seq<seq<Entry>>, cur: seq<nat>, c: seq<nat>, n: nat)
    requires CursorOk(lists, cur) && CursorOk(lists, c) && n <= |lists|
    requires forall k :: 0 <= k < n ==> c[k] == cur[k]
    ensures Heads(lists, c, n) == Heads(lists, cur, n)
  {
    if n > 0 {
      var m := n - 1;
      HeadsBefore(lists, cur, c, m);
      assert c[m] == cur[m];
    }
  }

  /** ... and replaces its head by the next one, if any. */
  lemma {:induction false} AdvanceHeads(lists: seq<seq<Entry>>, cur: seq<nat>, c: seq<nat>, n: nat, li: nat)
    requires CursorOk(lists, cur) && CursorOk(lists, c) && li < n <= |lists|
    requires forall k :: 0 <= k < |lists| && k != li ==> c[k] == cur[k]
    ensures Heads(lists, c, n) + Head(lists, cur, li) == Heads(lists, cur, n) + Head(lists, c, li)
    decreases n, 1
  {
    if n - 1 == li {
      HeadsBefore(lists, cur, c, li);
      MultisetSwap(Heads(lists, cur, li), Head(lists, c, li), Head(lists, cur, li));
    } else {
      AdvanceHeadsBelow(lists, cur, c, n, li);
    }
  }

  lemma {:induction false} AdvanceHeadsBelow(lists: seq<seq<Entry>>, cur: seq<nat>, c: seq<nat>, n: nat, li: nat)
    requires CursorOk(lists, cur) && CursorOk(lists, c) && li < n - 1 && n <= |lists|
    requires forall k :: 0 <= k < |lists| && k != li ==> c[k] == cur[k]
    ensures Heads(lists, c, n) + Head(lists, cur, li) == Heads(lists, cur, n) + Head(lists, c, li)
    decreases n, 0
  {
    var m := n - 1;
    AdvanceHeads(lists, cur, c, m, li);
    assert c[m] == cur[m];
    var x := Head(lists, c, m);
    assert x == Head(lists, cur, m);
    MultisetShuffle(Heads(lists, c, m), Heads(lists, cur, m), x, Head(lists, c, li), Head(lists, cur, li));
    MultisetRewrite(Heads(lists, c, n), Heads(lists, c, m) + x, Heads(lists, cur, n), Heads(lists, cur, m) + x,
                    Head(lists, c, li), Head(lists, cur, li));
  }

  lemma MultisetSwap<X>(a: multiset<X>, p: multiset<X>, q: multiset<X>)
    ensures a + p + q == a + q + p
  {
  }

  lemma MultisetRewrite<X>(a: multiset<X>, a': multiset<X>, b: multiset<X>, b': multiset<X>, p: multiset<X>, q: multiset<X>)
    requires a == a' && b == b' && a' + q == b' + p
    ensures a + q == b + p
  {
  }

  /** One unfolding of two sums, `t = t0 + a` and `u = u0 + b`, carries
      `t0 = u0 + d` over to `t = u + e` when `a + d = b + e`. */
  lemma MultisetStep<X>(t: multiset<X>, t0: multiset<X>, a: multiset<X>, u: multiset<X>, u0: multiset<X>,
                        b: multiset<X>, d: multiset<X>, e: multiset<X>)
    requires t == t0 + a && u == u0 + b && t0 == u0 + d && a + d == b + e
    ensures t == u + e
  {
    assert t == u0 + (a + d);
  }

  lemma MultisetCancel<X>(a: multiset<X>, b: multiset<X>, p: multiset<X>)
    requires a + p == b + p
    ensures a == b
  {
    assert a == (a + p) - p;
    assert b == (b + p) - p;
  }

  lemma MultisetShuffle<X>(a: multiset<X>, b: multiset<X>, x: multiset<X>, p: multiset<X>, q: multiset<X>)
    requires a + q == b + p
    ensures a + x + q == b + x + p
  {
    assert a + x + q == (a + q) + x;
    assert b + x + p == (b + p) + x;
  }

  /** Every tuple among the heads is the head of its own list. */
  lemma {:induction false} HeadsMember(lists: seq<seq<Entry>>, cur: seq<nat>, n: nat, y: KItem)
    requires CursorOk(lists, cur) && n <= |lists| && y in Heads(lists, cur, n)
    ensures IsItem(lists, y) && y.list < n && y.pos == cur[y.list]
  {
    if y !in Head(lists, cur, n - 1) {
      HeadsMember(lists, cur, n - 1, y);
    }
  }

  /** Every list with items left has its head among the heads. */
  lemma {:induction false} HeadIn(lists: seq<seq<Entry>>, cur: seq<nat>, n: nat, li: nat)
    requires CursorOk(lists, cur) && li < n <= |lists| && cur[li] < |lists[li]|
    ensures HeapItem(lists, li, cur[li]) in Heads(lists, cur, n)
  {
    if li < n - 1 {
      HeadIn(lists, cur, n - 1, li);
    }
  }

  /** Nothing is taken while every cursor is at the start. */
  lemma {:induction false} TakenNone(lists: seq<seq<Entry>>, cur: seq<nat>, n: nat)
    requires CursorOk(lists, cur) && n <= |lists|
    requires forall li :: 0 <= li < |lists| ==> cur[li] == 0
    ensures Taken(lists, cur, n) == multiset{}
  {
    if n > 0 {
      TakenNone(lists, cur, n - 1);
    }
  }

  /** Once every cursor is at the end, everything is taken. */
  lemma {:induction false} TakenAll(lists: seq<seq<Entry>>, cur: seq<nat>, n: nat)
    requires CursorOk(lists, cur) && n <= |lists|
    requires forall li :: 0 <= li < |lists| ==> cur[li] == |lists[li]|
    ensures Taken(lists, cur, n) == multiset(Flatten(lists[..n]))
  {
    if n > 0 {
      TakenAll(lists, cur, n - 1);
      assert lists[..n][..n - 1] == lists[..n - 1];
      assert lists[n - 1][..cur[n - 1]] == lists[n - 1];
    }
  }

  /** No heads left means every cursor is at the end of its list. */
  lemma NoHeadsAllTaken(lists: seq<seq<Entry>>, cur: seq<nat>)
    requires CursorOk(lists, cur) && Heads(lists, cur, |lists|) == multiset{}
    ensures forall li :: 0 <= li < |lists| ==> cur[li] == |lists[li]|
  {
    forall li | 0 <= li < |lists|
      ensures cur[li] == |lists[li]|
    {
      if cur[li] < |lists[li]| {
        HeadIn(lists, cur, |lists|, li);
      }
    }
  }

  /** Within a best-first list, an earlier tuple is not greater than a later one. */
  lemma SortedItems(lists: seq<seq<Entry>>, li: nat, j1: nat, j2: nat)
    requires li < |lists| && SortedDesc(lists[li]) && j1 <= j2 < |lists[li]|
    ensures KLe(HeapItem(lists, li, j1), HeapItem(lists, li, j2))
  {
    if j1 < j2 {
      assert RanksAtLeast(lists[li][j1], lists[li][j2]);
    }
  }

  /** The tuples popped so far are in order and none is greater than any
      tuple still to come (the head of a list or anything after it). */
  ghost predicate Ordered(lists: seq<seq<Entry>>, cur: seq<nat>, popped: seq<KItem>)
    requires CursorOk(lists, cur)
  {
    (forall a, b :: 0 <= a < b < |popped| ==> KLe(popped[a], popped[b])) &&
    (forall a, li, j :: 0 <= a < |popped| && 0 <= li < |lists| && cur[li] <= j < |lists[li]| ==>
      KLe(popped[a], HeapItem(lists, li, j)))
  }

  /** Popping the least head keeps `Ordered` when the lists are best-first. */
  lemma OrderStep(lists: seq<seq<Entry>>, cur: seq<nat>, popped: seq<KItem>, heap: seq<KItem>, x: KItem)
    requires CursorOk(lists, cur) && AllSorted(lists) && Ordered(lists, cur, popped)
    requires multiset(heap) == Heads(lists, cur, |lists|)
    requires x in heap && forall y :: y in heap ==> KLe(x, y)
    ensures IsItem(lists, x) && cur[x.list] == x.pos
    ensures CursorOk(lists, cur[x.list := x.pos + 1])
    ensures Ordered(lists, cur[x.list := x.pos + 1], popped + [x])
  {
    HeadsMember(lists, cur, |lists|, x);
    var c := cur[x.list := x.pos + 1];
    var p := popped + [x];
    forall a, li, j | 0 <= a < |p| && 0 <= li < |lists| && c[li] <= j < |lists[li]|
      ensures KLe(p[a], HeapItem(lists, li, j))
    {
      if a == |popped| {
        HeadIn(lists, cur, |lists|, li);
        assert KLe(x, HeapItem(lists, li, cur[li]));
        SortedItems(lists, li, cur[li], j);
      }
    }
    forall a, b | 0 <= a < b < |p|
      ensures KLe(p[a], p[b])
    {
      if b == |popped| {
        assert KLe(popped[a], HeapItem(lists, x.list, x.pos));
      }
    }
  }

  /** The state of the merge loop: cursors, the heap of heads, the items
      emitted so far (`r`, with the tuples they came from in `popped`). */
  ghost predicate LoopInv(lists: seq<seq<Entry>>, cur: seq<nat>, h: seq<KItem>, r: seq<Entry>, popped: seq<KItem>)
  {
    CursorOk(lists, cur) &&
    MinHeap.IsHeap(KOrder(), h) &&
    multiset(h) == Heads(lists, cur, |lists|) &&
    multiset(r) == Taken(lists, cur, |lists|) &&
    |popped| == |r| &&
    (forall k :: 0 <= k < |r| ==> popped[k].e == r[k] && IsItem(lists, popped[k])) &&
    (AllSorted(lists) ==> Ordered(lists, cur, popped))
  }

  /** Popping the least tuple `x` off the heap `h` leaves `rest`; `h2` is
      `rest` with the next item of `x`'s list pushed, if there is one.  One
      such round keeps the loop state and leaves one item fewer. */
  lemma LoopStep(lists: seq<seq<Entry>>, cur: seq<nat>, h: seq<KItem>, r: seq<Entry>, popped: seq<KItem>,
                 x: KItem, rest: seq<KItem>, h2: seq<KItem>)
    requires LoopInv(lists, cur, h, r, popped)
    requires x in h && forall y :: y in h ==> KLe(x, y)
    requires multiset(rest) + multiset{x} == multiset(h)
    requires IsItem(lists, x) && cur[x.list] == x.pos
    requires CursorOk(lists, cur[x.list := x.pos + 1])
    requires MinHeap.IsHeap(KOrder(), h2)
    requires multiset(h2) == multiset(rest) + Head(lists, cur[x.list := x.pos + 1], x.list)
    ensures LoopInv(lists, cur[x.list := x.pos + 1], h2, r + [x.e], popped + [x])
    ensures Left(lists, cur[x.list := x.pos + 1], |lists|) < Left(lists, cur, |lists|)
  {
    var c := cur[x.list := x.pos + 1];
    if AllSorted(lists) {
      OrderStep(lists, cur, popped, h, x);
    }
    TakenStep(lists, cur, c, r, x);
    AdvanceLeft(lists, cur, c, |lists|, x.list);
    HeapStep(lists, cur, c, h, x, rest, h2);
    var r' := r + [x.e];
    var p' := popped + [x];
    assert forall k :: 0 <= k < |r'| ==> p'[k].e == r'[k] && IsItem(lists, p'[k]);
  }

  /** The heap after a round holds the heads of the advanced cursors. */
  lemma HeapStep(lists: seq<seq<Entry>>, cur: seq<nat>, c: seq<nat>, h: seq<KItem>, x: KItem, rest: seq<KItem>,
                 h2: seq<KItem>)
    requires CursorOk(lists, cur) && IsItem(lists, x) && cur[x.list] == x.pos
    requires c == cur[x.list := x.pos + 1] && CursorOk(lists, c)
    requires multiset(h) == Heads(lists, cur, |lists|)
    requires multiset(rest) + multiset{x} == multiset(h)
    requires multiset(h2) == multiset(rest) + Head(lists, c, x.list)
    ensures multiset(h2) == Heads(lists, c, |lists|)
  {
    AdvanceHeads(lists, cur, c, |lists|, x.list);
    assert Head(lists, cur, x.list) == multiset{x};
    MultisetReplace(Heads(lists, c, |lists|), multiset(h), multiset(rest), multiset(h2), multiset{x},
                    Head(lists, c, x.list));
  }

  /** The items emitted after a round are those before the advanced cursors. */
  lemma TakenStep(lists: seq<seq<Entry>>, cur: seq<nat>, c: seq<nat>, r: seq<Entry>, x: KItem)
    requires CursorOk(lists, cur) && IsItem(lists, x) && cur[x.list] == x.pos
    requires c == cur[x.list := x.pos + 1] && CursorOk(lists, c)
    requires multiset(r) == Taken(lists, cur, |lists|)
    ensures multiset(r + [x.e]) == Taken(lists, c, |lists|)
  {
    AdvanceTaken(lists, cur, c, |lists|, x.list);
    assert x.e == lists[x.list][cur[x.list]];
  }

  /** `a + x = h + y`, `h = rest + x` and `h2 = rest + y` give `a = h2`. */
  lemma MultisetReplace<X>(a: multiset<X>, h: multiset<X>, rest: multiset<X>, h2: multiset<X>, x: multiset<X>,
                           y: multiset<X>)
    requires a + x == h + y && h == rest + x && h2 == rest + y
    ensures a == h2
  {
    assert a + x == h2 + x;
    MultisetCancel(a, h2, x);
  }

  /** Tuples in order carry entries in best-first order. */
  lemma OrderedSorted(r: seq<Entry>, popped: seq<KItem>)
    requires |popped| == |r| && forall k :: 0 <= k < |r| ==> popped[k].e == r[k] && popped[k].nv1 == -r[k].score && popped[k].nv2 == -r[k].visited
    requires forall a, b :: 0 <= a < b < |popped| ==> KLe(popped[a], popped[b])
    ensures SortedDesc(r)
  {
    forall i, j | 0 <= i < j < |r|
      ensures RanksAtLeast(r[i], r[j])
    {
      assert KLe(popped[i], popped[j]);
    }
  }

  /** The first loop of `k_way_merge_descending`: push the first item of
      every non-empty list. */
  method PushHeads(lists: seq<seq<Entry>>) returns (h: MinHeap.MinHeap<KItem>, ghost cur: seq<nat>)
    ensures CursorOk(lists, cur) && forall li :: 0 <= li < |lists| ==> cur[li] == 0
    ensures MinHeap.IsHeap(KOrder(), h.items)
    ensures multiset(h.items) == Heads(lists, cur, |lists|)
  {
    KOrderIsTotalPreorder();
    cur := seq(|lists|, _ => 0);
    h := MinHeap.Empty<KItem>();
    var i := 0;
    while i < |lists|
      invariant 0 <= i <= |lists| && CursorOk(lists, cur)
      invariant forall li :: 0 <= li < |lists| ==> cur[li] == 0
      invariant MinHeap.IsHeap(KOrder(), h.items)
      invariant multiset(h.items) == Heads(lists, cur, i)
    {
      h := PushHead(lists, cur, i, h);
      i := i + 1;
    }
  }

  /** One round of the first loop: push the first item of list `i`, if any. */
  method PushHead(lists: seq<seq<Entry>>, ghost cur: seq<nat>, i: nat, h: MinHeap.MinHeap<KItem>)
    returns (h2: MinHeap.MinHeap<KItem>)
    requires CursorOk(lists, cur) && i < |lists| && cur[i] == 0
    requires MinHeap.IsHeap(KOrder(), h.items) && multiset(h.items) == Heads(lists, cur, i)
    ensures MinHeap.IsHeap(KOrder(), h2.items) && multiset(h2.items) == Heads(lists, cur, i + 1)
  {
    KOrderIsTotalPreorder();
    h2 := h;
    if |lists[i]| > 0 {
      MinHeap.PushHeap(KOrder(), h, HeapItem(lists, i, 0));
      h2 := MinHeap.Push(KOrder(), h, HeapItem(lists, i, 0));
    }
    PushStep(lists, cur, i, h.items, h2.items);
  }

  /** One round of the first loop adds the head of list `i` to the heap. */
  lemma PushStep(lists: seq<seq<Entry>>, cur: seq<nat>, i: nat, before: seq<KItem>, after: seq<KItem>)
    requires CursorOk(lists, cur) && i < |lists| && cur[i] == 0
    requires multiset(before) == Heads(lists, cur, i)
    requires |lists[i]| > 0 ==> multiset(after) == multiset(before) + multiset{HeapItem(lists, i, 0)}
    requires |lists[i]| == 0 ==> after == before
    ensures multiset(after) == Heads(lists, cur, i + 1)
  {
    var hd := Head(lists, cur, i);
    if |lists[i]| > 0 {
      assert hd == multiset{HeapItem(lists, i, 0)};
    } else {
      assert hd == multiset{};
    }
    MultisetStep(Heads(lists, cur, i + 1), Heads(lists, cur, i), hd, multiset(after), multiset(before), hd,
                 multiset{}, multiset{});
  }

  /** Before the first pop nothing is taken and nothing is popped. */
  lemma StartInv(lists: seq<seq<Entry>>, cur: seq<nat>, h: seq<KItem>)
    requires CursorOk(lists, cur) && forall li :: 0 <= li < |lists| ==> cur[li] == 0
    requires MinHeap.IsHeap(KOrder(), h) && multiset(h) == Heads(lists, cur, |lists|)
    ensures LoopInv(lists, cur, h, [], [])
  {
    TakenNone(lists, cur, |lists|);
  }

  /** The second loop: pop the least tuple, emit its item, push the next
      item of its list; until the heap is empty. */
  method PopAll(lists: seq<seq<Entry>>, h0: MinHeap.MinHeap<KItem>, ghost cur0: seq<nat>)
    returns (r: seq<Entry>, ghost popped: seq<KItem>, ghost cur: seq<nat>)
    requires LoopInv(lists, cur0, h0.items, [], [])
    ensures LoopInv(lists, cur, [], r, popped)
  {
    KOrderIsTotalPreorder();
    var h := h0;
    cur := cur0;
    r := [];
    popped := [];
    while !MinHeap.IsEmpty(h)
      invariant LoopInv(lists, cur, h.items, r, popped)
      decreases Left(lists, cur, |lists|)
    {
      var x;
      ghost var c;
      h, x, c := PopRound(lists, h, cur, r, popped);
      r := r + [x.e];
      popped := popped + [x];
      cur := c;
    }
  }

  /** One round of the second loop: pop the least tuple `x` and push the
      next item of its list, if any. */
  method PopRound(lists: seq<seq<Entry>>, h: MinHeap.MinHeap<KItem>, ghost cur: seq<nat>, ghost r: seq<Entry>,
                  ghost popped: seq<KItem>)
    returns (h2: MinHeap.MinHeap<KItem>, x: KItem, ghost c: seq<nat>)
    requires LoopInv(lists, cur, h.items, r, popped) && !MinHeap.IsEmpty(h)
    ensures LoopInv(lists, c, h2.items, r + [x.e], popped + [x])
    ensures Left(lists, c, |lists|) < Left(lists, cur, |lists|)
  {
    PopFacts(lists, h, cur, r, popped);
    var res := MinHeap.Pop(KOrder(), h);
    x := res.value.0;
    c := cur[x.list := x.pos + 1];
    h2 := Refill(lists, res.value.1, x);
    RefillFacts(lists, cur, res.value.1, x);
    LoopStep(lists, cur, h.items, r, popped, x, res.value.1.items, h2.items);
  }

  /** The item popped is the least of the heap and the head of its list. */
  lemma PopFacts(lists: seq<seq<Entry>>, h: MinHeap.MinHeap<KItem>, cur: seq<nat>, r: seq<Entry>, popped: seq<KItem>)
    requires LoopInv(lists, cur, h.items, r, popped) && !MinHeap.IsEmpty(h)
    ensures MinHeap.Pop(KOrder(), h).Ok?
    ensures var (x, rest) := MinHeap.Pop(KOrder(), h).value;
      x in h.items && (forall y :: y in h.items ==> KLe(x, y)) &&
      multiset(rest.items) + multiset{x} == multiset(h.items) && MinHeap.IsHeap(KOrder(), rest.items) &&
      IsItem(lists, x) && cur[x.list] == x.pos && CursorOk(lists, cur[x.list := x.pos + 1])
  {
    KOrderIsTotalPreorder();
    MinHeap.PopMin(KOrder(), h);
    var x := MinHeap.Pop(KOrder(), h).value.0;
    assert x in h.items by {
      assert multiset(MinHeap.Pop(KOrder(), h).value.1.items) + multiset{x} == multiset(h.items);
    }
    HeadsMember(lists, cur, |lists|, x);
    CursorAdvance(lists, cur, x.list);
  }

  /** `heappush` of the next item of the popped item's list, if it has one. */
  function Refill(lists: seq<seq<Entry>>, rest: MinHeap.MinHeap<KItem>, x: KItem): MinHeap.MinHeap<KItem>
    requires x.list < |lists|
  {
    if x.pos + 1 < |lists[x.list]| then MinHeap.Push(KOrder(), rest, HeapItem(lists, x.list, x.pos + 1))
    else rest
  }

  lemma RefillFacts(lists: seq<seq<Entry>>, cur: seq<nat>, rest: MinHeap.MinHeap<KItem>, x: KItem)
    requires MinHeap.IsHeap(KOrder(), rest.items) && IsItem(lists, x) && |cur| == |lists|
    requires CursorOk(lists, cur[x.list := x.pos + 1])
    ensures MinHeap.IsHeap(KOrder(), Refill(lists, rest, x).items)
    ensures multiset(Refill(lists, rest, x).items) == multiset(rest.items) + Head(lists, cur[x.list := x.pos + 1], x.list)
  {
    var c := cur[x.list := x.pos + 1];
    assert c[x.list] == x.pos + 1;
    if x.pos + 1 < |lists[x.list]| {
      var y := HeapItem(lists, x.list, x.pos + 1);
      assert Head(lists, c, x.list) == multiset{y};
      assert Refill(lists, rest, x) == MinHeap.Push(KOrder(), rest, y);
      assert MinHeap.IsHeap(KOrder(), MinHeap.Push(KOrder(), rest, y).items) by {
        KOrderIsTotalPreorder();
        MinHeap.PushHeap(KOrder(), rest, y);
      }
    } else {
      assert Head(lists, c, x.list) == multiset{};
    }
  }

  /** Once the heap is empty, the loop state gives the contract of the merge. */
  lemma Finish(lists: seq<seq<Entry>>, cur: seq<nat>, r: seq<Entry>, popped: seq<KItem>)
    requires LoopInv(lists, cur, [], r, popped)
    ensures multiset(r) == multiset(Flatten(lists))
    ensures AllSorted(lists) ==> SortedDesc(r)
  {
    NoHeadsAllTaken(lists, cur);
    TakenAll(lists, cur, |lists|);
    assert lists[..|lists|] == lists;
    if AllSorted(lists) {
      OrderedSorted(r, popped);
    }
  }

  /** `k_way_merge_descending(list_of_lists)`: `[]` for no lists; otherwise
      every item of every list exactly once.  When each list is best-first
      the result is best-first, and `popped` (the heap tuples in the order
      they were popped) is in tuple order, so items with equal keys come out
      by list index, then by position. */
  method KWayMergeDescending(lists: seq<seq<Entry>>) returns (r: seq<Entry>, ghost popped: seq<KItem>)
    ensures lists == [] ==> r == []
    ensures multiset(r) == multiset(Flatten(lists))
    ensures |popped| == |r|
    ensures forall k :: 0 <= k < |r| ==> popped[k].e == r[k] && IsItem(lists, popped[k])
    ensures AllSorted(lists) ==> SortedDesc(r)
    ensures AllSorted(lists) ==> forall a, b :: 0 <= a < b < |r| ==> KLe(popped[a], popped[b])
  {
    if |lists| == 0 {
      return [], [];
    }
    var h, cur := PushHeads(lists);
    StartInv(lists, cur, h.items);
    ghost var cur';
    r, popped, cur' := PopAll(lists, h, cur);
    Finish(lists, cur', r, popped);
  }
}

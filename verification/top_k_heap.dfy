/** The indexed best-first heap `TopKHeap` of module/data_structure/indexHeap.py.

    Items are ranked by `Ranking.Compare` (score, then visited_time, both
    descending); `indexMap` records the heap position of every item id and is
    kept up to date by every swap on the live heap.  The sifts have the same
    shape as those of `MinHeap` under the order `Ranking.Higher()`, and each
    sift here is proved to produce exactly the heap `MinHeap`'s sift produces,
    so the heap-order results of that module carry over.
 */
module TopKHeap {
  import opened Ranking
  import MinHeap

  datatype TopKHeap = TopKHeap(heap: seq<Entry>, indexMap: map<int, nat>)

  /** `indexMap` maps exactly the ids in the heap to their positions; in
      particular no id occurs twice. */
  predicate Consistent(s: TopKHeap)
  {
    (forall i :: 0 <= i < |s.heap| ==> s.heap[i].id in s.indexMap && s.indexMap[s.heap[i].id] == i) &&
    (forall id :: id in s.indexMap ==> s.indexMap[id] < |s.heap| && s.heap[s.indexMap[id]].id == id)
  }

  ghost predicate Valid(s: TopKHeap)
  {
    Consistent(s) && MinHeap.IsHeap(Higher(), s.heap)
  }

  function Empty(): (r: TopKHeap)
    ensures Valid(r) && Size(r) == 0
  {
    TopKHeap([], map[])
  }

  function Size(s: TopKHeap): nat
  {
    |s.heap|
  }

  /** `_swap(i, j)`: swap two items and record both new positions. */
  function Swap(s: TopKHeap, i: nat, j: nat): (r: TopKHeap)
    requires i < |s.heap| && j < |s.heap|
    ensures r.heap == MinHeap.Swap(s.heap, i, j)
    ensures Consistent(s) ==> Consistent(r) && r.indexMap.Keys == s.indexMap.Keys
  {
    var h := MinHeap.Swap(s.heap, i, j);
    TopKHeap(h, s.indexMap[h[i].id := i][h[j].id := j])
  }

  /** `_siftUp(index)`: move the item up while it ranks strictly higher than
      its parent. */
  function SiftUp(s: TopKHeap, i: nat): (r: TopKHeap)
    requires i < |s.heap|
    ensures r.heap == MinHeap.SiftUp(Higher(), s.heap, i)
    ensures Consistent(s) ==> Consistent(r) && r.indexMap.Keys == s.indexMap.Keys
    decreases i
  {
    if i > 0 && Compare(s.heap[i], s.heap[MinHeap.Parent(i)]) > 0 then
      SiftUp(Swap(s, i, MinHeap.Parent(i)), MinHeap.Parent(i))
    else s
  }

  /** The position `_siftDown` moves the item at `i` to: the higher-ranked
      child when it ranks strictly higher, the left one on ties. */
  function Largest(h: seq<Entry>, i: nat): (m: nat)
    requires i < |h|
    ensures m == MinHeap.Smallest(Higher(), h, i)
  {
    var l, r := 2 * i + 1, 2 * i + 2;
    var m1 := if l < |h| && Compare(h[l], h[i]) > 0 then l else i;
    if r < |h| && Compare(h[r], h[m1]) > 0 then r else m1
  }

  /** `_siftDown(self.heap, index)`: move the item down, updating `indexMap`
      at every swap. */
  function SiftDown(s: TopKHeap, i: nat): (r: TopKHeap)
    requires i < |s.heap|
    ensures r.heap == MinHeap.SiftDown(Higher(), s.heap, i)
    ensures Consistent(s) ==> Consistent(r) && r.indexMap.Keys == s.indexMap.Keys
    decreases |s.heap| - i
  {
    var m := Largest(s.heap, i);
    if m != i then SiftDown(Swap(s, i, m), m) else s
  }

  /** `insert(item_id, score, visited_time)`: append, record the position,
      sift up.  An id already present is not rejected. */
  function Insert(s: TopKHeap, id: int, score: int, visited: int): (r: TopKHeap)
    ensures Size(r) == Size(s) + 1
    ensures multiset(r.heap) == multiset(s.heap) + multiset{Entry(id, score, visited)}
    ensures Consistent(s) && id !in s.indexMap ==> Consistent(r)
  {
    var item := Entry(id, score, visited);
    var s1 := TopKHeap(s.heap + [item], s.indexMap[id := |s.heap|]);
    assert Consistent(s) && id !in s.indexMap ==> Consistent(s1) by {
      if Consistent(s) && id !in s.indexMap {
        forall i | 0 <= i < |s1.heap|
          ensures s1.heap[i].id in s1.indexMap && s1.indexMap[s1.heap[i].id] == i
        {
          if i < |s.heap| {
            assert s.heap[i].id in s.indexMap;
          }
        }
      }
    }
    SiftUp(s1, |s.heap|)
  }

  /** `insert` of a fresh id keeps the heap order and the index map. */
  lemma InsertValid(s: TopKHeap, id: int, score: int, visited: int)
    requires Valid(s) && id !in s.indexMap
    ensures Valid(Insert(s, id, score, visited))
  {
    HigherIsTotalPreorder();
    var item := Entry(id, score, visited);
    MinHeap.PushHeap(Higher(), MinHeap.MinHeap(s.heap), item);
    assert Insert(s, id, score, visited).heap == MinHeap.Push(Higher(), MinHeap.MinHeap(s.heap), item).items;
  }

  /** The first `n` items a sequence of `pop`s on a copy of the heap yields. */
  function PopN(h: seq<Entry>, n: nat): (r: seq<Entry>)
    requires n <= |h|
    ensures r == MinHeap.Drain(Higher(), MinHeap.MinHeap(h))[..n]
    decreases n
  {
    if n == 0 then []
    else
      var p := MinHeap.Pop(Higher(), MinHeap.MinHeap(h)).value;
      var rest := PopN(p.1.items, n - 1);
      var d := MinHeap.Drain(Higher(), p.1);
      assert MinHeap.Drain(Higher(), MinHeap.MinHeap(h)) == [p.0] + d by {
        MinHeap.DrainStep(Higher(), MinHeap.MinHeap(h));
      }
      ConsPrefix(p.0, d, rest, n);
      [p.0] + rest
  }

  lemma ConsPrefix(x: Entry, d: seq<Entry>, rest: seq<Entry>, n: nat)
    requires 1 <= n && n - 1 <= |d| && rest == d[..n - 1]
    ensures [x] + rest == ([x] + d)[..n]
  {
  }

  /** `getTopK(k)`: `[]` when k <= 0 or the heap is empty; otherwise the first
      `min(k, size)` items popped from a copy of the heap.  The heap itself is
      a value here and is not changed. */
  function GetTopK(s: TopKHeap, k: int): (r: seq<Entry>)
    ensures k <= 0 || Size(s) == 0 ==> r == []
    ensures k > 0 ==> |r| == if k < Size(s) then k else Size(s)
    ensures multiset(r) <= multiset(s.heap)
  {
    if k <= 0 || |s.heap| == 0 then []
    else
      var n := if k < |s.heap| then k else |s.heap|;
      var d := MinHeap.Drain(Higher(), MinHeap.MinHeap(s.heap));
      assert d == d[..n] + d[n..];
      PopN(s.heap, n)
  }

  /** A prefix of a best-first list outranks the rest of it. */
  lemma PrefixOutranks(d: seq<Entry>, n: nat)
    requires SortedDesc(d) && n <= |d|
    ensures SortedDesc(d[..n])
    ensures forall x, y :: x in d[..n] && y in multiset(d) - multiset(d[..n]) ==> RanksAtLeast(x, y)
  {
    assert d == d[..n] + d[n..];
    assert multiset(d) - multiset(d[..n]) == multiset(d[n..]);
    forall x, y | x in d[..n] && y in multiset(d[n..])
      ensures RanksAtLeast(x, y)
    {
      var i :| 0 <= i < n && d[..n][i] == x;
      var j :| 0 <= j < |d[n..]| && d[n..][j] == y;
      assert d[i] == x && d[n + j] == y;
    }
  }

  /** On a valid heap `getTopK` lists the best items best-first: the result is
      ordered by `_compare`, and every item left out ranks no higher than
      every item returned. */
  lemma GetTopKBest(s: TopKHeap, k: int)
    requires Valid(s)
    ensures SortedDesc(GetTopK(s, k))
    ensures forall x, y :: x in GetTopK(s, k) && y in multiset(s.heap) - multiset(GetTopK(s, k)) ==>
      RanksAtLeast(x, y)
  {
    if k > 0 && |s.heap| > 0 {
      HigherIsTotalPreorder();
      var d := MinHeap.Drain(Higher(), MinHeap.MinHeap(s.heap));
      MinHeap.DrainSorted(Higher(), MinHeap.MinHeap(s.heap));
      SortedDescIsSorted(d);
      var n := if k < |s.heap| then k else |s.heap|;
      PrefixOutranks(d, n);
      assert GetTopK(s, k) == d[..n] by {
        assert GetTopK(s, k) == PopN(s.heap, n);
      }
    }
  }

  /** An item of a consistent heap is the one stored at its id's position. */
  lemma ItemAtIdPosition(s: TopKHeap, y: Entry)
    requires Consistent(s) && y in s.heap
    ensures y.id in s.indexMap && s.heap[s.indexMap[y.id]] == y
  {
    var k :| 0 <= k < |s.heap| && s.heap[k] == y;
  }

  /** Replace the item at `i` by `x` (same id) and sift it up or down, the
      common tail of the two update operations. */
  function Resift(s: TopKHeap, i: nat, x: Entry, up: bool): (r: TopKHeap)
    requires Consistent(s) && i < |s.heap| && x.id == s.heap[i].id
    ensures Consistent(r) && r.indexMap.Keys == s.indexMap.Keys
    ensures r.heap[r.indexMap[x.id]] == x
    ensures multiset(r.heap) == multiset(s.heap) - multiset{s.heap[i]} + multiset{x}
  {
    var s1 := TopKHeap(s.heap[i := x], s.indexMap);
    assert Consistent(s1);
    var r := if up then SiftUp(s1, i) else SiftDown(s1, i);
    assert multiset(r.heap) == multiset(s1.heap);
    var y := r.heap[r.indexMap[x.id]];
    assert y in multiset(s1.heap);
    ItemAtIdPosition(s1, y);
    r
  }

  /** Raising the key of one item leaves only the edge to its parent out of
      order. */
  lemma RaiseKey(h: seq<Entry>, i: nat, x: Entry)
    requires MinHeap.IsHeap(Higher(), h) && i < |h| && RanksAtLeast(x, h[i])
    ensures MinHeap.UpInv(Higher(), h[i := x], i)
  {
  }

  /** Lowering the key of one item leaves only the edges to its children out
      of order. */
  lemma LowerKey(h: seq<Entry>, i: nat, x: Entry)
    requires MinHeap.IsHeap(Higher(), h) && i < |h| && RanksAtLeast(h[i], x)
    ensures MinHeap.DownInv(Higher(), h[i := x], 0, i)
  {
    if i > 0 {
      assert RanksAtLeast(h[MinHeap.Parent(i)], h[i]);
    }
  }

  /** Sifting up after a raise, or down after a lowering, restores the order. */
  lemma ResiftValid(s: TopKHeap, i: nat, x: Entry, up: bool)
    requires Valid(s) && i < |s.heap| && x.id == s.heap[i].id
    requires up ==> RanksAtLeast(x, s.heap[i])
    requires !up ==> RanksAtLeast(s.heap[i], x)
    ensures Valid(Resift(s, i, x, up))
  {
    HigherIsTotalPreorder();
    if up {
      RaiseKey(s.heap, i, x);
      MinHeap.SiftUpHeap(Higher(), s.heap[i := x], i);
    } else {
      LowerKey(s.heap, i, x);
      MinHeap.SiftDownHeap(Higher(), s.heap[i := x], 0, i);
    }
  }

  /** `updateScore(item_id, new_score)`: False and no change for an unknown
      id; otherwise the score is replaced and the item sifted up when the
      score rose, down otherwise. */
  function UpdateScore(s: TopKHeap, id: int, newScore: int): (res: (bool, TopKHeap))
    requires Consistent(s)
    ensures res.0 <==> id in s.indexMap
    ensures !res.0 ==> res.1 == s
    ensures res.0 ==> Consistent(res.1) && res.1.indexMap.Keys == s.indexMap.Keys
    ensures res.0 ==> var prev := s.heap[s.indexMap[id]];
      res.1.heap[res.1.indexMap[id]] == prev.(score := newScore) &&
      multiset(res.1.heap) == multiset(s.heap) - multiset{prev} + multiset{prev.(score := newScore)}
  {
    if id !in s.indexMap then (false, s)
    else
      var i := s.indexMap[id];
      (true, Resift(s, i, s.heap[i].(score := newScore), newScore > s.heap[i].score))
  }

  /** `updateScore` keeps the heap order and the index map. */
  lemma UpdateScoreValid(s: TopKHeap, id: int, newScore: int)
    requires Valid(s)
    ensures Valid(UpdateScore(s, id, newScore).1)
  {
    if id in s.indexMap {
      var i := s.indexMap[id];
      ResiftValid(s, i, s.heap[i].(score := newScore), newScore > s.heap[i].score);
    }
  }

  /** `updateVisitedTime(item_id, increment)`: False for an unknown id;
      otherwise visited_time is OVERWRITTEN with the argument (not
      incremented) and the item is only sifted up. */
  function UpdateVisitedTime(s: TopKHeap, id: int, value: int): (res: (bool, TopKHeap))
    requires Consistent(s)
    ensures res.0 <==> id in s.indexMap
    ensures !res.0 ==> res.1 == s
    ensures res.0 ==> Consistent(res.1) && res.1.indexMap.Keys == s.indexMap.Keys
    ensures res.0 ==> var prev := s.heap[s.indexMap[id]];
      res.1.heap[res.1.indexMap[id]] == prev.(visited := value) &&
      multiset(res.1.heap) == multiset(s.heap) - multiset{prev} + multiset{prev.(visited := value)}
  {
    if id !in s.indexMap then (false, s)
    else
      var i := s.indexMap[id];
      (true, Resift(s, i, s.heap[i].(visited := value), true))
  }

  /** With a value not below the current visited_time (what the callers in
      module/Spot_class.py pass) the heap order is kept. */
  lemma UpdateVisitedTimeValid(s: TopKHeap, id: int, value: int)
    requires Valid(s)
    requires id in s.indexMap ==> value >= s.heap[s.indexMap[id]].visited
    ensures Valid(UpdateVisitedTime(s, id, value).1)
  {
    if id in s.indexMap {
      var i := s.indexMap[id];
      ResiftValid(s, i, s.heap[i].(visited := value), true);
    }
  }

  /** With a smaller value the root can end up below its child: a two-item
      heap whose root has its visit count lowered to 1, as the default
      `increment=1` does. */
  lemma UpdateVisitedTimeBreaksOrder()
    ensures var s := Insert(Insert(Empty(), 1, 5, 10), 2, 5, 8);
      Valid(s) && !Valid(UpdateVisitedTime(s, 1, 1).1)
  {
    TwoItems();
    var s := Insert(Insert(Empty(), 1, 5, 10), 2, 5, 8);
    RootLowered(s);
    var r := UpdateVisitedTime(s, 1, 1).1;
    assert !Higher()(r.heap[MinHeap.Parent(1)], r.heap[1]);
  }

  /** The two-item heap of the example, built by two inserts. */
  lemma TwoItems()
    ensures var s := Insert(Insert(Empty(), 1, 5, 10), 2, 5, 8);
      Valid(s) && s.heap == [Entry(1, 5, 10), Entry(2, 5, 8)] && s.indexMap == map[1 := 0, 2 := 1]
  {
    var s0 := Insert(Empty(), 1, 5, 10);
    FirstInsert();
    InsertValid(Empty(), 1, 5, 10);
    SecondInsert(s0);
    InsertValid(s0, 2, 5, 8);
  }

  lemma FirstInsert()
    ensures Insert(Empty(), 1, 5, 10) == TopKHeap([Entry(1, 5, 10)], map[1 := 0])
  {
  }

  /** The second item ranks lower than the first and stays below it. */
  lemma SecondInsert(s0: TopKHeap)
    requires s0 == TopKHeap([Entry(1, 5, 10)], map[1 := 0])
    ensures Insert(s0, 2, 5, 8) == TopKHeap([Entry(1, 5, 10), Entry(2, 5, 8)], map[1 := 0, 2 := 1])
  {
    var s1 := TopKHeap(s0.heap + [Entry(2, 5, 8)], s0.indexMap[2 := 1]);
    assert Compare(s1.heap[1], s1.heap[MinHeap.Parent(1)]) < 0;
  }

  /** Lowering the root's visit count to 1 leaves it in place. */
  lemma RootLowered(s: TopKHeap)
    requires s.heap == [Entry(1, 5, 10), Entry(2, 5, 8)] && s.indexMap == map[1 := 0, 2 := 1]
    ensures UpdateVisitedTime(s, 1, 1).1.heap == [Entry(1, 5, 1), Entry(2, 5, 8)]
  {
  }

  /** The update with the sift direction chosen as `updateScore` chooses it:
      up when the item now ranks higher, down otherwise. */
  function UpdateVisitedTimeRestoring(s: TopKHeap, id: int, value: int): (res: (bool, TopKHeap))
    requires Consistent(s)
    ensures res.0 <==> id in s.indexMap
    ensures !res.0 ==> res.1 == s
    ensures res.0 ==> Consistent(res.1) && res.1.indexMap.Keys == s.indexMap.Keys
    ensures res.0 ==> var prev := s.heap[s.indexMap[id]];
      res.1.heap[res.1.indexMap[id]] == prev.(visited := value) &&
      multiset(res.1.heap) == multiset(s.heap) - multiset{prev} + multiset{prev.(visited := value)}
  {
    if id !in s.indexMap then (false, s)
    else
      var i := s.indexMap[id];
      (true, Resift(s, i, s.heap[i].(visited := value), value > s.heap[i].visited))
  }

  /** The restoring update keeps the heap order for every value. */
  lemma UpdateVisitedTimeRestoringValid(s: TopKHeap, id: int, value: int)
    requires Valid(s)
    ensures Valid(UpdateVisitedTimeRestoring(s, id, value).1)
  {
    if id in s.indexMap {
      var i := s.indexMap[id];
      ResiftValid(s, i, s.heap[i].(visited := value), value > s.heap[i].visited);
    }
  }
}

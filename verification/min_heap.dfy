/** The array-backed binary heap `MinHeap` of module/data_structure/heap.py.

    The Python class compares elements with `<`; the model takes the order as
    a parameter `le` ("a is not greater than b"), so that the same heap serves
    the integer heap of heap.py, the tuple heaps of the k-way merge, Huffman
    and Dijkstra, and (with the order reversed) the ranking heap of
    indexHeap.py.  `a < b` in Python is `!le(b, a)` here.
 */
module MinHeap {
  import opened Wrappers

  datatype MinHeap<T> = MinHeap(items: seq<T>)

  /** `le` is total and transitive, as Python's `<` is on ints and on tuples
      of ints. */
  ghost predicate TotalPreorder<T(!new)>(le: (T, T) -> bool)
  {
    (forall a, b :: le(a, b) || le(b, a)) &&
    (forall a, b, c :: le(a, b) && le(b, c) ==> le(a, c))
  }

  ghost predicate Sorted<T>(le: (T, T) -> bool, s: seq<T>)
  {
    forall i, j :: 0 <= i < j < |s| ==> le(s[i], s[j])
  }

  /** `_parent(i)`: Python's `(i - 1) // 2`, which agrees with Dafny's `/`
      for `i > 0`. */
  function Parent(k: nat): nat
    requires k > 0
  {
    (k - 1) / 2
  }

  /** Every parent at index `lo` or above is not greater than its child. */
  ghost predicate HeapFrom<T>(le: (T, T) -> bool, h: seq<T>, lo: nat)
  {
    forall k :: 0 < k < |h| && lo <= Parent(k) ==> le(h[Parent(k)], h[k])
  }

  /** The heap property `heap[parent(k)] <= heap[k]` for every k. */
  ghost predicate IsHeap<T>(le: (T, T) -> bool, h: seq<T>)
  {
    HeapFrom(le, h, 0)
  }

  function Swap<T>(h: seq<T>, i: nat, j: nat): (r: seq<T>)
    requires i < |h| && j < |h|
    ensures |r| == |h| && r[i] == h[j] && r[j] == h[i]
    ensures forall k :: 0 <= k < |h| && k != i && k != j ==> r[k] == h[k]
    ensures multiset(r) == multiset(h)
  {
    h[i := h[j]][j := h[i]]
  }

  /** `_sift_up(i)`: swap the element with its parent while it is smaller. */
  function SiftUp<T>(le: (T, T) -> bool, h: seq<T>, i: nat): (r: seq<T>)
    requires i < |h|
    ensures |r| == |h| && multiset(r) == multiset(h)
    decreases i
  {
    if i > 0 && !le(h[Parent(i)], h[i]) then SiftUp(le, Swap(h, i, Parent(i)), Parent(i))
    else h
  }

  /** `_sift_down(i)`: swap the element with its smaller child while that
      child is smaller; ties keep the left child, as the Python code does. */
  function SiftDown<T>(le: (T, T) -> bool, h: seq<T>, i: nat): (r: seq<T>)
    requires i < |h|
    ensures |r| == |h| && multiset(r) == multiset(h)
    ensures r[..i] == h[..i]
    decreases |h| - i
  {
    var m := Smallest(le, h, i);
    if m != i then
      var h' := Swap(h, i, m);
      assert h'[..i] == h[..i];
      SiftDown(le, h', m)
    else h
  }

  /** The index among `i` and its children holding the smallest element,
      preferring `i`, then the left child. */
  function Smallest<T>(le: (T, T) -> bool, h: seq<T>, i: nat): (m: nat)
    requires i < |h|
    ensures m == i || (0 < m < |h| && Parent(m) == i)
  {
    var l, r := 2 * i + 1, 2 * i + 2;
    var m1 := if l < |h| && !le(h[i], h[l]) then l else i;
    if r < |h| && !le(h[m1], h[r]) then r else m1
  }

  /** The heap order holds everywhere except on the edges into `i`, and `i`'s
      parent is not greater than `i`'s children: the state `_sift_up` leaves
      behind at every step. */
  ghost predicate UpInv<T>(le: (T, T) -> bool, h: seq<T>, i: nat)
  {
    i < |h| &&
    (forall k :: 0 < k < |h| && k != i ==> le(h[Parent(k)], h[k])) &&
    (i > 0 ==> forall k :: 0 < k < |h| && Parent(k) == i ==> le(h[Parent(i)], h[k]))
  }

  /** The heap order holds on every edge from a parent at `lo` or above other
      than `i`, and `i`'s parent (when at `lo` or above) is not greater than
      `i`'s children. */
  ghost predicate DownInv<T>(le: (T, T) -> bool, h: seq<T>, lo: nat, i: nat)
  {
    lo <= i < |h| &&
    (forall k :: 0 < k < |h| && lo <= Parent(k) && Parent(k) != i ==> le(h[Parent(k)], h[k])) &&
    (i > 0 && lo <= Parent(i) ==> forall k :: 0 < k < |h| && Parent(k) == i ==> le(h[Parent(i)], h[k]))
  }

  /** `_sift_up` restores the heap property when only index `i` is out of place. */
  lemma {:induction false} SiftUpHeap<T(!new)>(le: (T, T) -> bool, h: seq<T>, i: nat)
    requires TotalPreorder(le) && UpInv(le, h, i)
    ensures IsHeap(le, SiftUp(le, h, i))
    decreases i
  {
    if i > 0 && !le(h[Parent(i)], h[i]) {
      var p := Parent(i);
      var h' := Swap(h, i, p);
      forall k | 0 < k < |h'| && k != p
        ensures le(h'[Parent(k)], h'[k])
      {
        if k == i {
        } else if Parent(k) == i {
          assert le(h[p], h[k]);
        } else if Parent(k) == p {
          assert le(h[p], h[k]);
        }
      }
      if p > 0 {
        forall k | 0 < k < |h'| && Parent(k) == p
          ensures le(h'[Parent(p)], h'[k])
        {
          assert le(h[Parent(p)], h[p]);
          if k != i {
            assert le(h[p], h[k]);
          }
        }
      }
      SiftUpHeap(le, h', p);
    }
  }

  /** `_sift_down` restores the heap property when only index `i` is out of
      place. */
  lemma {:induction false} SiftDownHeap<T(!new)>(le: (T, T) -> bool, h: seq<T>, lo: nat, i: nat)
    requires TotalPreorder(le) && DownInv(le, h, lo, i)
    ensures HeapFrom(le, SiftDown(le, h, i), lo)
    decreases |h| - i
  {
    var m := Smallest(le, h, i);
    var l, r := 2 * i + 1, 2 * i + 2;
    // The chosen index holds the smallest of `i` and its children.
    assert forall k :: 0 < k < |h| && Parent(k) == i ==> k == l || k == r;
    assert le(h[m], h[i]);
    assert l < |h| ==> le(h[m], h[l]);
    assert r < |h| ==> le(h[m], h[r]);
    if m != i {
      var h' := Swap(h, i, m);
      forall k | 0 < k < |h'| && lo <= Parent(k) && Parent(k) != m
        ensures le(h'[Parent(k)], h'[k])
      {
        if k == i {
          assert le(h[Parent(i)], h[m]);
        } else if Parent(k) == i {
        }
      }
      forall k | 0 < k < |h'| && Parent(k) == m
        ensures le(h'[Parent(m)], h'[k])
      {
        assert le(h[m], h[k]);
      }
      SiftDownHeap(le, h', lo, m);
    } else {
      forall k | 0 < k < |h| && lo <= Parent(k)
        ensures le(h[Parent(k)], h[k])
      {
      }
    }
  }

  function Empty<T>(): (r: MinHeap<T>)
    ensures Size(r) == 0
  {
    MinHeap([])
  }

  function Size<T>(h: MinHeap<T>): nat
  {
    |h.items|
  }

  predicate IsEmpty<T>(h: MinHeap<T>)
  {
    |h.items| == 0
  }

  /** `push(item)`: append, then sift up. */
  function Push<T>(le: (T, T) -> bool, h: MinHeap<T>, x: T): (r: MinHeap<T>)
    ensures Size(r) == Size(h) + 1
    ensures multiset(r.items) == multiset(h.items) + multiset{x}
  {
    MinHeap(SiftUp(le, h.items + [x], |h.items|))
  }

  /** `push` keeps the heap property. */
  lemma PushHeap<T(!new)>(le: (T, T) -> bool, h: MinHeap<T>, x: T)
    requires TotalPreorder(le) && IsHeap(le, h.items)
    ensures IsHeap(le, Push(le, h, x).items)
  {
    var s := h.items + [x];
    assert UpInv(le, s, |h.items|);
    SiftUpHeap(le, s, |h.items|);
  }

  /** `pop()`: IndexError on an empty heap; otherwise the root, with the last
      element moved to the root and sifted down. */
  function Pop<T>(le: (T, T) -> bool, h: MinHeap<T>): (r: Result<(T, MinHeap<T>)>)
    ensures IsEmpty(h) <==> r == Err(IndexError)
    ensures r.Ok? ==> Size(r.value.1) == Size(h) - 1
    ensures r.Ok? ==> multiset(r.value.1.items) + multiset{r.value.0} == multiset(h.items)
  {
    var n := |h.items|;
    if n == 0 then Err(IndexError)
    else if n == 1 then Ok((h.items[0], MinHeap([])))
    else
      var moved := h.items[..n - 1][0 := h.items[n - 1]];
      assert h.items == [h.items[0]] + h.items[1..n - 1] + [h.items[n - 1]];
      assert moved == [h.items[n - 1]] + h.items[1..n - 1];
      Ok((h.items[0], MinHeap(SiftDown(le, moved, 0))))
  }

  /** `peek()`: IndexError on an empty heap; otherwise the root. */
  function Peek<T>(h: MinHeap<T>): (r: Result<T>)
    ensures IsEmpty(h) <==> r == Err(IndexError)
  {
    if |h.items| == 0 then Err(IndexError) else Ok(h.items[0])
  }

  lemma {:induction false} RootMin<T(!new)>(le: (T, T) -> bool, h: seq<T>, k: nat)
    requires TotalPreorder(le) && IsHeap(le, h) && k < |h|
    ensures le(h[0], h[k])
    decreases k
  {
    if k > 0 {
      RootMin(le, h, Parent(k));
    }
  }

  /** On a heap, `pop` and `peek` return an element not greater than any
      element of the heap, `peek` the same one `pop` removes, and `pop`
      leaves a heap behind. */
  lemma PopMin<T(!new)>(le: (T, T) -> bool, h: MinHeap<T>)
    requires TotalPreorder(le) && IsHeap(le, h.items) && !IsEmpty(h)
    ensures Pop(le, h).Ok? && Peek(h) == Ok(Pop(le, h).value.0)
    ensures forall y :: y in h.items ==> le(Pop(le, h).value.0, y)
    ensures IsHeap(le, Pop(le, h).value.1.items)
  {
    forall y | y in h.items
      ensures le(h.items[0], y)
    {
      var k :| 0 <= k < |h.items| && h.items[k] == y;
      RootMin(le, h.items, k);
    }
    var n := |h.items|;
    if n > 1 {
      var moved := h.items[..n - 1][0 := h.items[n - 1]];
      assert DownInv(le, moved, 0, 0);
      SiftDownHeap(le, moved, 0, 0);
    }
  }

  /** `heapify(iterable)`: sift down every non-leaf index, last one first. */
  method Heapify<T(!new)>(le: (T, T) -> bool, xs: seq<T>) returns (h: MinHeap<T>)
    requires TotalPreorder(le)
    ensures multiset(h.items) == multiset(xs)
    ensures IsHeap(le, h.items)
  {
    var a := xs;
    var i := (|a| - 2) / 2;
    while i >= 0
      invariant -1 <= i < |a| && |a| == |xs|
      invariant multiset(a) == multiset(xs)
      invariant HeapFrom(le, a, i + 1)
    {
      assert DownInv(le, a, i, i);
      SiftDownHeap(le, a, i, i);
      a := SiftDown(le, a, i);
      i := i - 1;
    }
    h := MinHeap(a);
  }

  /** Repeated `pop` until the heap is empty, collecting the popped elements. */
  function Drain<T>(le: (T, T) -> bool, h: MinHeap<T>): (r: seq<T>)
    ensures multiset(r) == multiset(h.items) && |r| == Size(h)
    decreases Size(h)
  {
    match Pop(le, h)
    case Err(_) => []
    case Ok((x, rest)) => [x] + Drain(le, rest)
  }

  /** Draining a non-empty heap yields its popped minimum, then the drain
      of what is left. */
  lemma DrainStep<T>(le: (T, T) -> bool, h: MinHeap<T>)
    requires Size(h) > 0
    ensures Pop(le, h).Ok?
    ensures Drain(le, h) == [Pop(le, h).value.0] + Drain(le, Pop(le, h).value.1)
  {
  }

  /** An element not greater than everything in a sorted sequence can be
      put in front of it. */
  lemma SortedCons<T>(le: (T, T) -> bool, x: T, d: seq<T>)
    requires Sorted(le, d)
    requires forall j :: 0 <= j < |d| ==> le(x, d[j])
    ensures Sorted(le, [x] + d)
  {
    assert forall j :: 0 < j <= |d| ==> ([x] + d)[j] == d[j - 1];
  }

  /** Draining a heap yields its elements in ascending order. */
  lemma {:induction false} DrainSorted<T(!new)>(le: (T, T) -> bool, h: MinHeap<T>)
    requires TotalPreorder(le) && IsHeap(le, h.items)
    ensures Sorted(le, Drain(le, h))
    decreases Size(h)
  {
    if !IsEmpty(h) {
      PopMin(le, h);
      var x, rest := Pop(le, h).value.0, Pop(le, h).value.1;
      assert Drain(le, h) == [x] + Drain(le, rest);
      DrainSorted(le, rest);
      var d := Drain(le, rest);
      forall j | 0 <= j < |d|
        ensures le(x, d[j])
      {
        assert d[j] in multiset(rest.items);
        assert d[j] in h.items by {
          assert multiset(rest.items) + multiset{x} == multiset(h.items);
        }
      }
      SortedCons(le, x, d);
    }
  }

  /** `heapify` followed by popping until empty sorts the input. */
  method HeapSort<T(!new)>(le: (T, T) -> bool, xs: seq<T>) returns (r: seq<T>)
    requires TotalPreorder(le)
    ensures multiset(r) == multiset(xs)
    ensures Sorted(le, r)
  {
    var h := Heapify(le, xs);
    DrainSorted(le, h);
    r := Drain(le, h);
  }
}

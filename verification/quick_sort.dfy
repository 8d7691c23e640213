/** The descending quicksort of module/data_structure/quicksort.py: Lomuto
    partition on `visited_time` with the last element as pivot.

    The Python functions sort a list in place; the model threads the list
    through as a value, and each contract says which positions a call may
    change and that it only permutes them.
 */
module QuickSort {
  import opened Ranking
  import MinHeap

  /** Non-increasing `visited` on the positions `lo..hi` (inclusive). */
  predicate SortedVisited(a: seq<Entry>, lo: int, hi: int)
    requires 0 <= lo && hi < |a|
  {
    forall i, j :: lo <= i < j <= hi ==> a[i].visited >= a[j].visited
  }

  /** Swapping two positions of `lo..hi` permutes that range and nothing else. */
  lemma SwapInRange(a: seq<Entry>, lo: nat, hi: nat, i: nat, j: nat)
    requires lo <= i <= hi && lo <= j <= hi && hi < |a|
    ensures var b := MinHeap.Swap(a, i, j);
      multiset(b[lo..hi + 1]) == multiset(a[lo..hi + 1]) &&
      b[..lo] == a[..lo] && b[hi + 1..] == a[hi + 1..]
  {
    var b := MinHeap.Swap(a, i, j);
    assert b[lo..hi + 1] == MinHeap.Swap(a[lo..hi + 1], i - lo, j - lo);
  }

  /** The state of the partition loop: `b` permutes `a` inside `lo..hi` only,
      positions `lo..i` hold elements with `visited >= pivot` and positions
      `i + 1..j - 1` elements below it; the pivot is still at `hi`. */
  ghost predicate PartInv(a: seq<Entry>, b: seq<Entry>, lo: nat, hi: nat, i: int, j: nat)
    requires lo <= hi < |a|
  {
    lo <= j <= hi && lo - 1 <= i < j &&
    |b| == |a| && b[hi] == a[hi] &&
    b[..lo] == a[..lo] && b[hi + 1..] == a[hi + 1..] &&
    multiset(b[lo..hi + 1]) == multiset(a[lo..hi + 1]) &&
    (forall k :: lo <= k <= i ==> b[k].visited >= a[hi].visited) &&
    (forall k :: i < k < j ==> b[k].visited < a[hi].visited)
  }

  lemma PartitionSwap(a: seq<Entry>, b: seq<Entry>, lo: nat, hi: nat, i: int, j: nat)
    requires lo <= hi < |a| && PartInv(a, b, lo, hi, i, j) && j < hi
    requires b[j].visited >= a[hi].visited
    ensures PartInv(a, MinHeap.Swap(b, i + 1, j), lo, hi, i + 1, j + 1)
  {
    SwapInRange(b, lo, hi, i + 1, j);
    var b' := MinHeap.Swap(b, i + 1, j);
    var pivot := a[hi].visited;
    assert b'[hi] == a[hi];
    forall k | lo <= k <= i + 1
      ensures b'[k].visited >= pivot
    {
      if k == i + 1 {
        assert b'[k] == b[j];
      } else {
        assert b'[k] == b[k];
      }
    }
    forall k | i + 1 < k < j + 1
      ensures b'[k].visited < pivot
    {
      if k == j {
        assert b'[k] == b[i + 1];
      } else {
        assert b'[k] == b[k];
      }
    }
  }

  lemma PartitionSkip(a: seq<Entry>, b: seq<Entry>, lo: nat, hi: nat, i: int, j: nat)
    requires lo <= hi < |a| && PartInv(a, b, lo, hi, i, j) && j < hi
    requires b[j].visited < a[hi].visited
    ensures PartInv(a, b, lo, hi, i, j + 1)
  {
  }

  lemma PartitionLast(a: seq<Entry>, b: seq<Entry>, lo: nat, hi: nat, i: int)
    requires lo <= hi < |a| && PartInv(a, b, lo, hi, i, hi)
    ensures var b' := MinHeap.Swap(b, i + 1, hi);
      b'[..lo] == a[..lo] && b'[hi + 1..] == a[hi + 1..] &&
      multiset(b'[lo..hi + 1]) == multiset(a[lo..hi + 1]) &&
      b'[i + 1] == a[hi] &&
      (forall k :: lo <= k < i + 1 ==> b'[k].visited >= a[hi].visited) &&
      (forall k :: i + 1 < k <= hi ==> b'[k].visited < a[hi].visited)
  {
    SwapInRange(b, lo, hi, i + 1, hi);
  }

  /** `partition(arr, low, high)`: elements with `visited >= pivot` are moved
      to the front of the range, then the pivot is swapped in after them. */
  method Partition(a: seq<Entry>, lo: nat, hi: nat) returns (b: seq<Entry>, p: nat)
    requires lo <= hi < |a|
    ensures |b| == |a| && lo <= p <= hi
    ensures b[..lo] == a[..lo] && b[hi + 1..] == a[hi + 1..]
    ensures multiset(b[lo..hi + 1]) == multiset(a[lo..hi + 1])
    ensures b[p] == a[hi]
    ensures forall k :: lo <= k < p ==> b[k].visited >= b[p].visited
    ensures forall k :: p < k <= hi ==> b[k].visited < b[p].visited
  {
    var pivot := a[hi].visited;
    b := a;
    var i: int := lo - 1;
    var j := lo;
    while j < hi
      invariant PartInv(a, b, lo, hi, i, j)
    {
      if b[j].visited >= pivot {
        PartitionSwap(a, b, lo, hi, i, j);
        i := i + 1;
        b := MinHeap.Swap(b, i, j);
      } else {
        PartitionSkip(a, b, lo, hi, i, j);
      }
      j := j + 1;
    }
    PartitionLast(a, b, lo, hi, i);
    b := MinHeap.Swap(b, i + 1, hi);
    p := i + 1;
  }

  /** A permutation of a range keeps every lower bound on `visited` that
      held in it. */
  lemma AtLeastKept(x: seq<Entry>, y: seq<Entry>, lo: int, hi: int, v: int)
    requires 0 <= lo <= hi + 1 <= |x| == |y|
    requires multiset(y[lo..hi + 1]) == multiset(x[lo..hi + 1])
    requires forall k :: lo <= k <= hi ==> x[k].visited >= v
    ensures forall k :: lo <= k <= hi ==> y[k].visited >= v
  {
    forall k | lo <= k <= hi
      ensures y[k].visited >= v
    {
      assert y[k] == y[lo..hi + 1][k - lo];
      assert y[k] in multiset(x[lo..hi + 1]);
      var k' :| 0 <= k' < |x[lo..hi + 1]| && x[lo..hi + 1][k'] == y[k];
      assert x[lo + k'] == y[k];
    }
  }

  /** A permutation of a range keeps every strict upper bound on `visited`
      that held in it. */
  lemma BelowKept(x: seq<Entry>, y: seq<Entry>, lo: int, hi: int, v: int)
    requires 0 <= lo <= hi + 1 <= |x| == |y|
    requires multiset(y[lo..hi + 1]) == multiset(x[lo..hi + 1])
    requires forall k :: lo <= k <= hi ==> x[k].visited < v
    ensures forall k :: lo <= k <= hi ==> y[k].visited < v
  {
    forall k | lo <= k <= hi
      ensures y[k].visited < v
    {
      assert y[k] == y[lo..hi + 1][k - lo];
      assert y[k] in multiset(x[lo..hi + 1]);
      var k' :| 0 <= k' < |x[lo..hi + 1]| && x[lo..hi + 1][k'] == y[k];
      assert x[lo + k'] == y[k];
    }
  }

  /** Permuting `lo..p - 1` and `p + 1..hi` separately permutes `lo..hi`. */
  lemma SpliceRanges(x: seq<Entry>, y: seq<Entry>, lo: int, p: int, hi: int)
    requires 0 <= lo <= p <= hi < |x| == |y|
    requires multiset(y[lo..p]) == multiset(x[lo..p]) && y[p] == x[p]
    requires multiset(y[p + 1..hi + 1]) == multiset(x[p + 1..hi + 1])
    ensures multiset(y[lo..hi + 1]) == multiset(x[lo..hi + 1])
  {
    assert y[lo..hi + 1] == y[lo..p] + [y[p]] + y[p + 1..hi + 1];
    assert x[lo..hi + 1] == x[lo..p] + [x[p]] + x[p + 1..hi + 1];
  }

  /** After partitioning `lo..hi` at `p` and sorting both sides, the whole
      range is sorted and permuted. */
  lemma Combine(a: seq<Entry>, b1: seq<Entry>, b2: seq<Entry>, b: seq<Entry>, lo: int, p: int, hi: int)
    requires 0 <= lo <= p <= hi < |a|
    requires |b1| == |a| && b1[..lo] == a[..lo] && b1[hi + 1..] == a[hi + 1..]
    requires multiset(b1[lo..hi + 1]) == multiset(a[lo..hi + 1])
    requires forall k :: lo <= k < p ==> b1[k].visited >= b1[p].visited
    requires forall k :: p < k <= hi ==> b1[k].visited < b1[p].visited
    requires |b2| == |b1| && b2[..lo] == b1[..lo] && b2[p..] == b1[p..]
    requires multiset(b2[lo..p]) == multiset(b1[lo..p]) && SortedVisited(b2, lo, p - 1)
    requires |b| == |b2| && b[..p + 1] == b2[..p + 1] && b[hi + 1..] == b2[hi + 1..]
    requires multiset(b[p + 1..hi + 1]) == multiset(b2[p + 1..hi + 1]) && SortedVisited(b, p + 1, hi)
    ensures b[..lo] == a[..lo] && b[hi + 1..] == a[hi + 1..]
    ensures multiset(b[lo..hi + 1]) == multiset(a[lo..hi + 1])
    ensures SortedVisited(b, lo, hi)
  {
    assert forall k :: lo <= k <= p ==> b[k] == b2[k];
    assert forall k :: p <= k < |b1| ==> b2[k] == b1[k];
    assert b[lo..p] == b2[lo..p];
    assert b2[p + 1..hi + 1] == b1[p + 1..hi + 1];
    SpliceRanges(b1, b2, lo, p, hi);
    SpliceRanges(b2, b, lo, p, hi);
    assert b[..lo] == b2[..lo];
    assert b2[hi + 1..] == b1[hi + 1..];
    CombineSorted(b1, b2, b, lo, p, hi);
  }

  lemma CombineSorted(b1: seq<Entry>, b2: seq<Entry>, b: seq<Entry>, lo: int, p: int, hi: int)
    requires 0 <= lo <= p <= hi < |b1| == |b2| == |b|
    requires forall k :: lo <= k < p ==> b1[k].visited >= b1[p].visited
    requires forall k :: p < k <= hi ==> b1[k].visited < b1[p].visited
    requires forall k :: p <= k < |b1| ==> b2[k] == b1[k]
    requires multiset(b2[lo..p]) == multiset(b1[lo..p]) && SortedVisited(b2, lo, p - 1)
    requires forall k :: lo <= k <= p ==> b[k] == b2[k]
    requires multiset(b[p + 1..hi + 1]) == multiset(b2[p + 1..hi + 1]) && SortedVisited(b, p + 1, hi)
    ensures SortedVisited(b, lo, hi)
  {
    var v := b1[p].visited;
    AtLeastKept(b1, b2, lo, p - 1, v);
    BelowKept(b2, b, p + 1, hi, v);
  }

  /** `quicksort_recursive(arr, low, high)`: sorts positions `low..high`. */
  method QuickSortRange(a: seq<Entry>, lo: int, hi: int) returns (b: seq<Entry>)
    requires 0 <= lo <= hi + 1 <= |a|
    ensures |b| == |a|
    ensures b[..lo] == a[..lo] && b[hi + 1..] == a[hi + 1..]
    ensures multiset(b[lo..hi + 1]) == multiset(a[lo..hi + 1])
    ensures SortedVisited(b, lo, hi)
    decreases hi - lo
  {
    if lo < hi {
      var b1, p := Partition(a, lo, hi);
      var b2 := QuickSortRange(b1, lo, p as int - 1);
      assert b2[p..] == b1[p..] by {
        assert b2[(p as int - 1) + 1..] == b1[(p as int - 1) + 1..];
      }
      b := QuickSortRange(b2, p + 1, hi);
      Combine(a, b1, b2, b, lo, p, hi);
    } else {
      b := a;
    }
  }

  /** `quicksort(data_list)`: `[]` for an empty list, otherwise the whole list
      sorted by non-increasing `visited_time`. */
  method QuickSort(xs: seq<Entry>) returns (r: seq<Entry>)
    ensures xs == [] ==> r == []
    ensures multiset(r) == multiset(xs)
    ensures SortedVisited(r, 0, |r| - 1)
  {
    if |xs| == 0 {
      return [];
    }
    r := QuickSortRange(xs, 0, |xs| - 1);
    assert r[0..|xs|] == r && xs[0..|xs|] == xs;
  }
}

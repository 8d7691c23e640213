/** The two-list merge and the merge sort of module/data_structure/merge.py,
    both best-first by (score, visited_time).
 */
module MergeSort {
  import opened Ranking

  /** `merge(left, right)`: repeatedly take the head of `left` when it ranks at
      least as high as the head of `right` (so equal keys come from `left`),
      otherwise the head of `right`; then append what remains. */
  function Merge(l: seq<Entry>, r: seq<Entry>): (m: seq<Entry>)
    ensures |m| == |l| + |r|
    ensures multiset(m) == multiset(l) + multiset(r)
    decreases |l| + |r|
  {
    if l == [] then r
    else if r == [] then l
    else if RanksAtLeast(l[0], r[0]) then
      assert l == [l[0]] + l[1..];
      [l[0]] + Merge(l[1..], r)
    else
      assert r == [r[0]] + r[1..];
      [r[0]] + Merge(l, r[1..])
  }

  /** A best-first element followed by a best-first list it outranks. */
  lemma SortedCons(x: Entry, s: seq<Entry>)
    requires SortedDesc(s)
    requires forall y :: y in multiset(s) ==> RanksAtLeast(x, y)
    ensures SortedDesc([x] + s)
  {
    forall j | 0 <= j < |s|
      ensures RanksAtLeast(x, s[j])
    {
      assert s[j] in multiset(s);
    }
  }

  /** Merging two best-first lists gives a best-first list. */
  lemma {:induction false} MergeSorted(l: seq<Entry>, r: seq<Entry>)
    requires SortedDesc(l) && SortedDesc(r)
    ensures SortedDesc(Merge(l, r))
    decreases |l| + |r|
  {
    if l != [] && r != [] {
      if RanksAtLeast(l[0], r[0]) {
        MergeSorted(l[1..], r);
        forall y | y in multiset(l[1..]) + multiset(r)
          ensures RanksAtLeast(l[0], y)
        {
          if y in l[1..] {
            var k :| 0 <= k < |l[1..]| && l[1..][k] == y;
            assert l[k + 1] == y;
          } else {
            var k :| 0 <= k < |r| && r[k] == y;
          }
        }
        SortedCons(l[0], Merge(l[1..], r));
      } else {
        MergeSorted(l, r[1..]);
        forall y | y in multiset(l) + multiset(r[1..])
          ensures RanksAtLeast(r[0], y)
        {
          if y in r[1..] {
            var k :| 0 <= k < |r[1..]| && r[1..][k] == y;
            assert r[k + 1] == y;
          } else {
            var k :| 0 <= k < |l| && l[k] == y;
          }
        }
        SortedCons(r[0], Merge(l, r[1..]));
      }
    }
  }

  /** When every element of `l` has the same key as every element of `r`,
      `merge` puts all of `l` first: ties are resolved in favour of `left`. */
  lemma {:induction false} MergeTiesLeft(l: seq<Entry>, r: seq<Entry>)
    requires forall a, b :: a in l && b in r ==> a.score == b.score && a.visited == b.visited
    ensures Merge(l, r) == l + r
    decreases |l|
  {
    if l != [] && r != [] {
      assert l[0] in l && r[0] in r;
      MergeTiesLeft(l[1..], r);
      assert l == [l[0]] + l[1..];
    }
  }

  /** `[e]` when `e` has the same key as `x`, otherwise nothing. */
  function TieOf(e: Entry, x: Entry): seq<Entry>
  {
    if e.score == x.score && e.visited == x.visited then [e] else []
  }

  /** The elements of `s` with the same key as `x`, in list order. */
  function Ties(s: seq<Entry>, x: Entry): (t: seq<Entry>)
    ensures |t| <= |s|
    decreases |s|
  {
    if s == [] then [] else TieOf(s[0], x) + Ties(s[1..], x)
  }

  lemma {:induction false} TiesConcat(a: seq<Entry>, b: seq<Entry>, x: Entry)
    ensures Ties(a + b, x) == Ties(a, x) + Ties(b, x)
    decreases |a|
  {
    if a == [] {
      assert a + b == b;
    } else {
      assert (a + b)[1..] == a[1..] + b;
      TiesConcat(a[1..], b, x);
    }
  }

  lemma TiesCons(e: Entry, m: seq<Entry>, x: Entry)
    ensures Ties([e] + m, x) == TieOf(e, x) + Ties(m, x)
  {
    assert ([e] + m)[1..] == m;
  }

  /** A best-first list whose head ranks below `x` has no element tied
      with `x`. */
  lemma {:induction false} NoTies(l: seq<Entry>, x: Entry)
    requires SortedDesc(l) && (l == [] || !RanksAtLeast(l[0], x))
    ensures Ties(l, x) == []
    decreases |l|
  {
    if l != [] {
      if |l| > 1 {
        assert RanksAtLeast(l[0], l[1]);
      }
      NoTies(l[1..], x);
    }
  }

  /** `merge` is stable: the elements tied on a key come out as those of
      `left` in their order, then those of `right` in theirs. */
  lemma {:induction false} MergeStable(l: seq<Entry>, r: seq<Entry>, x: Entry)
    requires SortedDesc(l)
    ensures Ties(Merge(l, r), x) == Ties(l, x) + Ties(r, x)
    decreases |l| + |r|
  {
    if l == [] {
      assert Ties(l, x) == [];
    } else if r == [] {
      assert Ties(r, x) == [];
    } else if RanksAtLeast(l[0], r[0]) {
      MergeStable(l[1..], r, x);
      StableLeftStep(l, r, x);
    } else {
      MergeStable(l, r[1..], x);
      StableRightStep(l, r, x);
    }
  }

  /** The step of `MergeStable` where the head of `left` is taken. */
  lemma StableLeftStep(l: seq<Entry>, r: seq<Entry>, x: Entry)
    requires l != [] && r != [] && RanksAtLeast(l[0], r[0])
    requires Ties(Merge(l[1..], r), x) == Ties(l[1..], x) + Ties(r, x)
    ensures Ties(Merge(l, r), x) == Ties(l, x) + Ties(r, x)
  {
    var m := Merge(l[1..], r);
    var c := TieOf(l[0], x);
    TiesCons(l[0], m, x);
    calc {
      Ties(Merge(l, r), x);
      Ties([l[0]] + m, x);
      c + Ties(m, x);
      c + (Ties(l[1..], x) + Ties(r, x));
      (c + Ties(l[1..], x)) + Ties(r, x);
      Ties(l, x) + Ties(r, x);
    }
  }

  /** The step of `MergeStable` where the head of `right` is taken: it ranks
      strictly above the head of `left`, so nothing in `left` ties with it. */
  lemma StableRightStep(l: seq<Entry>, r: seq<Entry>, x: Entry)
    requires SortedDesc(l) && l != [] && r != [] && !RanksAtLeast(l[0], r[0])
    requires Ties(Merge(l, r[1..]), x) == Ties(l, x) + Ties(r[1..], x)
    ensures Ties(Merge(l, r), x) == Ties(l, x) + Ties(r, x)
  {
    var m := Merge(l, r[1..]);
    var c := TieOf(r[0], x);
    TiesCons(r[0], m, x);
    if c != [] {
      NoTies(l, x);
    }
    calc {
      Ties(Merge(l, r), x);
      Ties([r[0]] + m, x);
      c + Ties(m, x);
      c + (Ties(l, x) + Ties(r[1..], x));
      { assert c == [] || Ties(l, x) == []; }
      Ties(l, x) + (c + Ties(r[1..], x));
      Ties(l, x) + Ties(r, x);
    }
  }

  /** `merge_sort(spots_list)`: lists of length at most one come back as they
      are; longer ones are split at `len // 2`, sorted and merged. */
  function MergeSort(xs: seq<Entry>): (r: seq<Entry>)
    ensures |xs| <= 1 ==> r == xs
    ensures multiset(r) == multiset(xs)
    ensures SortedDesc(r)
    decreases |xs|
  {
    if |xs| <= 1 then xs
    else
      var mid := |xs| / 2;
      var left, right := xs[..mid], xs[mid..];
      assert multiset(xs) == multiset(left) + multiset(right) by {
        assert xs == left + right;
      }
      var a := MergeSort(left);
      var b := MergeSort(right);
      MergeSorted(a, b);
      Merge(a, b)
  }

  /** `merge_sort` is stable: elements with equal keys keep their input
      order. */
  lemma {:induction false} MergeSortStable(xs: seq<Entry>, x: Entry)
    ensures Ties(MergeSort(xs), x) == Ties(xs, x)
    decreases |xs|
  {
    if |xs| > 1 {
      var mid := |xs| / 2;
      var left, right := xs[..mid], xs[mid..];
      var a, b := MergeSort(left), MergeSort(right);
      assert MergeSort(xs) == Merge(a, b);
      MergeSortStable(left, x);
      MergeSortStable(right, x);
      MergeStable(a, b, x);
      assert xs == left + right;
      TiesConcat(left, right, x);
      assert Ties(MergeSort(xs), x) == Ties(a, x) + Ties(b, x);
    }
  }
}

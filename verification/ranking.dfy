/** The ranking order shared by the merge sort (module/data_structure/merge.py),
    the ranking heap (module/data_structure/indexHeap.py) and the k-way merge
    (module/data_structure/kwaymerge.py): higher score first, and on equal
    scores more visits first.

    The Python code keeps these records as dicts (`score`/`visited_time` in
    merge.py and indexHeap.py, `value1`/`value2` in kwaymerge.py); the model
    uses one record with `int` fields.
 */
module Ranking {
  import MinHeap

  datatype Entry = Entry(id: int, score: int, visited: int)

  /** `a` may be placed before `b` in a list sorted best-first. */
  predicate RanksAtLeast(a: Entry, b: Entry)
  {
    a.score > b.score || (a.score == b.score && a.visited >= b.visited)
  }

  /** `_compare(a, b)`: positive when `a` ranks strictly higher, negative when
      `b` does, zero on equal keys. */
  function Compare(a: Entry, b: Entry): (r: int)
    ensures r >= 0 <==> RanksAtLeast(a, b)
    ensures r > 0 <==> !RanksAtLeast(b, a)
    ensures r == 0 <==> a.score == b.score && a.visited == b.visited
  {
    if a.score != b.score then a.score - b.score else a.visited - b.visited
  }

  /** Best-first order: every element ranks at least as high as every later one. */
  predicate SortedDesc(s: seq<Entry>)
  {
    forall i, j :: 0 <= i < j < |s| ==> RanksAtLeast(s[i], s[j])
  }

  /** The ranking, as the element order of a best-first heap. */
  function Higher(): (Entry, Entry) -> bool
  {
    (a: Entry, b: Entry) => RanksAtLeast(a, b)
  }

  lemma HigherIsTotalPreorder()
    ensures MinHeap.TotalPreorder(Higher())
  {
  }

  lemma SortedDescIsSorted(s: seq<Entry>)
    ensures SortedDesc(s) <==> MinHeap.Sorted(Higher(), s)
  {
  }
}

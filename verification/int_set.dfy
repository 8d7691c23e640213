/** The list-backed integer set `IntSet` of module/data_structure/set.py.

    The Python class keeps its members in a list in insertion order and refuses
    duplicates on `add`, so the list never holds an element twice.  Python
    values that are not `int` are represented by `NonInt`.
 */
module IntSet {
  import opened Wrappers

  datatype Elem = IntElem(n: int) | NonInt

  datatype IntSet = IntSet(elements: seq<int>)

  /** No element occurs twice in the list. */
  predicate NoDup(xs: seq<int>)
  {
    forall i, j :: 0 <= i < j < |xs| ==> xs[i] != xs[j]
  }

  predicate Valid(s: IntSet)
  {
    NoDup(s.elements)
  }

  function Empty(): (r: IntSet)
    ensures Valid(r) && Size(r) == 0
  {
    IntSet([])
  }

  function Size(s: IntSet): nat
  {
    |s.elements|
  }

  predicate Contains(s: IntSet, x: int)
  {
    x in s.elements
  }

  /** `add` for an element already known to be an `int`. */
  function AddInt(s: IntSet, x: int): (r: IntSet)
    ensures Valid(s) ==> Valid(r)
    ensures forall y :: Contains(r, y) <==> Contains(s, y) || y == x
    ensures Contains(s, x) ==> r == s
    ensures !Contains(s, x) ==> Size(r) == Size(s) + 1 && r.elements[..Size(s)] == s.elements
  {
    if x in s.elements then s else IntSet(s.elements + [x])
  }

  /** `add(element)`: a non-int raises TypeError; an element already present
      leaves the set as it was. */
  function Add(s: IntSet, e: Elem): (r: Result<IntSet>)
    ensures e.NonInt? <==> r == Err(TypeError)
    ensures e.IntElem? && Contains(s, e.n) ==> r == Ok(s)
    ensures r.Ok? && Valid(s) ==> Valid(r.value)
    ensures r.Ok? ==> forall y :: Contains(r.value, y) <==> Contains(s, y) || y == e.n
  {
    match e
    case NonInt => Err(TypeError)
    case IntElem(x) => Ok(AddInt(s, x))
  }

  /** Removes the first occurrence of `x` (the only one in a valid set). */
  function RemoveFirst(xs: seq<int>, x: int): (r: seq<int>)
    requires x in xs
    ensures |r| == |xs| - 1
    ensures NoDup(xs) ==> NoDup(r) && x !in r
    ensures forall y :: y != x ==> (y in r <==> y in xs)
  {
    if xs[0] == x then xs[1..]
    else
      var rest := RemoveFirst(xs[1..], x);
      assert NoDup(xs) ==> xs[0] !in xs[1..];
      [xs[0]] + rest
  }

  /** `remove(element)`: ValueError when absent. */
  function Remove(s: IntSet, x: int): (r: Result<IntSet>)
    requires Valid(s)
    ensures !Contains(s, x) <==> r == Err(ValueError)
    ensures r.Ok? ==> Valid(r.value) && Size(r.value) == Size(s) - 1
    ensures r.Ok? ==> forall y :: Contains(r.value, y) <==> Contains(s, y) && y != x
  {
    if x in s.elements then Ok(IntSet(RemoveFirst(s.elements, x))) else Err(ValueError)
  }

  /** `discard(element)`: like `remove`, but a no-op when absent. */
  function Discard(s: IntSet, x: int): (r: IntSet)
    requires Valid(s)
    ensures !Contains(s, x) ==> r == s
    ensures Valid(r)
    ensures forall y :: Contains(r, y) <==> Contains(s, y) && y != x
  {
    if x in s.elements then IntSet(RemoveFirst(s.elements, x)) else s
  }

  /** `result.add(e)` for each `e` of `xs` in turn, skipping those `keep`
      rejects: the loop shape shared by the constructor, `union`,
      `intersection` and `difference`. */
  function AddEach(s: IntSet, xs: seq<int>, keep: int -> bool): (r: IntSet)
    ensures Valid(s) ==> Valid(r)
    ensures forall y :: Contains(r, y) <==> Contains(s, y) || (y in xs && keep(y))
    ensures |s.elements| <= |r.elements| && r.elements[..|s.elements|] == s.elements
  {
    if xs == [] then s
    else
      var prev := AddEach(s, xs[..|xs| - 1], keep);
      var x := xs[|xs| - 1];
      assert xs == xs[..|xs| - 1] + [x];
      if keep(x) then AddInt(prev, x) else prev
  }

  /** The constructor `IntSet(elements)` on a list of ints. */
  function FromInts(xs: seq<int>): (r: IntSet)
    ensures Valid(r)
    ensures forall y :: Contains(r, y) <==> y in xs
  {
    AddEach(Empty(), xs, _ => true)
  }

  /** The constructor `IntSet(elements)`: each element is added in turn,
      so a non-int anywhere in the list raises TypeError. */
  function FromList(xs: seq<Elem>): (r: Result<IntSet>)
    ensures r == Err(TypeError) <==> exists i :: 0 <= i < |xs| && xs[i].NonInt?
    ensures r.Err? ==> r.error == TypeError
    ensures r.Ok? ==> Valid(r.value) && forall y :: Contains(r.value, y) <==> IntElem(y) in xs
    decreases |xs|
  {
    if xs == [] then Ok(Empty())
    else
      var front, last := xs[..|xs| - 1], xs[|xs| - 1];
      assert xs == front + [last];
      assert forall i :: 0 <= i < |front| ==> front[i] == xs[i];
      match FromList(front)
      case Err(e) => Err(e)
      case Ok(prev) => Add(prev, last)
  }

  /** The `Elem` list of a list of ints. */
  function AsElems(xs: seq<int>): (r: seq<Elem>)
    ensures |r| == |xs| && forall i :: 0 <= i < |xs| ==> r[i] == IntElem(xs[i])
  {
    seq(|xs|, i requires 0 <= i < |xs| => IntElem(xs[i]))
  }

  /** On a list of ints the constructor never fails and adds the ints in
      order. */
  lemma {:induction false} FromListInts(xs: seq<int>)
    ensures FromList(AsElems(xs)) == Ok(FromInts(xs))
    decreases |xs|
  {
    if xs != [] {
      var front := xs[..|xs| - 1];
      assert AsElems(xs)[..|xs| - 1] == AsElems(front);
      FromListInts(front);
    }
  }

  function Union(a: IntSet, b: IntSet): (r: IntSet)
    requires Valid(a)
    ensures Valid(r)
    ensures forall y :: Contains(r, y) <==> Contains(a, y) || Contains(b, y)
  {
    AddEach(FromInts(a.elements), b.elements, _ => true)
  }

  function Intersection(a: IntSet, b: IntSet): (r: IntSet)
    ensures Valid(r)
    ensures forall y :: Contains(r, y) <==> Contains(a, y) && Contains(b, y)
  {
    AddEach(Empty(), a.elements, y => y in b.elements)
  }

  function Difference(a: IntSet, b: IntSet): (r: IntSet)
    ensures Valid(r)
    ensures forall y :: Contains(r, y) <==> Contains(a, y) && !Contains(b, y)
  {
    AddEach(Empty(), a.elements, y => y !in b.elements)
  }

  function Clear(s: IntSet): (r: IntSet)
    ensures Valid(r) && Size(r) == 0
    ensures forall y :: !Contains(r, y)
  {
    Empty()
  }

  predicate IsEmpty(s: IntSet)
  {
    Size(s) == 0
  }

  /** `get_all_elements()`: the member list (a fresh list in Python; a value here). */
  function GetAllElements(s: IntSet): seq<int>
  {
    s.elements
  }

  /** The elements of `xs` that satisfy `p`, in list order. */
  function Filter(xs: seq<int>, p: int -> bool): seq<int>
  {
    if xs == [] then []
    else Filter(xs[..|xs| - 1], p) + (if p(xs[|xs| - 1]) then [xs[|xs| - 1]] else [])
  }

  lemma FilterMembers(xs: seq<int>, p: int -> bool, y: int)
    ensures y in Filter(xs, p) <==> y in xs && p(y)
  {
    if xs != [] {
      FilterMembers(xs[..|xs| - 1], p, y);
      assert xs == xs[..|xs| - 1] + [xs[|xs| - 1]];
    }
  }

  /** Filling an empty set from a duplicate-free list keeps exactly the kept
      elements, in list order. */
  lemma {:induction false} AddEachFromEmpty(xs: seq<int>, keep: int -> bool)
    requires NoDup(xs)
    ensures AddEach(Empty(), xs, keep).elements == Filter(xs, keep)
  {
    if xs != [] {
      var init := xs[..|xs| - 1];
      var x := xs[|xs| - 1];
      assert NoDup(init);
      AddEachFromEmpty(init, keep);
      FilterMembers(init, keep, x);
    }
  }

  /** Valid sets survive the constructor unchanged. */
  lemma FromIntsOfValid(s: IntSet)
    requires Valid(s)
    ensures FromInts(s.elements) == s
  {
    AddEachFromEmpty(s.elements, _ => true);
    FilterAll(s.elements);
  }

  /** `IntSet(s.get_all_elements())` is `s` again. */
  lemma FromListOfValid(s: IntSet)
    requires Valid(s)
    ensures FromList(AsElems(s.elements)) == Ok(s)
  {
    FromListInts(s.elements);
    FromIntsOfValid(s);
  }

  lemma {:induction false} FilterAll(xs: seq<int>)
    ensures Filter(xs, _ => true) == xs
  {
    if xs != [] {
      FilterAll(xs[..|xs| - 1]);
      assert xs == xs[..|xs| - 1] + [xs[|xs| - 1]];
    }
  }

  /** `intersection` keeps the members of `a` in `a`'s order. */
  lemma IntersectionOrder(a: IntSet, b: IntSet)
    requires Valid(a)
    ensures Intersection(a, b).elements == Filter(a.elements, y => y in b.elements)
  {
    AddEachFromEmpty(a.elements, y => y in b.elements);
  }

  /** `difference` keeps the members of `a` missing from `b`, in `a`'s order. */
  lemma DifferenceOrder(a: IntSet, b: IntSet)
    requires Valid(a)
    ensures Difference(a, b).elements == Filter(a.elements, y => y !in b.elements)
  {
    AddEachFromEmpty(a.elements, y => y !in b.elements);
  }

  /** `union` lists the members of `a` first, then the new members of `b` in
      `b`'s order. */
  lemma {:induction false} UnionOrder(a: IntSet, b: IntSet)
    requires Valid(a) && Valid(b)
    ensures Union(a, b).elements == a.elements + Filter(b.elements, y => y !in a.elements)
  {
    FromIntsOfValid(a);
    AddEachAfter(a, b.elements);
  }

  lemma {:induction false} AddEachAfter(a: IntSet, xs: seq<int>)
    requires NoDup(xs)
    ensures AddEach(a, xs, _ => true).elements == a.elements + Filter(xs, y => y !in a.elements)
  {
    if xs != [] {
      var init := xs[..|xs| - 1];
      var x := xs[|xs| - 1];
      assert NoDup(init);
      assert xs == init + [x];
      AddEachAfter(a, init);
      var prev := AddEach(a, init, _ => true);
      assert AddEach(a, xs, _ => true) == AddInt(prev, x);
      FilterMembers(init, y => y !in a.elements, x);
      assert x !in init;
      if x !in a.elements {
        assert x !in prev.elements;
      }
    }
  }

  /** In a valid set the size is the number of distinct members. */
  lemma {:induction false} SizeIsCardinality(s: IntSet)
    requires Valid(s)
    ensures Size(s) == |set y | y in s.elements|
    decreases |s.elements|
  {
    if s.elements != [] {
      var init := IntSet(s.elements[..|s.elements| - 1]);
      var x := s.elements[|s.elements| - 1];
      assert Valid(init);
      SizeIsCardinality(init);
      assert s.elements == init.elements + [x];
      assert (set y | y in s.elements) == (set y | y in init.elements) + {x};
      assert x !in init.elements;
    }
  }
}

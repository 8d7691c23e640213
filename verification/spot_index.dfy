/** The scenic-spot index `Spot` of module/Spot_class.py.

    The index keeps the spot list read from the spots file, a character
    hash table for name search, and one entry per spot type holding the
    type's ids in file order, a cached top list and a ranking heap.  Every
    Python mutation of `self` becomes a function returning the new index.
 */
module SpotIndex {
  import opened Wrappers
  import HashTable
  import IntSet
  import TopKHeap
  import opened Ranking

  /** The fields of one spots-file record that the index reads. */
  datatype SpotRecord = SpotRecord(id: int, name: string, kind: string, score: int, visited: int)

  /** One `spotTypeDict` value: `ids`, `top_10` and `heap`. */
  datatype TypeEntry = TypeEntry(ids: seq<int>, top: seq<Entry>, heap: TopKHeap.TopKHeap)

  datatype Index = Index(spots: seq<SpotRecord>, counts: int, table: HashTable.HashTable, types: map<string, TypeEntry>)

  function NewEntry(): TypeEntry
  {
    TypeEntry([], [], TopKHeap.Empty())
  }

  function EntryOf(s: SpotRecord): Entry
  {
    Entry(s.id, s.score, s.visited)
  }

  predicate DistinctIds(spots: seq<SpotRecord>)
  {
    forall i, j :: 0 <= i < j < |spots| ==> spots[i].id != spots[j].id
  }

  // ---------------------------------------------------------------------
  // Reference descriptions of a spot list

  /** The spots of type `t`, in file order. */
  function OfKind(spots: seq<SpotRecord>, t: string): (r: seq<SpotRecord>)
    ensures forall x :: x in r <==> x in spots && x.kind == t
    decreases |spots|
  {
    if spots == [] then []
    else
      var last := spots[|spots| - 1];
      assert spots == spots[..|spots| - 1] + [last];
      OfKind(spots[..|spots| - 1], t) + (if last.kind == t then [last] else [])
  }

  function Ids(ss: seq<SpotRecord>): seq<int>
  {
    if ss == [] then [] else Ids(ss[..|ss| - 1]) + [ss[|ss| - 1].id]
  }

  function Entries(ss: seq<SpotRecord>): multiset<Entry>
  {
    if ss == [] then multiset{} else Entries(ss[..|ss| - 1]) + multiset{EntryOf(ss[|ss| - 1])}
  }

  function Kinds(spots: seq<SpotRecord>): set<string>
  {
    set s | s in spots :: s.kind
  }

  /** Spot number `i` (counting from 0) has id `x` and `c` in its name. */
  ghost predicate Named(spots: seq<SpotRecord>, x: int, c: char)
  {
    exists i :: 0 <= i < |spots| && spots[i].id == x && c in spots[i].name
  }

  lemma IdsSnoc(a: seq<SpotRecord>, x: SpotRecord)
    ensures Ids(a + [x]) == Ids(a) + [x.id]
  {
    assert (a + [x])[..|a|] == a;
  }

  lemma EntriesSnoc(a: seq<SpotRecord>, x: SpotRecord)
    ensures Entries(a + [x]) == Entries(a) + multiset{EntryOf(x)}
  {
    assert (a + [x])[..|a|] == a;
  }

  /** Every counted entry is the entry of one of the spots. */
  lemma {:induction false} EntriesMember(ss: seq<SpotRecord>, y: Entry)
    requires y in Entries(ss)
    ensures exists s :: s in ss && EntryOf(s) == y
    decreases |ss|
  {
    var last := ss[|ss| - 1];
    if y != EntryOf(last) {
      EntriesMember(ss[..|ss| - 1], y);
      var s :| s in ss[..|ss| - 1] && EntryOf(s) == y;
      assert s in ss;
    } else {
      assert last in ss;
    }
  }

  // ---------------------------------------------------------------------
  // Construction: `__init__`

  /** `max(1000, counts * 2)`. */
  function TableSize(counts: int): (r: nat)
    ensures r >= 1000 && r >= 2 * counts
    ensures r == 1000 || r == 2 * counts
  {
    if 1000 >= counts * 2 then 1000 else counts * 2
  }

  /** `hashTable.insert(spot)` for every spot, in file order. */
  function BuildTable(h: HashTable.HashTable, spots: seq<SpotRecord>): (r: HashTable.HashTable)
    requires HashTable.Shape(h)
    ensures HashTable.Shape(r) && r.size == h.size
    decreases |spots|
  {
    if spots == [] then h
    else
      var last := spots[|spots| - 1];
      HashTable.Insert(BuildTable(h, spots[..|spots| - 1]), last.id, last.name)
  }

  /** After the inserts, the ids listed under `c` are those listed before and
      those of the spots whose name contains `c`. */
  lemma {:induction false} BuildTableSearch(h: HashTable.HashTable, spots: seq<SpotRecord>)
    requires HashTable.Shape(h)
    ensures forall c, x :: x in HashTable.Search(BuildTable(h, spots), c) <==>
      x in HashTable.Search(h, c) || Named(spots, x, c)
    decreases |spots|
  {
    if spots != [] {
      var pre := spots[..|spots| - 1];
      var last := spots[|spots| - 1];
      var h1 := BuildTable(h, pre);
      BuildTableSearch(h, pre);
      HashTable.InsertSearch(h1, last.id, last.name);
      forall c, x
        ensures x in HashTable.Search(BuildTable(h, spots), c) <==> x in HashTable.Search(h, c) || Named(spots, x, c)
      {
        if Named(pre, x, c) {
          var i :| 0 <= i < |pre| && pre[i].id == x && c in pre[i].name;
          assert spots[i] == pre[i];
        }
        if Named(spots, x, c) && !(last.id == x && c in last.name) {
          var i :| 0 <= i < |spots| && spots[i].id == x && c in spots[i].name;
          assert i < |pre| && pre[i] == spots[i];
        }
        if last.id == x && c in last.name {
          assert spots[|spots| - 1] == last;
        }
      }
    }
  }

  lemma {:induction false} BuildTableValid(h: HashTable.HashTable, spots: seq<SpotRecord>)
    requires HashTable.Valid(h)
    ensures HashTable.Valid(BuildTable(h, spots))
    decreases |spots|
  {
    if spots != [] {
      var last := spots[|spots| - 1];
      BuildTableValid(h, spots[..|spots| - 1]);
      HashTable.InsertValid(BuildTable(h, spots[..|spots| - 1]), last.id, last.name);
    }
  }

  /** The initial dictionary: one empty entry per configured type. */
  function InitTypes(kinds: seq<string>): (r: map<string, TypeEntry>)
    ensures r.Keys == set t | t in kinds
    ensures forall t :: t in r ==> r[t] == NewEntry()
  {
    map t | t in kinds :: NewEntry()
  }

  /** The entry of `t` before `classify` touches it. */
  function Before(types: map<string, TypeEntry>, t: string): TypeEntry
  {
    if t in types then types[t] else NewEntry()
  }

  /** One iteration of `classify`: create the entry if missing, append the
      id, insert the spot into the type's heap. */
  function Place(types: map<string, TypeEntry>, s: SpotRecord): (r: map<string, TypeEntry>)
    ensures r.Keys == types.Keys + {s.kind}
    ensures forall t :: t in r && t != s.kind ==> r[t] == types[t]
    ensures r[s.kind].ids == Before(types, s.kind).ids + [s.id]
    ensures r[s.kind].top == Before(types, s.kind).top
    ensures multiset(r[s.kind].heap.heap) == multiset(Before(types, s.kind).heap.heap) + multiset{EntryOf(s)}
  {
    var e := Before(types, s.kind);
    types[s.kind := e.(ids := e.ids + [s.id], heap := TopKHeap.Insert(e.heap, s.id, s.score, s.visited))]
  }

  /** `classify()`: the loop over the spots, in file order. */
  function Classify(types: map<string, TypeEntry>, spots: seq<SpotRecord>): (r: map<string, TypeEntry>)
    ensures r.Keys == types.Keys + Kinds(spots)
    decreases |spots|
  {
    if spots == [] then types
    else
      var pre := spots[..|spots| - 1];
      var last := spots[|spots| - 1];
      assert spots == pre + [last];
      Place(Classify(types, pre), last)
  }

  /** What `classify` over `spots` has made of the entry of `t`. */
  ghost predicate EntryAfter(types: map<string, TypeEntry>, spots: seq<SpotRecord>, r: map<string, TypeEntry>, t: string)
  {
    (t in r <==> t in types || t in Kinds(spots)) &&
    (t in r ==>
      r[t].top == Before(types, t).top &&
      r[t].ids == Before(types, t).ids + Ids(OfKind(spots, t)) &&
      multiset(r[t].heap.heap) == multiset(Before(types, t).heap.heap) + Entries(OfKind(spots, t)))
  }

  lemma SnocFacts(spots: seq<SpotRecord>, t: string)
    requires spots != []
    ensures Kinds(spots) == Kinds(spots[..|spots| - 1]) + {spots[|spots| - 1].kind}
    ensures OfKind(spots, t) == OfKind(spots[..|spots| - 1], t) + (if spots[|spots| - 1].kind == t then [spots[|spots| - 1]] else [])
  {
    assert spots == spots[..|spots| - 1] + [spots[|spots| - 1]];
  }

  /** The facts `Place(r0, s)` guarantees, stated on a result `r`. */
  predicate Placed(r0: map<string, TypeEntry>, s: SpotRecord, r: map<string, TypeEntry>)
  {
    r.Keys == r0.Keys + {s.kind} &&
    (forall t :: t in r && t != s.kind ==> r[t] == r0[t]) &&
    r[s.kind].ids == Before(r0, s.kind).ids + [s.id] &&
    r[s.kind].top == Before(r0, s.kind).top &&
    multiset(r[s.kind].heap.heap) == multiset(Before(r0, s.kind).heap.heap) + multiset{EntryOf(s)}
  }

  /** A spot of another type leaves the entry of `t` as it was. */
  lemma PlaceOther(types: map<string, TypeEntry>, spots: seq<SpotRecord>,
                   r0: map<string, TypeEntry>, r: map<string, TypeEntry>, t: string)
    requires spots != [] && t != spots[|spots| - 1].kind
    requires EntryAfter(types, spots[..|spots| - 1], r0, t) && Placed(r0, spots[|spots| - 1], r)
    ensures EntryAfter(types, spots, r, t)
  {
    SnocFacts(spots, t);
    assert OfKind(spots, t) == OfKind(spots[..|spots| - 1], t);
    assert t in r <==> t in r0;
    if t in r {
      assert r[t] == r0[t];
    }
  }

  /** A spot of type `t` is appended to the entry of `t`. */
  lemma PlaceSame(types: map<string, TypeEntry>, spots: seq<SpotRecord>,
                  r0: map<string, TypeEntry>, r: map<string, TypeEntry>)
    requires spots != []
    requires EntryAfter(types, spots[..|spots| - 1], r0, spots[|spots| - 1].kind) && Placed(r0, spots[|spots| - 1], r)
    ensures EntryAfter(types, spots, r, spots[|spots| - 1].kind)
  {
    var pre := spots[..|spots| - 1];
    var last := spots[|spots| - 1];
    var t := last.kind;
    SnocFacts(spots, t);
    var e0 := Before(r0, t);
    var b := Before(types, t);
    assert e0.top == b.top && e0.ids == b.ids + Ids(OfKind(pre, t)) &&
      multiset(e0.heap.heap) == multiset(b.heap.heap) + Entries(OfKind(pre, t)) by {
      if t !in r0 {
        OfKindAbsent(pre, t);
      }
    }
    assert r[t].ids == b.ids + Ids(OfKind(spots, t)) by {
      IdsSnoc(OfKind(pre, t), last);
    }
    assert multiset(r[t].heap.heap) == multiset(b.heap.heap) + Entries(OfKind(spots, t)) by {
      EntriesSnoc(OfKind(pre, t), last);
    }
  }

  lemma {:induction false} ClassifyEntry(types: map<string, TypeEntry>, spots: seq<SpotRecord>, t: string)
    ensures EntryAfter(types, spots, Classify(types, spots), t)
    decreases |spots|
  {
    if spots != [] {
      var pre := spots[..|spots| - 1];
      var last := spots[|spots| - 1];
      ClassifyEntry(types, pre, t);
      var r0 := Classify(types, pre);
      assert Placed(r0, last, Place(r0, last));
      if t == last.kind {
        PlaceSame(types, spots, r0, Place(r0, last));
      } else {
        PlaceOther(types, spots, r0, Place(r0, last), t);
      }
    }
  }

  lemma OfKindAbsent(spots: seq<SpotRecord>, t: string)
    requires t !in Kinds(spots)
    ensures OfKind(spots, t) == []
  {
  }

  /** `Spot(spotIo)` on a spots list, its `counts` and the configured types. */
  function Build(spots: seq<SpotRecord>, counts: int, kinds: seq<string>): (ix: Index)
    ensures ix.spots == spots && ix.counts == counts
    ensures HashTable.Shape(ix.table) && ix.table.size == TableSize(counts)
    ensures ix.types.Keys == (set t | t in kinds) + Kinds(spots)
    ensures forall t :: t in ix.types ==> ix.types[t].ids == Ids(OfKind(spots, t)) && ix.types[t].top == []
    ensures forall t :: t in ix.types ==> multiset(ix.types[t].heap.heap) == Entries(OfKind(spots, t))
  {
    var types := Classify(InitTypes(kinds), spots);
    assert forall t :: Before(InitTypes(kinds), t) == NewEntry();
    assert forall t :: t in types ==> (types[t].ids == Ids(OfKind(spots, t)) && types[t].top == [] &&
      multiset(types[t].heap.heap) == Entries(OfKind(spots, t))) by {
      forall t | t in types
        ensures types[t].ids == Ids(OfKind(spots, t)) && types[t].top == [] &&
          multiset(types[t].heap.heap) == Entries(OfKind(spots, t))
      {
        ClassifyEntry(InitTypes(kinds), spots, t);
      }
    }
    Index(spots, counts, BuildTable(HashTable.New(TableSize(counts)), spots), types)
  }

  // ---------------------------------------------------------------------
  // The index invariant

  /** The cached list is what `getTopK` returns for its own length: in
      particular the empty list is always a consistent cache. */
  predicate CacheOk(e: TypeEntry)
  {
    e.top == TopKHeap.GetTopK(e.heap, |e.top|)
  }

  predicate HeapsConsistent(ix: Index)
  {
    forall t :: t in ix.types ==> TopKHeap.Consistent(ix.types[t].heap)
  }

  ghost predicate Valid(ix: Index)
  {
    HashTable.Valid(ix.table) &&
    forall t :: t in ix.types ==> TopKHeap.Valid(ix.types[t].heap) && CacheOk(ix.types[t])
  }

  /** When the spot ids are distinct, the heaps `classify` builds from empty
      ones are valid: no id is ever inserted twice into one heap. */
  lemma {:induction false} ClassifyValid(kinds: seq<string>, spots: seq<SpotRecord>, t: string)
    requires DistinctIds(spots) && t in Classify(InitTypes(kinds), spots)
    ensures TopKHeap.Valid(Classify(InitTypes(kinds), spots)[t].heap)
    decreases |spots|
  {
    if spots != [] {
      var pre := spots[..|spots| - 1];
      if t in Classify(InitTypes(kinds), pre) {
        DistinctPrefix(spots);
        ClassifyValid(kinds, pre, t);
      }
      ClassifyValidStep(kinds, spots, t);
    } else {
      assert InitTypes(kinds)[t] == NewEntry();
    }
  }

  lemma DistinctPrefix(spots: seq<SpotRecord>)
    requires spots != [] && DistinctIds(spots)
    ensures DistinctIds(spots[..|spots| - 1])
  {
  }

  /** The step of `ClassifyValid` from the spots before the last one. */
  lemma ClassifyValidStep(kinds: seq<string>, spots: seq<SpotRecord>, t: string)
    requires spots != [] && DistinctIds(spots)
    requires var r0 := Classify(InitTypes(kinds), spots[..|spots| - 1]); t in r0 ==> TopKHeap.Valid(r0[t].heap)
    ensures t in Classify(InitTypes(kinds), spots) ==> TopKHeap.Valid(Classify(InitTypes(kinds), spots)[t].heap)
  {
    var init := InitTypes(kinds);
    var pre := spots[..|spots| - 1];
    ClassifySnoc(init, spots);
    ClassifyEntry(init, pre, t);
    PlaceValid(kinds, spots, Classify(init, pre), t);
  }

  lemma ClassifySnoc(types: map<string, TypeEntry>, spots: seq<SpotRecord>)
    requires spots != []
    ensures Classify(types, spots) == Place(Classify(types, spots[..|spots| - 1]), spots[|spots| - 1])
  {
  }

  /** One step of `ClassifyValid`, on the entry map before the last spot. */
  lemma PlaceValid(kinds: seq<string>, spots: seq<SpotRecord>, r0: map<string, TypeEntry>, t: string)
    requires spots != [] && DistinctIds(spots)
    requires EntryAfter(InitTypes(kinds), spots[..|spots| - 1], r0, t)
    requires t in r0 ==> TopKHeap.Valid(r0[t].heap)
    ensures t in Place(r0, spots[|spots| - 1]) ==> TopKHeap.Valid(Place(r0, spots[|spots| - 1])[t].heap)
  {
    var last := spots[|spots| - 1];
    if t == last.kind {
      assert Before(InitTypes(kinds), t) == NewEntry();
      InsertFresh(Before(r0, t).heap, spots, t);
    }
  }

  /** Inserting a spot whose id no earlier spot has keeps a heap of earlier
      spots valid. */
  lemma InsertFresh(h: TopKHeap.TopKHeap, spots: seq<SpotRecord>, t: string)
    requires spots != [] && DistinctIds(spots)
    requires TopKHeap.Valid(h) && multiset(h.heap) == Entries(OfKind(spots[..|spots| - 1], t))
    ensures var s := spots[|spots| - 1]; TopKHeap.Valid(TopKHeap.Insert(h, s.id, s.score, s.visited))
  {
    var pre := spots[..|spots| - 1];
    var s := spots[|spots| - 1];
    forall x | x in pre
      ensures x.id != s.id
    {
      var j :| 0 <= j < |pre| && pre[j] == x;
      assert spots[j] == x;
    }
    if s.id in h.indexMap {
      var y := h.heap[h.indexMap[s.id]];
      assert y in multiset(h.heap);
      EntriesMember(OfKind(pre, t), y);
      assert false;
    }
    TopKHeap.InsertValid(h, s.id, s.score, s.visited);
  }

  /** An index built from a spots list with distinct ids is valid. */
  lemma BuildValid(spots: seq<SpotRecord>, counts: int, kinds: seq<string>)
    requires DistinctIds(spots)
    ensures Valid(Build(spots, counts, kinds))
  {
    BuildTableValid(HashTable.New(TableSize(counts)), spots);
    var types := Classify(InitTypes(kinds), spots);
    forall t | t in types
      ensures TopKHeap.Valid(types[t].heap) && CacheOk(types[t])
    {
      ClassifyValid(kinds, spots, t);
      ClassifyEntry(InitTypes(kinds), spots, t);
    }
  }

  // ---------------------------------------------------------------------
  // Queries

  /** `getSpot(spotId)`: None outside 1..counts, else list position
      `spotId - 1`, which raises when `counts` exceeds the list. */
  function GetSpot(ix: Index, spotId: int): (r: Result<Option<SpotRecord>>)
    ensures r == Ok(None) <==> spotId < 1 || spotId > ix.counts
    ensures r.Err? <==> 1 <= spotId <= ix.counts && spotId > |ix.spots|
    ensures r.Err? ==> r.error == IndexError
    ensures r.Ok? && r.value.Some? ==> r.value.value in ix.spots
  {
    if spotId < 1 || spotId > ix.counts then Ok(None)
    else if spotId - 1 < |ix.spots| then Ok(Some(ix.spots[spotId - 1]))
    else Err(IndexError)
  }

  /** In a spots file that numbers its spots 1, 2, ... and counts them,
      `getSpot` finds the spot with the requested id for every id in range
      and never raises. */
  lemma GetSpotById(ix: Index, spotId: int)
    requires ix.counts == |ix.spots|
    requires forall i :: 0 <= i < |ix.spots| ==> ix.spots[i].id == i + 1
    ensures GetSpot(ix, spotId).Ok?
    ensures 1 <= spotId <= ix.counts ==> GetSpot(ix, spotId).value.Some? && GetSpot(ix, spotId).value.value.id == spotId
  {
  }

  /** The loop of `getSpotByName`: intersect with the ids of each further
      character, stopping as soon as the result is empty. */
  function Narrow(h: HashTable.HashTable, acc: IntSet.IntSet, rest: string): (r: IntSet.IntSet)
    requires HashTable.Shape(h)
    ensures IntSet.Valid(acc) ==> IntSet.Valid(r)
    ensures forall y :: IntSet.Contains(r, y) <==>
      IntSet.Contains(acc, y) && forall c :: c in rest ==> y in HashTable.Search(h, c)
    decreases |rest|
  {
    if rest == [] then acc
    else
      var next := IntSet.Intersection(acc, IntSet.FromInts(HashTable.Search(h, rest[0])));
      if IntSet.IsEmpty(next) then next
      else Narrow(h, next, rest[1..])
  }

  /** `getSpotByName(keys)`: `[]` for an empty key; otherwise, without
      repetitions, exactly the ids listed under every character of the key. */
  function GetSpotByName(ix: Index, keys: string): (r: seq<int>)
    requires HashTable.Shape(ix.table)
    ensures keys == [] ==> r == []
    ensures IntSet.NoDup(r)
    ensures forall y :: y in r <==> keys != [] && forall c :: c in keys ==> y in HashTable.Search(ix.table, c)
  {
    if keys == [] then []
    else
      var first := IntSet.FromInts(HashTable.Search(ix.table, keys[0]));
      var r := Narrow(ix.table, first, keys[1..]);
      assert forall y :: y in r.elements <==> forall c :: c in keys ==> y in HashTable.Search(ix.table, c) by {
        forall y
          ensures y in r.elements <==> forall c :: c in keys ==> y in HashTable.Search(ix.table, c)
        {
          KeyChars(keys);
          assert IntSet.Contains(r, y) == (y in r.elements);
        }
      }
      IntSet.GetAllElements(r)
  }

  lemma KeyChars(keys: string)
    requires keys != []
    ensures forall c :: c in keys <==> c == keys[0] || c in keys[1..]
  {
    assert keys == [keys[0]] + keys[1..];
  }

  /** On a freshly built index, name search returns the ids of the spots
      that contain each character of the key. */
  lemma SearchByName(spots: seq<SpotRecord>, counts: int, kinds: seq<string>, keys: string, y: int)
    ensures y in GetSpotByName(Build(spots, counts, kinds), keys) <==>
      keys != [] && forall c :: c in keys ==> Named(spots, y, c)
  {
    var h0 := HashTable.New(TableSize(counts));
    BuildTableSearch(h0, spots);
    assert Build(spots, counts, kinds).table == BuildTable(h0, spots);
  }

  /** With distinct ids, name search returns the ids of the spots whose name
      contains every character of the key. */
  lemma SearchByNameDistinct(spots: seq<SpotRecord>, counts: int, kinds: seq<string>, keys: string, y: int)
    requires DistinctIds(spots)
    ensures y in GetSpotByName(Build(spots, counts, kinds), keys) <==>
      keys != [] && exists i :: 0 <= i < |spots| && spots[i].id == y && forall c :: c in keys ==> c in spots[i].name
  {
    SearchByName(spots, counts, kinds, keys, y);
    if keys != [] && y in GetSpotByName(Build(spots, counts, kinds), keys) {
      assert Named(spots, y, keys[0]);
      var i :| 0 <= i < |spots| && spots[i].id == y && keys[0] in spots[i].name;
      forall c | c in keys
        ensures c in spots[i].name
      {
        assert Named(spots, y, c);
        var j :| 0 <= j < |spots| && spots[j].id == y && c in spots[j].name;
        assert i == j;
      }
    }
    if keys != [] && exists i :: 0 <= i < |spots| && spots[i].id == y && forall c :: c in keys ==> c in spots[i].name {
      var i :| 0 <= i < |spots| && spots[i].id == y && forall c :: c in keys ==> c in spots[i].name;
      forall c | c in keys
        ensures Named(spots, y, c)
      {
        assert c in spots[i].name;
      }
    }
  }

  // ---------------------------------------------------------------------
  // Top lists

  /** `getTopKByType(spotType, k)`: `[]` and no change for an unknown type;
      the cached list when it is non-empty and of length k; otherwise the
      heap's `getTopK(k)`, which is also stored as the new cache. */
  function GetTopKByType(ix: Index, t: string, k: int): (res: (seq<Entry>, Index))
    ensures t !in ix.types ==> res == ([], ix)
    ensures t in ix.types ==> res.1 == ix.(types := ix.types[t := ix.types[t].(top := res.0)])
    ensures t in ix.types && ix.types[t].top != [] && |ix.types[t].top| == k ==> res.0 == ix.types[t].top
    ensures t in ix.types && (ix.types[t].top == [] || |ix.types[t].top| != k) ==>
      res.0 == TopKHeap.GetTopK(ix.types[t].heap, k)
  {
    if t !in ix.types then ([], ix)
    else
      var e := ix.types[t];
      if e.top == [] then
        var top := TopKHeap.GetTopK(e.heap, k);
        (top, ix.(types := ix.types[t := e.(top := top)]))
      else if |e.top| != k then
        var top := TopKHeap.GetTopK(e.heap, k);
        (top, ix.(types := ix.types[t := e.(top := top)]))
      else (e.top, ix)
  }

  /** A freshly computed top list is a consistent cache. */
  lemma FreshCacheOk(h: TopKHeap.TopKHeap, k: int, ids: seq<int>)
    ensures CacheOk(TypeEntry(ids, TopKHeap.GetTopK(h, k), h))
  {
    var r := TopKHeap.GetTopK(h, k);
    if k > 0 && |h.heap| > 0 {
      assert TopKHeap.GetTopK(h, |r|) == TopKHeap.PopN(h.heap, |r|);
    }
  }

  /** On a valid index the cache never changes the answer: `getTopKByType`
      returns the heap's `getTopK(k)`, best first, no left-out spot ranking
      above a returned one, and the index stays valid. */
  lemma TopKByTypeFresh(ix: Index, t: string, k: int)
    requires Valid(ix) && t in ix.types
    ensures GetTopKByType(ix, t, k).0 == TopKHeap.GetTopK(ix.types[t].heap, k)
    ensures SortedDesc(GetTopKByType(ix, t, k).0)
    ensures forall x, y :: (x in GetTopKByType(ix, t, k).0 &&
      y in multiset(ix.types[t].heap.heap) - multiset(GetTopKByType(ix, t, k).0)) ==> RanksAtLeast(x, y)
    ensures Valid(GetTopKByType(ix, t, k).1)
  {
    FreshCacheOk(ix.types[t].heap, k, ix.types[t].ids);
    TopKHeap.GetTopKBest(ix.types[t].heap, k);
  }

  /** `getTopKForEachType(k)`: every type's cache is set to its heap's
      `getTopK(k)`; ids and heaps stay. */
  function GetTopKForEachType(ix: Index, k: int): (r: Index)
    ensures r.spots == ix.spots && r.counts == ix.counts && r.table == ix.table
    ensures r.types.Keys == ix.types.Keys
    ensures forall t :: t in r.types ==> r.types[t].ids == ix.types[t].ids && r.types[t].heap == ix.types[t].heap
    ensures forall t :: t in r.types ==> CacheOk(r.types[t])
    ensures forall t :: t in r.types ==> GetTopKByType(r, t, k).0 == r.types[t].top
  {
    var types := map t | t in ix.types :: ix.types[t].(top := TopKHeap.GetTopK(ix.types[t].heap, k));
    assert forall t :: t in types ==> CacheOk(types[t]) by {
      forall t | t in types
        ensures CacheOk(types[t])
      {
        FreshCacheOk(ix.types[t].heap, k, ix.types[t].ids);
        assert types[t] == TypeEntry(ix.types[t].ids, TopKHeap.GetTopK(ix.types[t].heap, k), ix.types[t].heap);
      }
    }
    ix.(types := types)
  }

  lemma TopKForEachTypeValid(ix: Index, k: int)
    requires Valid(ix)
    ensures Valid(GetTopKForEachType(ix, k))
  {
  }

  // ---------------------------------------------------------------------
  // Score and visit updates

  /** `addScore(spotId, score)` after the spots file has produced `newScore`
      and reported the spot's type `kind`: the type's heap gets the new
      score; a type without an entry raises.  The cached top list is left as
      it was. */
  function AddScore(ix: Index, spotId: int, kind: string, newScore: int): (r: Result<Index>)
    requires HeapsConsistent(ix)
    ensures r.Err? <==> kind !in ix.types
    ensures r.Err? ==> r.error == KeyError
    ensures r.Ok? ==> r.value.types.Keys == ix.types.Keys && r.value.table == ix.table && r.value.spots == ix.spots
    ensures r.Ok? ==> forall t :: t in ix.types && t != kind ==> r.value.types[t] == ix.types[t]
    ensures r.Ok? ==> r.value.types[kind].top == ix.types[kind].top && r.value.types[kind].ids == ix.types[kind].ids
    ensures r.Ok? ==> r.value.types[kind].heap == TopKHeap.UpdateScore(ix.types[kind].heap, spotId, newScore).1
  {
    if kind !in ix.types then Err(KeyError)
    else
      var e := ix.types[kind];
      Ok(ix.(types := ix.types[kind := e.(heap := TopKHeap.UpdateScore(e.heap, spotId, newScore).1)]))
  }

  /** `addVisitedTime(spotId)` after the spots file has produced the new
      count `value`; as `AddScore`, the cached top list is left as it was. */
  function AddVisitedTime(ix: Index, spotId: int, kind: string, value: int): (r: Result<Index>)
    requires HeapsConsistent(ix)
    ensures r.Err? <==> kind !in ix.types
    ensures r.Err? ==> r.error == KeyError
    ensures r.Ok? ==> r.value.types.Keys == ix.types.Keys && r.value.table == ix.table && r.value.spots == ix.spots
    ensures r.Ok? ==> forall t :: t in ix.types && t != kind ==> r.value.types[t] == ix.types[t]
    ensures r.Ok? ==> r.value.types[kind].top == ix.types[kind].top && r.value.types[kind].ids == ix.types[kind].ids
    ensures r.Ok? ==> r.value.types[kind].heap == TopKHeap.UpdateVisitedTime(ix.types[kind].heap, spotId, value).1
  {
    if kind !in ix.types then Err(KeyError)
    else
      var e := ix.types[kind];
      Ok(ix.(types := ix.types[kind := e.(heap := TopKHeap.UpdateVisitedTime(e.heap, spotId, value).1)]))
  }

  /** The two-spot heap of the example below: spot 1 (score 5) above
      spot 2 (score 3). */
  function TwoParks(): TopKHeap.TopKHeap
  {
    TopKHeap.Insert(TopKHeap.Insert(TopKHeap.Empty(), 1, 5, 0), 2, 3, 0)
  }

  lemma TwoParksValid()
    ensures TopKHeap.Valid(TwoParks())
    ensures multiset(TwoParks().heap) == multiset{Entry(1, 5, 0), Entry(2, 3, 0)}
  {
    var s0 := TopKHeap.Insert(TopKHeap.Empty(), 1, 5, 0);
    TopKHeap.InsertValid(TopKHeap.Empty(), 1, 5, 0);
    assert s0.heap == [Entry(1, 5, 0)];
    TopKHeap.ItemAtIdPosition(s0, Entry(1, 5, 0));
    TopKHeap.InsertValid(s0, 2, 3, 0);
  }

  /** The single best entry of a valid heap outranks every other entry. */
  lemma TopOne(h: TopKHeap.TopKHeap, x: Entry, y: Entry)
    requires TopKHeap.Valid(h) && multiset(h.heap) == multiset{x, y} && !RanksAtLeast(y, x)
    ensures TopKHeap.GetTopK(h, 1) == [x]
  {
    TopKHeap.GetTopKBest(h, 1);
    var top := TopKHeap.GetTopK(h, 1);
    assert |top| == 1 && top[0] in multiset(h.heap);
    if top[0] == y {
      assert false;
    }
  }

  /** As written, `addScore` never touches the cached list: a cache that
      `getTopKByType(t, k)` would reuse is still returned afterwards. */
  lemma AddScoreKeepsCache(ix: Index, spotId: int, kind: string, newScore: int, k: int)
    requires HeapsConsistent(ix) && kind in ix.types
    requires ix.types[kind].top != [] && |ix.types[kind].top| == k
    ensures AddScore(ix, spotId, kind, newScore).Ok?
    ensures GetTopKByType(AddScore(ix, spotId, kind, newScore).value, kind, k).0 == ix.types[kind].top
  {
  }

  /** A valid index whose "park" type holds spots 1 (score 5) and 2
      (score 3) and has cached its top-1 list, as `TwoParks()` would: after
      `addScore` lifts spot 2 to 9, `getTopKByType("park", 1)` still answers
      with spot 1, although the heap now ranks spot 2 first. */
  lemma StaleTopAfterAddScore(ix: Index)
    requires Valid(ix) && "park" in ix.types && |ix.types["park"].top| == 1
    requires multiset(ix.types["park"].heap.heap) == multiset{Entry(1, 5, 0), Entry(2, 3, 0)}
    ensures AddScore(ix, 2, "park", 9).Ok?
    ensures GetTopKByType(AddScore(ix, 2, "park", 9).value, "park", 1).0 == [Entry(1, 5, 0)]
    ensures TopKHeap.GetTopK(AddScore(ix, 2, "park", 9).value.types["park"].heap, 1) == [Entry(2, 9, 0)]
  {
    LiftSecond(ix.types["park"].heap);
    AddScoreKeepsCache(ix, 2, "park", 9, 1);
  }

  /** The heap side of the example: spot 1 leads before the update and
      spot 2, now scored 9, leads after it. */
  lemma LiftSecond(h: TopKHeap.TopKHeap)
    requires TopKHeap.Valid(h) && multiset(h.heap) == multiset{Entry(1, 5, 0), Entry(2, 3, 0)}
    ensures TopKHeap.GetTopK(h, 1) == [Entry(1, 5, 0)]
    ensures TopKHeap.GetTopK(TopKHeap.UpdateScore(h, 2, 9).1, 1) == [Entry(2, 9, 0)]
  {
    TopOne(h, Entry(1, 5, 0), Entry(2, 3, 0));
    LiftedHeap(h);
    TopOne(TopKHeap.UpdateScore(h, 2, 9).1, Entry(2, 9, 0), Entry(1, 5, 0));
  }

  lemma LiftedHeap(h: TopKHeap.TopKHeap)
    requires TopKHeap.Valid(h) && multiset(h.heap) == multiset{Entry(1, 5, 0), Entry(2, 3, 0)}
    ensures TopKHeap.Valid(TopKHeap.UpdateScore(h, 2, 9).1)
    ensures multiset(TopKHeap.UpdateScore(h, 2, 9).1.heap) == multiset{Entry(2, 9, 0), Entry(1, 5, 0)}
  {
    TopKHeap.ItemAtIdPosition(h, Entry(2, 3, 0));
    TopKHeap.UpdateScoreValid(h, 2, 9);
  }

  /** `addScore` that also drops the type's cached list, so the next
      `getTopKByType` recomputes it. */
  function AddScoreCorrected(ix: Index, spotId: int, kind: string, newScore: int): (r: Result<Index>)
    requires HeapsConsistent(ix)
    ensures r.Err? <==> kind !in ix.types
    ensures r.Err? ==> r.error == KeyError
    ensures r.Ok? ==> r.value.types.Keys == ix.types.Keys && r.value.table == ix.table && r.value.spots == ix.spots
    ensures r.Ok? ==> forall t :: t in ix.types && t != kind ==> r.value.types[t] == ix.types[t]
    ensures r.Ok? ==> r.value.types[kind].top == [] && r.value.types[kind].ids == ix.types[kind].ids
    ensures r.Ok? ==> r.value.types[kind].heap == TopKHeap.UpdateScore(ix.types[kind].heap, spotId, newScore).1
  {
    if kind !in ix.types then Err(KeyError)
    else
      var e := ix.types[kind];
      Ok(ix.(types := ix.types[kind := TypeEntry(e.ids, [], TopKHeap.UpdateScore(e.heap, spotId, newScore).1)]))
  }

  /** `addVisitedTime` that drops the type's cached list and re-sifts in the
      direction the new count calls for. */
  function AddVisitedTimeCorrected(ix: Index, spotId: int, kind: string, value: int): (r: Result<Index>)
    requires HeapsConsistent(ix)
    ensures r.Err? <==> kind !in ix.types
    ensures r.Err? ==> r.error == KeyError
    ensures r.Ok? ==> r.value.types.Keys == ix.types.Keys && r.value.table == ix.table && r.value.spots == ix.spots
    ensures r.Ok? ==> forall t :: t in ix.types && t != kind ==> r.value.types[t] == ix.types[t]
    ensures r.Ok? ==> r.value.types[kind].top == [] && r.value.types[kind].ids == ix.types[kind].ids
    ensures r.Ok? ==> r.value.types[kind].heap == TopKHeap.UpdateVisitedTimeRestoring(ix.types[kind].heap, spotId, value).1
  {
    if kind !in ix.types then Err(KeyError)
    else
      var e := ix.types[kind];
      Ok(ix.(types := ix.types[kind := TypeEntry(e.ids, [], TopKHeap.UpdateVisitedTimeRestoring(e.heap, spotId, value).1)]))
  }

  lemma ValidConsistent(ix: Index)
    requires Valid(ix)
    ensures HeapsConsistent(ix)
  {
  }

  /** Replacing one type's entry by a valid entry with a consistent cache
      keeps the index valid. */
  lemma ReplaceEntry(ix: Index, kind: string, e: TypeEntry)
    requires Valid(ix) && TopKHeap.Valid(e.heap) && CacheOk(e)
    ensures Valid(ix.(types := ix.types[kind := e]))
  {
    var ts := ix.types[kind := e];
    forall t | t in ts
      ensures TopKHeap.Valid(ts[t].heap) && CacheOk(ts[t])
    {
      if t != kind {
        assert ts[t] == ix.types[t];
      }
    }
  }

  /** The corrected `addScore` keeps the index valid, so the next top list
      of the type is the updated heap's `getTopK(k)`. */
  lemma AddScoreCorrectedFresh(ix: Index, spotId: int, kind: string, newScore: int, k: int)
    requires Valid(ix) && kind in ix.types
    ensures HeapsConsistent(ix)
    ensures var ix1 := AddScoreCorrected(ix, spotId, kind, newScore).value;
      Valid(ix1) && GetTopKByType(ix1, kind, k).0 == TopKHeap.GetTopK(ix1.types[kind].heap, k)
  {
    ValidConsistent(ix);
    var e := ix.types[kind];
    var h := TopKHeap.UpdateScore(e.heap, spotId, newScore).1;
    TopKHeap.UpdateScoreValid(e.heap, spotId, newScore);
    ReplaceEntry(ix, kind, TypeEntry(e.ids, [], h));
    var ix1 := ix.(types := ix.types[kind := TypeEntry(e.ids, [], h)]);
    assert AddScoreCorrected(ix, spotId, kind, newScore) == Ok(ix1);
    TopKByTypeFresh(ix1, kind, k);
  }

  /** The corrected `addVisitedTime` keeps the index valid for every new
      count, so the next top list of the type is the updated heap's
      `getTopK(k)`. */
  lemma AddVisitedTimeCorrectedFresh(ix: Index, spotId: int, kind: string, value: int, k: int)
    requires Valid(ix) && kind in ix.types
    ensures HeapsConsistent(ix)
    ensures var ix1 := AddVisitedTimeCorrected(ix, spotId, kind, value).value;
      Valid(ix1) && GetTopKByType(ix1, kind, k).0 == TopKHeap.GetTopK(ix1.types[kind].heap, k)
  {
    ValidConsistent(ix);
    var e := ix.types[kind];
    var h := TopKHeap.UpdateVisitedTimeRestoring(e.heap, spotId, value).1;
    TopKHeap.UpdateVisitedTimeRestoringValid(e.heap, spotId, value);
    ReplaceEntry(ix, kind, TypeEntry(e.ids, [], h));
    var ix1 := ix.(types := ix.types[kind := TypeEntry(e.ids, [], h)]);
    assert AddVisitedTimeCorrected(ix, spotId, kind, value) == Ok(ix1);
    TopKByTypeFresh(ix1, kind, k);
  }
}

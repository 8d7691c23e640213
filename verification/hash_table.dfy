/** The character index `HashTable` of module/data_structure/hashtable.py.

    The table maps each character of an object's name to the ids of the
    objects whose names contain it.  It has `size` buckets; a bucket is either
    unused (`None`) or a list of nodes, each node pairing one character with
    its list of ids.  A character lives in bucket `ord(c) % size`.

    The Python methods mutate the table in place; here each one returns the
    new table.  Everything is observed through `Search`.
 */
module HashTable {
  import opened Wrappers

  datatype Node = Node(c: char, ids: seq<int>)

  datatype HashTable = HashTable(size: nat, buckets: seq<Option<seq<Node>>>)

  /** The table has as many buckets as its size says, and at least one. */
  predicate Shape(h: HashTable)
  {
    h.size > 0 && |h.buckets| == h.size
  }

  predicate NoDup(xs: seq<int>)
  {
    xs == [] || (xs[0] !in xs[1..] && NoDup(xs[1..]))
  }

  /** The characters that have a node in a bucket. */
  function Chars(b: seq<Node>): set<char>
  {
    if b == [] then {} else {b[0].c} + Chars(b[1..])
  }

  /** Within a bucket no character has two nodes, and every node holds a
      non-empty list of distinct ids. */
  predicate BucketOk(b: seq<Node>)
  {
    b == [] || (b[0].ids != [] && NoDup(b[0].ids) && b[0].c !in Chars(b[1..]) && BucketOk(b[1..]))
  }

  /** The nodes of bucket `i`; an unused bucket has none. */
  function Bucket(h: HashTable, i: nat): seq<Node>
    requires i < |h.buckets|
  {
    if h.buckets[i].None? then [] else h.buckets[i].value
  }

  /** The invariant `insert` and `delete` keep. */
  predicate Valid(h: HashTable)
  {
    Shape(h) && forall i :: 0 <= i < |h.buckets| ==> BucketOk(Bucket(h, i))
  }

  /** `HashTable(size)`: every bucket unused. */
  function New(size: nat): (h: HashTable)
    requires size > 0
    ensures Valid(h) && h.size == size
    ensures forall c :: Search(h, c) == []
  {
    HashTable(size, seq(size, _ => None))
  }

  /** `_hash(key)`: the code point of the character modulo the size. */
  function Hash(c: char, size: nat): (i: nat)
    requires size > 0
    ensures i < size
  {
    (c as int) % size
  }

  // ---------------------------------------------------------------------
  // Id lists

  /** Appending an id unless it is already listed. */
  function AddId(ids: seq<int>, id: int): (r: seq<int>)
    ensures id in r && multiset(ids) <= multiset(r)
    ensures id in ids ==> r == ids
  {
    if id in ids then ids else ids + [id]
  }

  /** Python's `list.remove`, guarded by `in`: drop the first occurrence, if any. */
  function Remove(ids: seq<int>, x: int): (r: seq<int>)
    ensures multiset(r) == multiset(ids) - multiset{x}
    ensures x !in ids ==> r == ids
  {
    if ids == [] then []
    else
      assert ids == [ids[0]] + ids[1..];
      if ids[0] == x then ids[1..]
      else [ids[0]] + Remove(ids[1..], x)
  }

  lemma {:induction false} AddIdNoDup(ids: seq<int>, id: int)
    requires NoDup(ids)
    ensures NoDup(AddId(ids, id))
  {
    if id !in ids {
      AppendNoDup(ids, id);
    }
  }

  lemma {:induction false} AppendNoDup(s: seq<int>, x: int)
    requires NoDup(s) && x !in s
    ensures NoDup(s + [x])
  {
    if s != [] {
      assert (s + [x])[1..] == s[1..] + [x];
      AppendNoDup(s[1..], x);
    }
  }

  /** Removing from a list without repeats leaves one without repeats and
      without the removed id. */
  lemma {:induction false} RemoveNoDup(ids: seq<int>, x: int)
    requires NoDup(ids)
    ensures NoDup(Remove(ids, x)) && x !in Remove(ids, x)
  {
    if ids != [] && ids[0] != x {
      var rt := Remove(ids[1..], x);
      RemoveNoDup(ids[1..], x);
      assert ids[0] !in multiset(rt);
      assert ([ids[0]] + rt)[1..] == rt;
    }
  }

  // ---------------------------------------------------------------------
  // One bucket

  /** The ids of the first node for `c`, or the empty list: the loop of `search`. */
  function Lookup(b: seq<Node>, c: char): seq<int>
  {
    if b == [] then []
    else if b[0].c == c then b[0].ids
    else Lookup(b[1..], c)
  }

  /** The bucket loop of `insert`: add `id` to the first node for `c` unless
      it is listed there already, or append a new node for `c`. */
  function BucketInsert(b: seq<Node>, id: int, c: char): (r: seq<Node>)
    ensures Chars(r) == Chars(b) + {c}
  {
    if b == [] then [Node(c, [id])]
    else if b[0].c == c then [Node(c, AddId(b[0].ids, id))] + b[1..]
    else [b[0]] + BucketInsert(b[1..], id, c)
  }

  /** The bucket loop of `delete`: remove `id` from the first node for `c`
      and drop that node once its list is empty. */
  function BucketDelete(b: seq<Node>, id: int, c: char): (r: seq<Node>)
    ensures Chars(r) <= Chars(b)
  {
    if b == [] then []
    else if b[0].c == c then
      var ids := Remove(b[0].ids, id);
      if ids == [] then b[1..] else [Node(c, ids)] + b[1..]
    else [b[0]] + BucketDelete(b[1..], id, c)
  }

  lemma {:induction false} LookupAbsent(b: seq<Node>, c: char)
    requires c !in Chars(b)
    ensures Lookup(b, c) == []
  {
    if b != [] {
      LookupAbsent(b[1..], c);
    }
  }

  lemma {:induction false} LookupNoDup(b: seq<Node>, c: char)
    requires BucketOk(b)
    ensures NoDup(Lookup(b, c))
  {
    if b != [] && b[0].c != c {
      LookupNoDup(b[1..], c);
    }
  }

  lemma {:induction false} LookupInsert(b: seq<Node>, id: int, c: char, d: char)
    ensures Lookup(BucketInsert(b, id, c), d) == if d == c then AddId(Lookup(b, c), id) else Lookup(b, d)
  {
    if b != [] && b[0].c != c {
      LookupInsert(b[1..], id, c, d);
    }
  }

  lemma {:induction false} LookupDelete(b: seq<Node>, id: int, c: char, d: char)
    requires BucketOk(b)
    ensures Lookup(BucketDelete(b, id, c), d) == if d == c then Remove(Lookup(b, c), id) else Lookup(b, d)
  {
    if b != [] {
      if b[0].c == c {
        if d == c && Remove(b[0].ids, id) == [] {
          LookupAbsent(b[1..], c);
        }
      } else {
        LookupDelete(b[1..], id, c, d);
      }
    }
  }

  lemma {:induction false} BucketInsertOk(b: seq<Node>, id: int, c: char)
    requires BucketOk(b)
    ensures BucketOk(BucketInsert(b, id, c))
  {
    if b != [] {
      if b[0].c == c {
        AddIdNoDup(b[0].ids, id);
      } else {
        BucketInsertOk(b[1..], id, c);
      }
    }
  }

  lemma {:induction false} BucketDeleteOk(b: seq<Node>, id: int, c: char)
    requires BucketOk(b)
    ensures BucketOk(BucketDelete(b, id, c))
  {
    if b != [] {
      if b[0].c == c {
        RemoveNoDup(b[0].ids, id);
      } else {
        BucketDeleteOk(b[1..], id, c);
      }
    }
  }

  // ---------------------------------------------------------------------
  // The table

  /** `search(key)`: the ids of the first node for `key` in its bucket, or
      the empty list when the bucket is unused or has no such node. */
  function Search(h: HashTable, c: char): seq<int>
    requires Shape(h)
  {
    Lookup(Bucket(h, Hash(c, h.size)), c)
  }

  /** One character of `insert`: the character's bucket, created when
      unused, gets `id` for `c`. */
  function InsertChar(h: HashTable, id: int, c: char): (r: HashTable)
    requires Shape(h)
    ensures Shape(r) && r.size == h.size
  {
    var i := Hash(c, h.size);
    h.(buckets := h.buckets[i := Some(BucketInsert(Bucket(h, i), id, c))])
  }

  /** `insert({"id": id, "name": name})`. */
  function Insert(h: HashTable, id: int, name: string): (r: HashTable)
    requires Shape(h)
    ensures Shape(r) && r.size == h.size
    decreases |name|
  {
    if name == [] then h else Insert(InsertChar(h, id, name[0]), id, name[1..])
  }

  /** One character of `delete`: an unused bucket is skipped; otherwise
      `id` is removed for `c`. */
  function DeleteChar(h: HashTable, id: int, c: char): (r: HashTable)
    requires Shape(h)
    ensures Shape(r) && r.size == h.size
  {
    var i := Hash(c, h.size);
    if h.buckets[i].None? then h
    else h.(buckets := h.buckets[i := Some(BucketDelete(h.buckets[i].value, id, c))])
  }

  /** `delete(obj_id, name)`. */
  function Delete(h: HashTable, id: int, name: string): (r: HashTable)
    requires Shape(h)
    ensures Shape(r) && r.size == h.size
    decreases |name|
  {
    if name == [] then h else Delete(DeleteChar(h, id, name[0]), id, name[1..])
  }

  /** Replacing bucket `i` changes the search results of its characters only. */
  lemma SearchReplaced(h: HashTable, i: nat, b: seq<Node>, d: char)
    requires Shape(h) && i < h.size
    ensures Search(h.(buckets := h.buckets[i := Some(b)]), d)
            == if Hash(d, h.size) == i then Lookup(b, d) else Search(h, d)
  {
  }

  lemma ValidReplaced(h: HashTable, i: nat, b: seq<Node>)
    requires Valid(h) && i < h.size && BucketOk(b)
    ensures Valid(h.(buckets := h.buckets[i := Some(b)]))
  {
    var r := h.(buckets := h.buckets[i := Some(b)]);
    forall j | 0 <= j < |r.buckets|
      ensures BucketOk(Bucket(r, j))
    {
      if j != i {
        assert Bucket(r, j) == Bucket(h, j);
      }
    }
  }

  /** Every search result of a valid table lists distinct ids. */
  lemma SearchNoDup(h: HashTable, c: char)
    requires Valid(h)
    ensures NoDup(Search(h, c))
  {
    LookupNoDup(Bucket(h, Hash(c, h.size)), c);
  }

  /** After inserting `id` for `c`, searching `c` lists `id` (once) after the
      ids it listed before; every other character is unaffected. */
  lemma InsertCharSearch(h: HashTable, id: int, c: char, d: char)
    requires Shape(h)
    ensures Search(InsertChar(h, id, c), d) == if d == c then AddId(Search(h, c), id) else Search(h, d)
  {
    var i := Hash(c, h.size);
    SearchReplaced(h, i, BucketInsert(Bucket(h, i), id, c), d);
    LookupInsert(Bucket(h, i), id, c, d);
  }

  lemma InsertCharValid(h: HashTable, id: int, c: char)
    requires Valid(h)
    ensures Valid(InsertChar(h, id, c))
  {
    var i := Hash(c, h.size);
    BucketInsertOk(Bucket(h, i), id, c);
    ValidReplaced(h, i, BucketInsert(Bucket(h, i), id, c));
  }

  /** After deleting `id` for `c`, searching `c` no longer lists it and the
      other ids keep their order; every other character is unaffected. */
  lemma DeleteCharSearch(h: HashTable, id: int, c: char, d: char)
    requires Valid(h)
    ensures Search(DeleteChar(h, id, c), d) == if d == c then Remove(Search(h, c), id) else Search(h, d)
  {
    var i := Hash(c, h.size);
    if h.buckets[i].Some? {
      var b := h.buckets[i].value;
      assert BucketOk(Bucket(h, i));
      SearchReplaced(h, i, BucketDelete(b, id, c), d);
      LookupDelete(b, id, c, d);
    }
  }

  /** `delete` keeps the invariant: in particular a node whose last id goes
      is dropped. */
  lemma DeleteCharValid(h: HashTable, id: int, c: char)
    requires Valid(h)
    ensures Valid(DeleteChar(h, id, c))
  {
    var i := Hash(c, h.size);
    if h.buckets[i].Some? {
      var b := h.buckets[i].value;
      assert BucketOk(Bucket(h, i));
      BucketDeleteOk(b, id, c);
      ValidReplaced(h, i, BucketDelete(b, id, c));
    }
  }

  /** Searching any character after `insert(id, name)`: the characters of
      the name list `id`, added at the end if it was missing; the rest are
      unaffected. */
  lemma {:induction false} InsertSearch(h: HashTable, id: int, name: string)
    requires Shape(h)
    ensures forall d :: Search(Insert(h, id, name), d) == if d in name then AddId(Search(h, d), id) else Search(h, d)
    decreases |name|
  {
    if name != [] {
      var h1 := InsertChar(h, id, name[0]);
      InsertSearch(h1, id, name[1..]);
      forall d
        ensures Search(Insert(h, id, name), d) == if d in name then AddId(Search(h, d), id) else Search(h, d)
      {
        InsertCharSearch(h, id, name[0], d);
        assert d in name <==> d == name[0] || d in name[1..];
      }
    }
  }

  lemma {:induction false} InsertValid(h: HashTable, id: int, name: string)
    requires Valid(h)
    ensures Valid(Insert(h, id, name))
    decreases |name|
  {
    if name != [] {
      InsertCharValid(h, id, name[0]);
      InsertValid(InsertChar(h, id, name[0]), id, name[1..]);
    }
  }

  /** Searching any character after `delete(id, name)`: the characters of
      the name no longer list `id`; the rest are unaffected. */
  lemma {:induction false} DeleteSearch(h: HashTable, id: int, name: string)
    requires Valid(h)
    ensures forall d :: Search(Delete(h, id, name), d) == if d in name then Remove(Search(h, d), id) else Search(h, d)
    decreases |name|
  {
    if name != [] {
      var h1 := DeleteChar(h, id, name[0]);
      DeleteCharValid(h, id, name[0]);
      DeleteSearch(h1, id, name[1..]);
      forall d
        ensures Search(Delete(h, id, name), d) == if d in name then Remove(Search(h, d), id) else Search(h, d)
      {
        DeleteCharSearch(h, id, name[0], d);
        if d == name[0] {
          SearchNoDup(h, d);
          RemoveNoDup(Search(h, d), id);
        }
        assert d in name <==> d == name[0] || d in name[1..];
      }
    }
  }

  lemma {:induction false} DeleteValid(h: HashTable, id: int, name: string)
    requires Valid(h)
    ensures Valid(Delete(h, id, name))
    decreases |name|
  {
    if name != [] {
      DeleteCharValid(h, id, name[0]);
      DeleteValid(DeleteChar(h, id, name[0]), id, name[1..]);
    }
  }

  /** After `delete(id, name)` no character of the name lists `id`. */
  lemma DeleteRemovesId(h: HashTable, id: int, name: string)
    requires Valid(h)
    ensures forall d :: d in name ==> id !in Search(Delete(h, id, name), d)
  {
    DeleteSearch(h, id, name);
    forall d | d in name
      ensures id !in Search(Delete(h, id, name), d)
    {
      SearchNoDup(h, d);
      RemoveNoDup(Search(h, d), id);
    }
  }

  /** Deleting an object that was just inserted, under an id no character
      of its name listed before, gives every search its old result back. */
  lemma InsertDelete(h: HashTable, id: int, name: string)
    requires Valid(h)
    requires forall d :: d in name ==> id !in Search(h, d)
    ensures forall d :: Search(Delete(Insert(h, id, name), id, name), d) == Search(h, d)
  {
    InsertSearch(h, id, name);
    InsertValid(h, id, name);
    DeleteSearch(Insert(h, id, name), id, name);
    forall d | d in name
      ensures Remove(AddId(Search(h, d), id), id) == Search(h, d)
    {
      RemoveLast(Search(h, d), id);
    }
  }

  lemma {:induction false} RemoveLast(s: seq<int>, x: int)
    requires x !in s
    ensures Remove(s + [x], x) == s
  {
    if s != [] {
      assert (s + [x])[1..] == s[1..] + [x];
      RemoveLast(s[1..], x);
    }
  }
}

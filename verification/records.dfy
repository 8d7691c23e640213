/** The persisted records of `Model.py`: `Diary`, `Reviews` and `Spot`,
    with their `to_dict` / `from_dict` conversions.

    A dictionary as `json` reads and writes it is a `map<string, Value>`.
    `from_dict` follows `dict.get` with the source's defaults.  Where the
    source would build a record holding `None` or a value of another type
    (a missing `"id"`, a string where a count belongs), the model refuses
    with `TypeError` instead; a `"reviews"` entry that is not a dictionary
    makes the source call `.get` on it and fail with `AttributeError`.
    Scores are whole numbers here.
 */
module Records {
  import opened Wrappers
  import RbTree

  // ---------------------------------------------------------------------
  // Dictionaries
  // ---------------------------------------------------------------------

  datatype Value =
    | Null
    | Int(i: int)
    | Bool(b: bool)
    | Str(s: string)
    | List(items: seq<Value>)
    | Dict(fields: map<string, Value>)

  type Dictionary = map<string, Value>

  /** `dict.get(key, default)`. */
  function Get(d: Dictionary, key: string, default: Value): Value
  {
    if key in d then d[key] else default
  }

  function AsInt(v: Value): (r: Result<int>)
    ensures r.Ok? <==> v.Int?
    ensures r.Ok? ==> v == Int(r.value)
  {
    if v.Int? then Ok(v.i) else Err(TypeError)
  }

  function AsStr(v: Value): (r: Result<string>)
    ensures r.Ok? <==> v.Str?
    ensures r.Ok? ==> v == Str(r.value)
  {
    if v.Str? then Ok(v.s) else Err(TypeError)
  }

  function AsBool(v: Value): (r: Result<bool>)
    ensures r.Ok? <==> v.Bool?
    ensures r.Ok? ==> v == Bool(r.value)
  {
    if v.Bool? then Ok(v.b) else Err(TypeError)
  }

  /** A field whose absence the record keeps as `None`. */
  function AsOptionalStr(v: Value): (r: Result<Option<string>>)
    ensures r.Ok? <==> v.Null? || v.Str?
    ensures r == Ok(None) <==> v.Null?
  {
    if v.Null? then Ok(None) else if v.Str? then Ok(Some(v.s)) else Err(TypeError)
  }

  function AsOptionalInt(v: Value): (r: Result<Option<int>>)
    ensures r.Ok? <==> v.Null? || v.Int?
    ensures r == Ok(None) <==> v.Null?
  {
    if v.Null? then Ok(None) else if v.Int? then Ok(Some(v.i)) else Err(TypeError)
  }

  function OptionalStr(o: Option<string>): Value
  {
    if o.Some? then Str(o.value) else Null
  }

  function OptionalInt(o: Option<int>): Value
  {
    if o.Some? then Int(o.value) else Null
  }

  function StrValues(ss: seq<string>): (r: seq<Value>)
    ensures |r| == |ss|
  {
    if ss == [] then [] else [Str(ss[0])] + StrValues(ss[1..])
  }

  function IntValues(ns: seq<int>): (r: seq<Value>)
    ensures |r| == |ns|
  {
    if ns == [] then [] else [Int(ns[0])] + IntValues(ns[1..])
  }

  /** The strings of a list that holds only strings. */
  function Strings(vs: seq<Value>): (r: Result<seq<string>>)
    ensures r.Ok? <==> forall i :: 0 <= i < |vs| ==> vs[i].Str?
    ensures r.Ok? ==> |r.value| == |vs| && forall i :: 0 <= i < |vs| ==> vs[i] == Str(r.value[i])
  {
    if vs == [] then Ok([])
    else if !vs[0].Str? then Err(TypeError)
    else
      var rest :- Strings(vs[1..]);
      Ok([vs[0].s] + rest)
  }

  /** The numbers of a list that holds only numbers. */
  function Ints(vs: seq<Value>): (r: Result<seq<int>>)
    ensures r.Ok? <==> forall i :: 0 <= i < |vs| ==> vs[i].Int?
    ensures r.Ok? ==> |r.value| == |vs| && forall i :: 0 <= i < |vs| ==> vs[i] == Int(r.value[i])
  {
    if vs == [] then Ok([])
    else if !vs[0].Int? then Err(TypeError)
    else
      var rest :- Ints(vs[1..]);
      Ok([vs[0].i] + rest)
  }

  lemma {:induction false} StringsRoundTrip(ss: seq<string>)
    ensures Strings(StrValues(ss)) == Ok(ss)
  {
    if ss != [] {
      assert StrValues(ss)[1..] == StrValues(ss[1..]) && StrValues(ss)[0] == Str(ss[0]);
      StringsRoundTrip(ss[1..]);
      assert ss == [ss[0]] + ss[1..];
    }
  }

  lemma {:induction false} IntsRoundTrip(ns: seq<int>)
    ensures Ints(IntValues(ns)) == Ok(ns)
  {
    if ns != [] {
      assert IntValues(ns)[1..] == IntValues(ns[1..]) && IntValues(ns)[0] == Int(ns[0]);
      IntsRoundTrip(ns[1..]);
      assert ns == [ns[0]] + ns[1..];
    }
  }

  /** `x if x is not None else []` on a list of strings. */
  function StrListOrEmpty(v: Value): (r: Result<seq<string>>)
    ensures v.Null? ==> r == Ok([])
    ensures r.Ok? ==> v.Null? || v.List?
  {
    if v.Null? then Ok([])
    else if v.List? then Strings(v.items)
    else Err(TypeError)
  }

  // ---------------------------------------------------------------------
  // Diary
  // ---------------------------------------------------------------------

  datatype Diary = Diary(
    id: int,
    userName: string,
    userId: int,
    spotId: int,
    content: string,
    title: string,
    time: string,
    score: int,
    scoreCount: int,
    visitedTime: int,
    imgList: seq<string>,
    videoPath: seq<string>,
    compressed: bool,
    scoreToSpot: Option<int>)

  /** `Diary.__init__`: an empty or missing time becomes today's date,
      `now`, which the caller reads from the clock (never empty); missing
      image and video lists become empty ones. */
  function NewDiary(id: int, userName: string, userId: int, spotId: int, content: string, title: string,
                    images: Option<seq<string>>, videos: Option<seq<string>>, scoreToSpot: Option<int>,
                    time: Option<string>, score: int, scoreCount: int, visitedTime: int, compressed: bool,
                    now: string): (r: Diary)
    requires now != ""
    ensures r.time != ""
    ensures r.time == (if time.Some? && time.value != "" then time.value else now)
    ensures r.imgList == (if images.Some? then images.value else [])
    ensures r.videoPath == (if videos.Some? then videos.value else [])
  {
    Diary(id, userName, userId, spotId, content, title,
          if time.Some? && time.value != "" then time.value else now,
          score, scoreCount, visitedTime,
          if images.Some? then images.value else [],
          if videos.Some? then videos.value else [],
          compressed, scoreToSpot)
  }

  /** `Diary.to_dict`. */
  function DiaryToDict(d: Diary): Dictionary
  {
    map[
      "id" := Int(d.id),
      "user_name" := Str(d.userName),
      "user_id" := Int(d.userId),
      "spot_id" := Int(d.spotId),
      "content" := Str(d.content),
      "title" := Str(d.title),
      "time" := Str(d.time),
      "score" := Int(d.score),
      "score_count" := Int(d.scoreCount),
      "visited_time" := Int(d.visitedTime),
      "img_list" := List(StrValues(d.imgList)),
      "video_path" := List(StrValues(d.videoPath)),
      "compressed" := Bool(d.compressed),
      "scoreToSpot" := OptionalInt(d.scoreToSpot)
    ]
  }

  /** The type a field must have. */
  datatype Shape = IntShape | StrShape | BoolShape | NullableInt | NullableStr | NullableStrList

  predicate Fits(v: Value, shape: Shape)
  {
    match shape
    case IntShape => v.Int?
    case StrShape => v.Str?
    case BoolShape => v.Bool?
    case NullableInt => v.Null? || v.Int?
    case NullableStr => v.Null? || v.Str?
    case NullableStrList => v.Null? || (v.List? && forall i :: 0 <= i < |v.items| ==> v.items[i].Str?)
  }

  /** A `key` that `from_dict` reads with no default: present and well typed. */
  predicate Required(d: Dictionary, key: string, shape: Shape)
  {
    key in d && Fits(d[key], shape)
  }

  /** A `key` read with a default: absent, or present and well typed. */
  predicate Defaulted(d: Dictionary, key: string, shape: Shape)
  {
    key !in d || Fits(d[key], shape)
  }

  /** The dictionaries `Diary.from_dict` turns into a well-typed diary. */
  predicate DiaryShaped(d: Dictionary)
  {
    Required(d, "id", IntShape) &&
    Defaulted(d, "user_name", StrShape) &&
    Required(d, "user_id", IntShape) &&
    Required(d, "spot_id", IntShape) &&
    Required(d, "content", StrShape) &&
    Required(d, "title", StrShape) &&
    Defaulted(d, "time", NullableStr) &&
    Defaulted(d, "score", IntShape) &&
    Defaulted(d, "score_count", IntShape) &&
    Defaulted(d, "visited_time", IntShape) &&
    Defaulted(d, "img_list", NullableStrList) &&
    Defaulted(d, "video_path", NullableStrList) &&
    Defaulted(d, "compressed", BoolShape) &&
    Defaulted(d, "scoreToSpot", NullableInt)
  }

  /** `Diary.from_dict`. */
  function DiaryFromDict(data: Dictionary, now: string): (r: Result<Diary>)
    requires now != ""
    ensures r.Ok? <==> DiaryShaped(data)
    ensures r.Ok? ==> r.value.time != ""
    ensures r.Ok? && "time" in data && data["time"].Str? && data["time"].s != "" ==> r.value.time == data["time"].s
    ensures r.Ok? && ("time" !in data || data["time"] in {Null, Str("")}) ==> r.value.time == now
    ensures r.Ok? ==> Get(data, "user_name", Str("")) == Str(r.value.userName)
    ensures r.Ok? ==> Get(data, "score", Int(0)) == Int(r.value.score)
    ensures r.Ok? ==> Get(data, "visited_time", Int(0)) == Int(r.value.visitedTime)
  {
    var id :- AsInt(Get(data, "id", Null));
    var userName :- AsStr(Get(data, "user_name", Str("")));
    var userId :- AsInt(Get(data, "user_id", Null));
    var spotId :- AsInt(Get(data, "spot_id", Null));
    var content :- AsStr(Get(data, "content", Null));
    var title :- AsStr(Get(data, "title", Null));
    var time :- AsOptionalStr(Get(data, "time", Null));
    var score :- AsInt(Get(data, "score", Int(0)));
    var scoreCount :- AsInt(Get(data, "score_count", Int(0)));
    var visitedTime :- AsInt(Get(data, "visited_time", Int(0)));
    var images :- StrListOrEmpty(Get(data, "img_list", List([])));
    var videos :- StrListOrEmpty(Get(data, "video_path", List([])));
    var compressed :- AsBool(Get(data, "compressed", Bool(false)));
    var scoreToSpot :- AsOptionalInt(Get(data, "scoreToSpot", Null));
    Ok(NewDiary(id, userName, userId, spotId, content, title, Some(images), Some(videos), scoreToSpot,
                time, score, scoreCount, visitedTime, compressed, now))
  }

  /** Every diary the constructor can produce survives `to_dict` followed
      by `from_dict` unchanged, whatever day it is read back. */
  lemma DiaryRoundTrip(d: Diary, now: string)
    requires now != "" && d.time != ""
    ensures DiaryFromDict(DiaryToDict(d), now) == Ok(d)
  {
    var data := DiaryToDict(d);
    DiaryDictFields(d);
    DiaryDictCounts(d);
    StringsRoundTrip(d.imgList);
    StringsRoundTrip(d.videoPath);
  }

  /** What `from_dict` reads back from `to_dict`. */
  lemma DiaryDictFields(d: Diary)
    ensures var data := DiaryToDict(d);
      Get(data, "id", Null) == Int(d.id) && Get(data, "user_name", Str("")) == Str(d.userName) &&
      Get(data, "user_id", Null) == Int(d.userId) && Get(data, "spot_id", Null) == Int(d.spotId) &&
      Get(data, "content", Null) == Str(d.content) && Get(data, "title", Null) == Str(d.title) &&
      Get(data, "time", Null) == Str(d.time)
  {
  }

  lemma DiaryDictCounts(d: Diary)
    ensures var data := DiaryToDict(d);
      Get(data, "score", Int(0)) == Int(d.score) &&
      Get(data, "score_count", Int(0)) == Int(d.scoreCount) &&
      Get(data, "visited_time", Int(0)) == Int(d.visitedTime) &&
      Get(data, "img_list", List([])) == List(StrValues(d.imgList)) &&
      Get(data, "video_path", List([])) == List(StrValues(d.videoPath)) &&
      Get(data, "compressed", Bool(false)) == Bool(d.compressed) &&
      Get(data, "scoreToSpot", Null) == OptionalInt(d.scoreToSpot)
  {
  }

  /** `Diary.visited`. */
  function DiaryVisited(d: Diary): (r: Diary)
    ensures r.visitedTime == d.visitedTime + 1
    ensures r.(visitedTime := d.visitedTime) == d
  {
    d.(visitedTime := d.visitedTime + 1)
  }

  /** `n` calls of `visited`. */
  function DiaryVisits(d: Diary, n: nat): Diary
  {
    if n == 0 then d else DiaryVisited(DiaryVisits(d, n - 1))
  }

  lemma {:induction false} DiaryVisitsCount(d: Diary, n: nat)
    ensures DiaryVisits(d, n).visitedTime == d.visitedTime + n
    ensures DiaryVisits(d, n).(visitedTime := d.visitedTime) == d
  {
    if n > 0 {
      DiaryVisitsCount(d, n - 1);
    }
  }

  /** A visit shows up in the stored form as exactly the new count. */
  lemma DiaryVisitedStored(d: Diary)
    ensures DiaryToDict(DiaryVisited(d)) == DiaryToDict(d)["visited_time" := Int(d.visitedTime + 1)]
  {
  }

  // ---------------------------------------------------------------------
  // Reviews
  // ---------------------------------------------------------------------

  /** A review list: a count and a red-black tree holding each diary id as
      both key and value. */
  datatype Reviews = Reviews(total: int, tree: RbTree.Tree)

  /** Every item has its key equal to its value. */
  ghost predicate Diagonal(s: seq<RbTree.Item>)
  {
    forall x :: x in s ==> x.key == x.value
  }

  /** What the source keeps: ordered by value, each id as key and value. */
  ghost predicate ReviewsOk(r: Reviews)
  {
    RbTree.Ordered(RbTree.Items(r.tree)) && Diagonal(RbTree.Items(r.tree))
  }

  ghost function IdSet(r: Reviews): set<int>
  {
    set x | x in RbTree.Items(r.tree) :: x.key
  }

  /** Insert each id in turn, as key and as value. */
  function InsertAll(t: RbTree.Tree, ids: seq<int>): RbTree.Tree
    decreases |ids|
  {
    if ids == [] then t else InsertAll(RbTree.Insert(t, ids[0], ids[0]), ids[1..])
  }

  /** `Reviews.__init__`. */
  function NewReviews(total: int, ids: seq<int>): (r: Reviews)
    ensures r.total == total
  {
    Reviews(total, InsertAll(RbTree.Nil, ids))
  }

  /** Inserting an id as key and value into an ordered diagonal tree. */
  lemma InsertDiagonal(t: RbTree.Tree, id: int)
    requires RbTree.Ordered(RbTree.Items(t)) && Diagonal(RbTree.Items(t))
    ensures RbTree.Ordered(RbTree.Items(RbTree.Insert(t, id, id)))
    ensures Diagonal(RbTree.Items(RbTree.Insert(t, id, id)))
    ensures forall x :: x in RbTree.Items(RbTree.Insert(t, id, id)) <==> x in RbTree.Items(t) || x == RbTree.Item(id, id)
  {
    RbTree.InsertOrdered(t, id, id);
  }

  lemma {:induction false} InsertAllSpec(t: RbTree.Tree, ids: seq<int>)
    requires RbTree.Ordered(RbTree.Items(t)) && Diagonal(RbTree.Items(t))
    ensures RbTree.Ordered(RbTree.Items(InsertAll(t, ids)))
    ensures Diagonal(RbTree.Items(InsertAll(t, ids)))
    ensures forall x :: x in RbTree.Items(InsertAll(t, ids)) <==>
      x in RbTree.Items(t) || (x.key == x.value && x.key in ids)
    decreases |ids|
  {
    if ids != [] {
      InsertDiagonal(t, ids[0]);
      InsertAllSpec(RbTree.Insert(t, ids[0], ids[0]), ids[1..]);
      assert ids == [ids[0]] + ids[1..];
    }
  }

  /** A new review list is ordered and diagonal and holds exactly the
      given ids, duplicates collapsed. */
  lemma NewReviewsSpec(total: int, ids: seq<int>)
    ensures ReviewsOk(NewReviews(total, ids))
    ensures IdSet(NewReviews(total, ids)) == set i | i in ids
  {
    InsertAllSpec(RbTree.Nil, ids);
    var r := NewReviews(total, ids);
    forall i | i in ids
      ensures i in IdSet(r)
    {
      assert RbTree.Item(i, i) in RbTree.Items(r.tree);
    }
  }

  /** `getDiaryIds`: the ids, in ascending order. */
  function GetDiaryIds(r: Reviews): (ids: seq<int>)
    ensures ReviewsOk(r) ==> forall i, j :: 0 <= i < j < |ids| ==> ids[i] < ids[j]
    ensures ReviewsOk(r) ==> forall id :: id in ids <==> id in IdSet(r)
  {
    var ids := RbTree.AllKeys(r.tree);
    assert ReviewsOk(r) ==> forall i :: 0 <= i < |ids| ==> ids[i] == RbTree.Items(r.tree)[i].value by {
      if ReviewsOk(r) {
        forall i | 0 <= i < |ids|
          ensures ids[i] == RbTree.Items(r.tree)[i].value
        {
          assert RbTree.Items(r.tree)[i] in RbTree.Items(r.tree);
        }
      }
    }
    assert forall id :: id in IdSet(r) ==> id in ids by {
      forall id | id in IdSet(r)
        ensures id in ids
      {
        var x :| x in RbTree.Items(r.tree) && x.key == id;
        var i :| 0 <= i < |RbTree.Items(r.tree)| && RbTree.Items(r.tree)[i] == x;
        assert ids[i] == id;
      }
    }
    assert forall id :: id in ids ==> id in IdSet(r) by {
      forall id | id in ids
        ensures id in IdSet(r)
      {
        var i :| 0 <= i < |ids| && ids[i] == id;
        assert RbTree.Items(r.tree)[i] in RbTree.Items(r.tree);
      }
    }
    ids
  }

  /** `addOne`: one more diary, and its id is stored. */
  function AddOne(r: Reviews, id: int): (after: Reviews)
    ensures after.total == r.total + 1
  {
    Reviews(r.total + 1, RbTree.Insert(r.tree, id, id))
  }

  lemma AddOneSpec(r: Reviews, id: int)
    requires ReviewsOk(r)
    ensures ReviewsOk(AddOne(r, id))
    ensures IdSet(AddOne(r, id)) == IdSet(r) + {id}
    ensures id in GetDiaryIds(AddOne(r, id))
  {
    InsertDiagonal(r.tree, id);
    assert RbTree.Item(id, id) in RbTree.Items(AddOne(r, id).tree);
  }

  /** `deleteOne`: the count drops by one whether or not the id was there. */
  function DeleteOne(r: Reviews, id: int): (after: Reviews)
    ensures after.total == r.total - 1
  {
    Reviews(r.total - 1, RbTree.Delete(r.tree, id))
  }

  lemma DeleteOneSpec(r: Reviews, id: int)
    requires ReviewsOk(r)
    ensures ReviewsOk(DeleteOne(r, id))
    ensures IdSet(DeleteOne(r, id)) == IdSet(r) - {id}
    ensures id !in GetDiaryIds(DeleteOne(r, id))
  {
    RbTree.DeleteOrdered(r.tree, id);
  }

  /** Deleting an id that is not stored still lowers the count, leaving
      the stored ids as they were. */
  lemma DeleteAbsentStillCounts(r: Reviews, id: int)
    requires ReviewsOk(r) && id !in IdSet(r)
    ensures DeleteOne(r, id).total == r.total - 1
    ensures GetDiaryIds(DeleteOne(r, id)) == GetDiaryIds(r)
  {
    if RbTree.HasValue(RbTree.Items(r.tree), id) {
      var i :| 0 <= i < |RbTree.Items(r.tree)| && RbTree.Items(r.tree)[i].value == id;
      assert RbTree.Items(r.tree)[i] in RbTree.Items(r.tree);
      assert false;
    }
    RbTree.DeleteAbsent(r.tree, id);
  }

  /** `Reviews.to_dict`. */
  function ReviewsToDict(r: Reviews): Dictionary
  {
    map["total" := Int(r.total), "diary_ids" := List(IntValues(GetDiaryIds(r)))]
  }

  /** `diary_ids`: a missing or `None` list stores nothing. */
  function IdList(v: Value): (r: Result<seq<int>>)
    ensures v.Null? ==> r == Ok([])
    ensures r.Ok? ==> v.Null? || v.List?
  {
    if v.Null? then Ok([])
    else if v.List? then Ints(v.items)
    else Err(TypeError)
  }

  /** `Reviews.from_dict`. */
  function ReviewsFromDict(data: Dictionary): (r: Result<Reviews>)
    ensures r.Ok? ==> Get(data, "total", Int(0)) == Int(r.value.total)
    ensures r.Ok? ==> ReviewsOk(r.value)
    ensures ("total" in data && !data["total"].Int?) ==> r == Err(TypeError)
  {
    var total :- AsInt(Get(data, "total", Int(0)));
    var ids :- IdList(Get(data, "diary_ids", List([])));
    NewReviewsSpec(total, ids);
    Ok(NewReviews(total, ids))
  }

  /** Two ascending item sequences with the same members are equal. */
  lemma {:induction false} OrderedUnique(a: seq<RbTree.Item>, b: seq<RbTree.Item>)
    requires RbTree.Ordered(a) && RbTree.Ordered(b)
    requires forall x :: x in a <==> x in b
    ensures a == b
    decreases |a|
  {
    assert b != [] ==> b[0] in b;
    assert a != [] ==> a[0] in a;
    if a != [] {
      var j :| 0 <= j < |b| && b[j] == a[0];
      var i :| 0 <= i < |a| && a[i] == b[0];
      assert a[0].value <= a[i].value;
      assert b[0].value <= b[j].value;
      assert j == 0;
      forall x
        ensures x in a[1..] <==> x in b[1..]
      {
        if x in a[1..] {
          var k :| 1 <= k < |a| && a[k] == x;
          assert x != a[0];
          assert x in b;
        }
        if x in b[1..] {
          var k :| 1 <= k < |b| && b[k] == x;
          assert x != b[0];
          assert x in a;
        }
      }
      OrderedUnique(a[1..], b[1..]);
      assert a == [a[0]] + a[1..] && b == [b[0]] + b[1..];
    }
  }

  /** Storing and reloading keeps the count and the ids, in order. */
  lemma ReviewsRoundTrip(r: Reviews)
    requires ReviewsOk(r)
    ensures ReviewsFromDict(ReviewsToDict(r)).Ok?
    ensures ReviewsFromDict(ReviewsToDict(r)).value.total == r.total
    ensures GetDiaryIds(ReviewsFromDict(ReviewsToDict(r)).value) == GetDiaryIds(r)
  {
    var ids := GetDiaryIds(r);
    IntsRoundTrip(ids);
    var r' := NewReviews(r.total, ids);
    assert ReviewsFromDict(ReviewsToDict(r)) == Ok(r');
    InsertAllSpec(RbTree.Nil, ids);
    SameItems(r, r', ids);
    OrderedUnique(RbTree.Items(r.tree), RbTree.Items(r'.tree));
    SameKeys(r.tree, r'.tree);
  }

  lemma SameItems(r: Reviews, r': Reviews, ids: seq<int>)
    requires ReviewsOk(r) && ids == GetDiaryIds(r)
    requires forall x :: x in RbTree.Items(r'.tree) <==> x.key == x.value && x.key in ids
    ensures forall x :: x in RbTree.Items(r.tree) <==> x in RbTree.Items(r'.tree)
  {
    forall x
      ensures x in RbTree.Items(r.tree) <==> x.key == x.value && x.key in ids
    {
      if x.key == x.value && x.key in ids {
        var y :| y in RbTree.Items(r.tree) && y.key == x.key;
        assert y == x;
      }
      if x in RbTree.Items(r.tree) {
        assert x.key in IdSet(r);
      }
    }
  }

  lemma SameKeys(t: RbTree.Tree, t': RbTree.Tree)
    requires RbTree.Items(t) == RbTree.Items(t')
    ensures RbTree.AllKeys(t) == RbTree.AllKeys(t')
  {
  }

  // ---------------------------------------------------------------------
  // Spot
  // ---------------------------------------------------------------------

  datatype Spot = Spot(
    id: int,
    name: string,
    score: int,
    kind: string,
    reviews: Reviews,
    url: Option<string>,
    img: Option<string>,
    info: seq<Value>,
    introduce: map<string, Value>,
    visitedTime: int,
    location: Option<string>)

  /** `Spot.to_dict`. */
  function SpotToDict(s: Spot): Dictionary
  {
    map[
      "id" := Int(s.id),
      "name" := Str(s.name),
      "score" := Int(s.score),
      "type" := Str(s.kind),
      "reviews" := Dict(ReviewsToDict(s.reviews)),
      "url" := OptionalStr(s.url),
      "img" := OptionalStr(s.img),
      "info" := List(s.info),
      "introduce" := Dict(s.introduce),
      "visited_time" := Int(s.visitedTime),
      "location" := OptionalStr(s.location)
    ]
  }

  function ListOrEmpty(v: Value): (r: Result<seq<Value>>)
    ensures r.Ok? <==> v.Null? || v.List?
    ensures v.Null? ==> r == Ok([])
  {
    if v.Null? then Ok([]) else if v.List? then Ok(v.items) else Err(TypeError)
  }

  function DictOrEmpty(v: Value): (r: Result<map<string, Value>>)
    ensures r.Ok? <==> v.Null? || v.Dict?
    ensures v.Null? ==> r == Ok(map[])
  {
    if v.Null? then Ok(map[]) else if v.Dict? then Ok(v.fields) else Err(TypeError)
  }

  /** `Spot.from_dict`. */
  function SpotFromDict(data: Dictionary): (r: Result<Spot>)
    ensures (Required(data, "id", IntShape) && Required(data, "name", StrShape) && Defaulted(data, "score", IntShape) &&
             Required(data, "type", StrShape) && "reviews" in data && !data["reviews"].Dict?) ==> r == Err(AttributeError)
    ensures ("id" !in data || !data["id"].Int?) ==> r == Err(TypeError)
    ensures r.Ok? ==> Get(data, "score", Int(0)) == Int(r.value.score)
    ensures r.Ok? ==> Get(data, "visited_time", Int(0)) == Int(r.value.visitedTime)
    ensures r.Ok? ==> ReviewsOk(r.value.reviews)
    ensures r.Ok? && "reviews" !in data ==> r.value.reviews.total == 0 && IdSet(r.value.reviews) == {}
  {
    var id :- AsInt(Get(data, "id", Null));
    var name :- AsStr(Get(data, "name", Null));
    var score :- AsInt(Get(data, "score", Int(0)));
    var kind :- AsStr(Get(data, "type", Null));
    var rv := Get(data, "reviews", Dict(map[]));
    if !rv.Dict? then Err(AttributeError)
    else
      var reviews :- ReviewsFromDict(rv.fields);
      var url :- AsOptionalStr(Get(data, "url", Null));
      var img :- AsOptionalStr(Get(data, "img", Null));
      var info :- ListOrEmpty(Get(data, "info", List([])));
      var introduce :- DictOrEmpty(Get(data, "introduce", Dict(map[])));
      var visitedTime :- AsInt(Get(data, "visited_time", Int(0)));
      var location :- AsOptionalStr(Get(data, "location", Null));
      assert rv.fields == map[] ==> reviews == NewReviews(0, []) && IdSet(reviews) == {} by {
        if rv.fields == map[] {
          NewReviewsSpec(0, []);
        }
      }
      Ok(Spot(id, name, score, kind, reviews, url, img, info, introduce, visitedTime, location))
  }

  /** Storing and reloading a spot keeps every field but the review tree,
      and of that the count and the ids, in order. */
  lemma SpotRoundTrip(s: Spot)
    requires ReviewsOk(s.reviews)
    ensures SpotFromDict(SpotToDict(s)).Ok?
    ensures SpotFromDict(SpotToDict(s)).value.(reviews := s.reviews) == s
    ensures SpotFromDict(SpotToDict(s)).value.reviews.total == s.reviews.total
    ensures GetDiaryIds(SpotFromDict(SpotToDict(s)).value.reviews) == GetDiaryIds(s.reviews)
  {
    SpotDictFields(s);
    SpotDictExtras(s);
    ReviewsRoundTrip(s.reviews);
  }

  /** What `from_dict` reads back from `to_dict`. */
  lemma SpotDictFields(s: Spot)
    ensures var data := SpotToDict(s);
      Get(data, "id", Null) == Int(s.id) && Get(data, "name", Null) == Str(s.name) &&
      Get(data, "score", Int(0)) == Int(s.score) && Get(data, "type", Null) == Str(s.kind) &&
      Get(data, "reviews", Dict(map[])) == Dict(ReviewsToDict(s.reviews))
  {
  }

  lemma SpotDictExtras(s: Spot)
    ensures var data := SpotToDict(s);
      Get(data, "url", Null) == OptionalStr(s.url) && Get(data, "img", Null) == OptionalStr(s.img) &&
      Get(data, "info", List([])) == List(s.info) && Get(data, "introduce", Dict(map[])) == Dict(s.introduce) &&
      Get(data, "visited_time", Int(0)) == Int(s.visitedTime) &&
      Get(data, "location", Null) == OptionalStr(s.location)
  {
  }

  /** `Spot.visited`. */
  function SpotVisited(s: Spot): (r: Spot)
    ensures r.visitedTime == s.visitedTime + 1
    ensures r.(visitedTime := s.visitedTime) == s
  {
    s.(visitedTime := s.visitedTime + 1)
  }

  /** `Spot.getDiaryList`. */
  function SpotDiaryList(s: Spot): (ids: seq<int>)
    ensures ReviewsOk(s.reviews) ==> forall i, j :: 0 <= i < j < |ids| ==> ids[i] < ids[j]
    ensures ReviewsOk(s.reviews) ==> forall id :: id in ids <==> id in IdSet(s.reviews)
  {
    GetDiaryIds(s.reviews)
  }
}

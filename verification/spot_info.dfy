/** The review panel of the spot page (`spot_info.js`): the score a review
    is drawn with, its star row and content preview, the first page of
    reviews and each "load more" batch, the merge of the full list, and the
    spot id read from the address.

    Review lists are what `/diary/spot/<id>` answered; the fetch itself,
    the rendering and the button's text are left to the page.
 */
module SpotInfo {
  import opened Wrappers

  /** `review.scoreToSpot` as the page receives it.  `Missing` stands for
      every value JavaScript treats as false other than 0 and "" (absent,
      `null`, `NaN`, `false`); a string carries what `parseFloat` makes of
      it (`None` for `NaN`). */
  datatype RawScore = Missing | Number(x: real) | Text(s: string, parsed: Option<real>)

  datatype Review = Review(id: int, content: string, score: RawScore)

  function Clamp(x: real): (r: real)
    ensures 1.0 <= r <= 5.0
    ensures 1.0 <= x <= 5.0 ==> r == x
    ensures x > 5.0 ==> r == 5.0
    ensures x < 1.0 ==> r == 1.0
  {
    if x < 1.0 then 1.0 else if x > 5.0 then 5.0 else x
  }

  /** The score of `createReviewElement`: a false value (and so 0) means 5,
      a string is parsed (with 5 when that gives `NaN` or 0), and the
      result is kept within 1 to 5. */
  function ReviewScore(raw: RawScore): (r: real)
    ensures 1.0 <= r <= 5.0
    ensures raw.Missing? || raw == Number(0.0) || raw == Text("", None) ==> r == 5.0
    ensures raw.Number? && raw.x != 0.0 ==> r == Clamp(raw.x)
    ensures raw.Text? && raw.s != "" && raw.parsed.Some? && raw.parsed.value != 0.0 ==> r == Clamp(raw.parsed.value)
    ensures raw.Text? && (raw.s == "" || raw.parsed.None? || raw.parsed == Some(0.0)) ==> r == 5.0
  {
    var v := match raw
      case Missing => 5.0
      case Number(x) => if x == 0.0 then 5.0 else x
      case Text(s, parsed) =>
        if s == "" then 5.0
        else if parsed.None? || parsed.value == 0.0 then 5.0
        else parsed.value;
    Clamp(v)
  }

  // ---------------------------------------------------------------------
  // Stars
  // ---------------------------------------------------------------------

  datatype Star = Filled | HalfFilled | Hollow

  function Repeat(s: Star, n: int): (r: seq<Star>)
    ensures |r| == if n < 0 then 0 else n
    ensures forall i :: 0 <= i < |r| ==> r[i] == s
    decreases n
  {
    if n <= 0 then [] else [s] + Repeat(s, n - 1)
  }

  /** The star at position `i` of a five-star row for `score`: filled below
      the whole part, half filled just after it when the fraction is at
      least one half, hollow otherwise. */
  function StarAt(score: real, i: int): Star
  {
    if i < score.Floor then Filled
    else if i == score.Floor && score - score.Floor as real >= 0.5 then HalfFilled
    else Hollow
  }

  /** `createStarsHTML`. */
  function CreateStars(score: real): seq<Star>
  {
    var full := score.Floor;
    var half := score - full as real >= 0.5;
    Repeat(Filled, full) + (if half then [HalfFilled] else []) + Repeat(Hollow, 5 - full - (if half then 1 else 0))
  }

  /** For a score from 0 to 5 the row has exactly five stars, as `StarAt`
      describes them. */
  lemma CreateStarsShape(score: real)
    requires 0.0 <= score <= 5.0
    ensures |CreateStars(score)| == 5
    ensures forall i :: 0 <= i < 5 ==> CreateStars(score)[i] == StarAt(score, i)
  {
    var full := score.Floor;
    var half := score - full as real >= 0.5;
    assert 0 <= full <= 5;
    assert full == 5 ==> !half;
    var r := CreateStars(score);
    forall i | 0 <= i < 5
      ensures r[i] == StarAt(score, i)
    {
      if i < full {
        assert r[i] == Repeat(Filled, full)[i];
      } else if i == full && half {
        assert r[i] == [HalfFilled][0];
      } else {
        var k := i - full - (if half then 1 else 0);
        assert r[i] == Repeat(Hollow, 5 - full - (if half then 1 else 0))[k];
      }
    }
  }

  /** The content preview: the first 100 characters and "..." for longer
      content, the content itself otherwise. */
  function Preview(content: string): (r: string)
    ensures |content| <= 100 ==> r == content
    ensures |content| > 100 ==> |r| == 103 && r[..100] == content[..100] && r[100..] == "..."
  {
    if |content| > 100 then content[..100] + "..." else content
  }

  // ---------------------------------------------------------------------
  // Paging
  // ---------------------------------------------------------------------

  function Min(a: int, b: int): int
  {
    if a < b then a else b
  }

  /** `loadUserReviews`: the first three reviews, and whether "load more"
      is enabled. */
  function InitialReviews(data: seq<Review>): (r: (seq<Review>, bool))
    ensures r.0 == data[..Min(3, |data|)]
    ensures r.1 <==> |data| > 3
  {
    if |data| == 0 then ([], false)
    else (data[..Min(3, |data|)], |data| > 3)
  }

  /** `loadMoreReviews` with `offset` reviews on the page: the next batch of
      at most five, and whether the button is now disabled. */
  function LoadMore(all: seq<Review>, offset: nat): (r: (seq<Review>, bool))
    ensures offset >= |all| ==> r == ([], true)
    ensures offset < |all| ==> r.0 == all[offset..Min(offset + 5, |all|)] && r.0 != []
    ensures r.1 <==> offset + 5 >= |all|
  {
    if offset >= |all| then ([], true)
    else
      var batch := all[offset..Min(offset + 5, |all|)];
      (batch, offset + |batch| >= |all|)
  }

  /** A batch continues exactly where the page stopped. */
  lemma LoadMoreContinues(all: seq<Review>, shown: seq<Review>)
    requires |shown| <= |all| && shown == all[..|shown|]
    ensures shown + LoadMore(all, |shown|).0 == all[..Min(|shown| + 5, |all|)]
    ensures LoadMore(all, |shown|).1 <==> shown + LoadMore(all, |shown|).0 == all
  {
    var (batch, done) := LoadMore(all, |shown|);
    if |shown| < |all| {
      assert shown + batch == all[..Min(|shown| + 5, |all|)];
    }
  }

  /** The page after the first load and then "load more" until the button
      is disabled. */
  function LoadUntilDone(all: seq<Review>, shown: seq<Review>): seq<Review>
    requires |shown| <= |all| && shown == all[..|shown|]
    decreases |all| - |shown|
  {
    var (batch, done) := LoadMore(all, |shown|);
    LoadMoreContinues(all, shown);
    if done then shown + batch else LoadUntilDone(all, shown + batch)
  }

  /** Every review ends up on the page, once and in order. */
  lemma {:induction false} LoadUntilDoneShowsAll(all: seq<Review>, shown: seq<Review>)
    requires |shown| <= |all| && shown == all[..|shown|]
    ensures LoadUntilDone(all, shown) == all
    decreases |all| - |shown|
  {
    var (batch, done) := LoadMore(all, |shown|);
    LoadMoreContinues(all, shown);
    if !done {
      LoadUntilDoneShowsAll(all, shown + batch);
    }
  }

  lemma InitialThenLoadAll(all: seq<Review>)
    ensures LoadUntilDone(all, InitialReviews(all).0) == all
  {
    LoadUntilDoneShowsAll(all, InitialReviews(all).0);
  }

  // ---------------------------------------------------------------------
  // The full list
  // ---------------------------------------------------------------------

  function Ids(rs: seq<Review>): set<int>
  {
    set r | r in rs :: r.id
  }

  /** The reviews of `data` whose id is not in `ids`, in order. */
  function NotIn(data: seq<Review>, ids: set<int>): (r: seq<Review>)
    ensures forall x :: x in r <==> x in data && x.id !in ids
  {
    if data == [] then []
    else (if data[0].id in ids then [] else [data[0]]) + NotIn(data[1..], ids)
  }

  /** `loadAllReviews`: the first answer is kept as it is; later ones only
      add the reviews whose id is new, after the cached ones. */
  function MergeReviews(cache: Option<seq<Review>>, data: seq<Review>): (r: seq<Review>)
    ensures cache.None? ==> r == data
    ensures cache.Some? ==> |r| >= |cache.value| && r[..|cache.value|] == cache.value
    ensures cache.Some? ==> forall x :: x in r[|cache.value|..] <==> x in data && x.id !in Ids(cache.value)
  {
    if cache.None? then data
    else
      var r := cache.value + NotIn(data, Ids(cache.value));
      assert r[|cache.value|..] == NotIn(data, Ids(cache.value));
      r
  }

  /** Merging the same answer a second time adds nothing. */
  lemma MergeIdempotent(cache: seq<Review>, data: seq<Review>)
    ensures MergeReviews(Some(MergeReviews(Some(cache), data)), data) == MergeReviews(Some(cache), data)
  {
    var m := MergeReviews(Some(cache), data);
    var added := NotIn(data, Ids(cache));
    assert m == cache + added;
    forall x | x in data
      ensures x.id in Ids(m)
    {
      if x.id !in Ids(cache) {
        assert x in added;
        assert x in m;
      } else {
        var y :| y in cache && y.id == x.id;
        assert y in m;
      }
    }
    assert NotIn(data, Ids(m)) == [] by {
      if NotIn(data, Ids(m)) != [] {
        assert NotIn(data, Ids(m))[0] in NotIn(data, Ids(m));
      }
    }
    assert m + [] == m;
  }

  // ---------------------------------------------------------------------
  // The address
  // ---------------------------------------------------------------------

  /** `getSpotIdFromUrl`: the last `/`-separated segment of the path. */
  function LastSegment(path: string): (r: string)
    ensures |r| <= |path| && r == path[|path| - |r|..]
    ensures '/' !in r
    ensures r == path || path[|path| - |r| - 1] == '/'
  {
    if path == [] || path[|path| - 1] == '/' then []
    else LastSegment(path[..|path| - 1]) + [path[|path| - 1]]
  }

  /** Whatever comes before the last `/` does not matter. */
  lemma LastSegmentAfterSlash(prefix: string, segment: string)
    requires '/' !in segment
    ensures LastSegment(prefix + "/" + segment) == segment
  {
    var path := prefix + "/" + segment;
    var r := LastSegment(path);
    assert path[|prefix|] == '/';
    assert path[|path| - |segment|..] == segment;
  }
}

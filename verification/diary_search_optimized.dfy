/** The optimised diary search page (`diary_search_optimized.js`): the star
    icons of a diary card, the image cache with its size bound, the lazy
    image loader, and the infinite-scroll paging.

    The cache holds only images whose preload finished, so an image found
    in it is complete; the keys are kept in insertion order as a `Map`
    iterates them.  Fetches, timers and animation frames are replaced by
    their outcome, passed in.
 */
module DiarySearchOptimized {
  import opened Wrappers
  import SpotInfo
  import DiarySearch

  // ---------------------------------------------------------------------
  // Stars
  // ---------------------------------------------------------------------

  /** `Math.trunc`. */
  function Trunc(x: real): (r: int)
    ensures x >= 0.0 ==> r == x.Floor
    ensures x < 0.0 ==> r == -((-x).Floor)
  {
    if x >= 0.0 then x.Floor else -((-x).Floor)
  }

  /** JavaScript's `x % 1`: the fraction with the sign of `x`. */
  function FracPart(x: real): (r: real)
    ensures -1.0 < r < 1.0
    ensures x >= 0.0 ==> 0.0 <= r && r == x - x.Floor as real
  {
    x - Trunc(x) as real
  }

  /** `generateStars`: the icons at positions 0 to 4. */
  function GenerateStars(rating: real): (r: seq<SpotInfo.Star>)
    ensures |r| == 5
    ensures forall i :: 0 <= i < 5 ==> (r[i] == SpotInfo.Filled <==> i < rating.Floor)
    ensures forall i :: 0 <= i < 5 ==> (r[i] == SpotInfo.HalfFilled <==> i == rating.Floor && FracPart(rating) >= 0.5)
  {
    Icons(rating, 0)
  }

  function Icons(rating: real, from: nat): (r: seq<SpotInfo.Star>)
    requires from <= 5
    ensures |r| == 5 - from
    ensures forall i :: 0 <= i < |r| ==> r[i] == Icon(rating, from + i)
    decreases 5 - from
  {
    if from == 5 then [] else [Icon(rating, from)] + Icons(rating, from + 1)
  }

  function Icon(rating: real, i: int): SpotInfo.Star
  {
    if i < rating.Floor then SpotInfo.Filled
    else if i == rating.Floor && FracPart(rating) >= 0.5 then SpotInfo.HalfFilled
    else SpotInfo.Hollow
  }

  /** For a rating from 0 to 5 the card shows the same row as the spot
      page's `createStarsHTML`. */
  lemma StarsAgree(rating: real)
    requires 0.0 <= rating <= 5.0
    ensures GenerateStars(rating) == SpotInfo.CreateStars(rating)
  {
    SpotInfo.CreateStarsShape(rating);
    var g := GenerateStars(rating);
    var c := SpotInfo.CreateStars(rating);
    forall i | 0 <= i < 5
      ensures g[i] == c[i]
    {
      assert c[i] == SpotInfo.StarAt(rating, i);
    }
  }

  /** A negative rating shows no star at all, half ones included. */
  lemma NegativeRatingHollow(rating: real)
    requires rating < 0.0
    ensures forall i :: 0 <= i < 5 ==> GenerateStars(rating)[i] == SpotInfo.Hollow
  {
    assert rating.Floor < 0;
  }

  // ---------------------------------------------------------------------
  // Image cache
  // ---------------------------------------------------------------------

  const MaxCacheSize: nat := 100

  predicate Distinct(keys: seq<string>)
  {
    forall i, j :: 0 <= i < j < |keys| ==> keys[i] != keys[j]
  }

  predicate CacheOk(keys: seq<string>)
  {
    Distinct(keys) && |keys| <= MaxCacheSize
  }

  /** `imageCache.set(src, …)` and the eviction of the oldest key when the
      cache has grown past its bound. */
  function CacheSet(keys: seq<string>, src: string): (r: seq<string>)
    ensures src in r
    ensures src in keys ==> r == keys
    ensures src !in keys && |keys| < MaxCacheSize ==> r == keys + [src]
    ensures src !in keys && |keys| >= MaxCacheSize ==> r == keys[1..] + [src]
  {
    if src in keys then keys
    else
      var grown := keys + [src];
      if |grown| > MaxCacheSize then
        assert grown[1..] == keys[1..] + [src];
        grown[1..]
      else grown
  }

  /** The bound and the distinctness of the keys survive every insertion. */
  lemma CacheSetOk(keys: seq<string>, src: string)
    requires CacheOk(keys)
    ensures CacheOk(CacheSet(keys, src))
    ensures |CacheSet(keys, src)| >= |keys|
  {
    var r := CacheSet(keys, src);
    if src !in keys && |keys| >= MaxCacheSize {
      assert forall i :: 0 <= i < |keys| - 1 ==> r[i] == keys[i + 1];
    }
  }

  /** Whatever images are loaded, one after another, from an empty cache,
      the cache never holds more than a hundred and never one twice. */
  lemma {:induction false} CacheAlwaysBounded(keys: seq<string>, loads: seq<string>)
    requires CacheOk(keys)
    ensures CacheOk(SetAll(keys, loads))
    decreases |loads|
  {
    if loads != [] {
      CacheSetOk(keys, loads[0]);
      CacheAlwaysBounded(CacheSet(keys, loads[0]), loads[1..]);
    }
  }

  function SetAll(keys: seq<string>, loads: seq<string>): seq<string>
    decreases |loads|
  {
    if loads == [] then keys else SetAll(CacheSet(keys, loads[0]), loads[1..])
  }

  // ---------------------------------------------------------------------
  // Lazy images
  // ---------------------------------------------------------------------

  /** A lazy image: its `data-src` (empty when there is none), its classes,
      and the source it shows. */
  datatype Img = Img(dataSrc: string, loading: bool, loaded: bool, error: bool, src: string)

  /** How the preload of a missing image ends. */
  datatype Preload = Succeeded | Failed

  /** `loadImageOptimized` and the handler of the preload it starts. */
  function LoadImage(img: Img, cache: seq<string>, outcome: Preload): (r: (Img, seq<string>))
    ensures img.dataSrc == "" || img.loading || img.loaded ==> r == (img, cache)
    ensures !(img.dataSrc == "" || img.loading || img.loaded) && img.dataSrc in cache ==>
      r == (img.(loading := true, loaded := true, src := img.dataSrc), cache)
    ensures !(img.dataSrc == "" || img.loading || img.loaded) && img.dataSrc !in cache && outcome == Succeeded ==>
      r == (img.(loaded := true, src := img.dataSrc), CacheSet(cache, img.dataSrc))
    ensures !(img.dataSrc == "" || img.loading || img.loaded) && img.dataSrc !in cache && outcome == Failed ==>
      r == (img.(error := true), cache)
  {
    if img.dataSrc == "" || img.loading || img.loaded then (img, cache)
    else
      var marked := img.(loading := true);
      if img.dataSrc in cache then (marked.(loaded := true, src := img.dataSrc), cache)
      else match outcome
        case Succeeded => (marked.(loaded := true, loading := false, src := img.dataSrc), CacheSet(cache, img.dataSrc))
        case Failed => (marked.(loading := false, error := true), cache)
  }

  /** A load keeps the cache within its bound, and once an image shows its
      source any further load of it does nothing. */
  lemma LoadImageSettles(img: Img, cache: seq<string>, first: Preload, again: Preload)
    requires CacheOk(cache)
    ensures CacheOk(LoadImage(img, cache, first).1)
    ensures var (shown, cache') := LoadImage(img, cache, first);
      shown.loaded ==> LoadImage(shown, cache', again) == (shown, cache')
  {
    if img.dataSrc != "" && !img.loading && !img.loaded && img.dataSrc !in cache {
      CacheSetOk(cache, img.dataSrc);
    }
  }

  // ---------------------------------------------------------------------
  // Paging
  // ---------------------------------------------------------------------

  /** The page's `state` and the "load more" button's `data-next-page`
      (empty when unset) and visibility. */
  datatype Paging = Paging(isLoading: bool, hasMoreData: bool, nextPage: string, buttonShown: bool, diaries: seq<int>)

  datatype Pagination = Pagination(hasNext: bool, nextNum: string)

  /** What a request for the next page ends with. */
  datatype Answer =
    | Thrown
    | Page(success: bool, diaries: seq<int>, pagination: Option<Pagination>)

  /** `updatePaginationState`. */
  function UpdatePagination(st: Paging, pagination: Option<Pagination>): (r: Paging)
    ensures pagination.None? ==> r == st
    ensures pagination.Some? ==> r.hasMoreData == pagination.value.hasNext && r.buttonShown == pagination.value.hasNext
    ensures pagination.Some? && pagination.value.hasNext ==> r.nextPage == pagination.value.nextNum
    ensures r.diaries == st.diaries && r.isLoading == st.isLoading
  {
    match pagination
    case None => st
    case Some(p) =>
      if p.hasNext then st.(hasMoreData := true, nextPage := p.nextNum, buttonShown := true)
      else st.(hasMoreData := false, buttonShown := false)
  }

  /** Whether a scroll to the bottom sends a request. */
  predicate Requests(st: Paging)
  {
    !st.isLoading && st.hasMoreData && st.nextPage != ""
  }

  /** `handleLoadMore`, up to the `finally` that clears `isLoading`. */
  function HandleLoadMore(st: Paging, answer: Answer): (r: Paging)
    ensures st.isLoading || !st.hasMoreData ==> r == st
    ensures !st.isLoading && st.hasMoreData ==> !r.isLoading
    ensures !st.isLoading && st.hasMoreData && st.nextPage == "" ==> r == st
    ensures |r.diaries| >= |st.diaries| && r.diaries[..|st.diaries|] == st.diaries
    ensures Requests(st) && answer.Page? && !(answer.success && |answer.diaries| > 0) ==>
      !r.hasMoreData && !r.buttonShown && r.diaries == st.diaries
    ensures Requests(st) && answer.Page? && answer.success && |answer.diaries| > 0 ==>
      r.diaries == st.diaries + answer.diaries
    ensures answer.Thrown? ==> r.diaries == st.diaries && r.hasMoreData == st.hasMoreData
  {
    if st.isLoading || !st.hasMoreData then st
    else if st.nextPage == "" then st
    else match answer
      case Thrown => st
      case Page(success, diaries, pagination) =>
        if success && |diaries| > 0 then
          UpdatePagination(st.(diaries := st.diaries + diaries), pagination)
        else st.(hasMoreData := false, buttonShown := false)
  }

  function LoadAll(st: Paging, answers: seq<Answer>): Paging
    decreases |answers|
  {
    if answers == [] then st else LoadAll(HandleLoadMore(st, answers[0]), answers[1..])
  }

  /** After the last page no scroll loads anything again. */
  lemma {:induction false} NoMoreStaysDone(st: Paging, answers: seq<Answer>)
    requires !st.hasMoreData
    ensures LoadAll(st, answers) == st
    decreases |answers|
  {
    if answers != [] {
      NoMoreStaysDone(HandleLoadMore(st, answers[0]), answers[1..]);
    }
  }

  /** Loading only ever appends: the diaries on the page stay in front. */
  lemma {:induction false} LoadAllAppends(st: Paging, answers: seq<Answer>)
    ensures |LoadAll(st, answers).diaries| >= |st.diaries|
    ensures LoadAll(st, answers).diaries[..|st.diaries|] == st.diaries
    decreases |answers|
  {
    if answers != [] {
      var next := HandleLoadMore(st, answers[0]);
      LoadAllAppends(next, answers[1..]);
      var last := LoadAll(next, answers[1..]);
      assert last.diaries[..|st.diaries|] == last.diaries[..|next.diaries|][..|st.diaries|];
    }
  }

  /** `validateSearchInput` is the one of the plain search page. */
  function ValidateSearchInput(value: string): (message: string)
    ensures message == "" <==> |value| <= DiarySearch.KeywordLimit
    ensures message == DiarySearch.ValidateSearchInput(value)
  {
    DiarySearch.ValidateSearchInput(value)
  }
}

/** The home page (`index.js`): the query each spot tab sends, the cap on
    the cards of a tab, the header search, and the recommended diaries
    with their "view more" button.

    Diaries are their ids (the cards carry `data-diary-id`); spot cards are
    values of any type.  A request is given as its answer: `None` when the
    session check or the fetch failed, otherwise the list the server sent.
 */
module IndexPage {
  import opened Wrappers
  import PageCommon
  import Text

  // ---------------------------------------------------------------------
  // Spot tabs
  // ---------------------------------------------------------------------

  datatype Param = Param(name: string, value: string)

  const ExcludeShows: Param := Param("exclude_type", PageCommon.Show)

  /** The query of `/api/search-spots` for a tab of `loadTabContent`. */
  function TabParams(tab: string): (r: seq<Param>)
    ensures tab in {"recommended", "5star", "4star", "3star"} ==> ExcludeShows in r && Param("type", PageCommon.Show) !in r
    ensures tab == "shows" <==> Param("type", PageCommon.Show) in r
    ensures tab == "recommended" <==> Param("user_preference", "true") in r
    ensures r == [] <==> tab !in {"recommended", "5star", "4star", "3star", "shows"}
    ensures tab == "5star" ==> Param("min_score", "5.0") in r && Param("max_score", "5.0") in r
    ensures tab == "4star" ==> Param("min_score", "4.0") in r && Param("max_score", "4.9") in r
    ensures tab == "3star" ==> Param("min_score", "3.0") in r && Param("max_score", "3.9") in r
  {
    match tab
    case "recommended" => [ExcludeShows, Param("user_preference", "true")]
    case "5star" => [Param("min_score", "5.0"), Param("max_score", "5.0"), ExcludeShows]
    case "4star" => [Param("min_score", "4.0"), Param("max_score", "4.9"), ExcludeShows]
    case "3star" => [Param("min_score", "3.0"), Param("max_score", "3.9"), ExcludeShows]
    case "shows" => [Param("type", PageCommon.Show)]
    case _ => []
  }

  /** The score-range tabs ask for one score band each: no two ask for the
      same lower bound, and only the shows tab asks for shows. */
  lemma TabsApart(a: string, b: string)
    requires a in {"5star", "4star", "3star"} && b in {"5star", "4star", "3star"} && a != b
    ensures forall p :: p in TabParams(a) && p.name == "min_score" ==> p !in TabParams(b)
    ensures forall p :: p in TabParams(a) ==> p != Param("type", PageCommon.Show)
  {
  }

  const MaxCards: nat := 10

  /** The cards a tab shows for the server's answer: the first ten spots,
      or `None` when the "no data" placeholder is shown instead. */
  function TabCards<S>(success: bool, spots: seq<S>): (r: Option<seq<S>>)
    ensures r.Some? <==> success && |spots| > 0
    ensures r.Some? ==> 1 <= |r.value| <= MaxCards && |r.value| <= |spots| && r.value == spots[..|r.value|]
    ensures r.Some? && |spots| >= MaxCards ==> |r.value| == MaxCards
    ensures r.Some? && |spots| < MaxCards ==> r.value == spots
  {
    if success && |spots| > 0 then Some(if |spots| <= MaxCards then spots else spots[..MaxCards])
    else None
  }

  /** `handleSearch`: the query sent for the search box, or `None` when the
      trimmed keyword is empty. */
  function SearchQuery(value: string, kind: string): (r: Option<seq<Param>>)
    ensures r.None? <==> Text.Blank(value)
    ensures r.Some? ==> |r.value| >= 1 && r.value[0] == Param("keyword", Text.Trim(value))
    ensures r.Some? ==> (Param("type", "diary") in r.value <==> kind == "diary")
  {
    Text.TrimEmpty(value);
    var keyword := Text.Trim(value);
    if keyword == "" then None
    else Some([Param("keyword", keyword)] + (if kind == "diary" then [Param("type", "diary")] else []))
  }

  // ---------------------------------------------------------------------
  // Recommended diaries
  // ---------------------------------------------------------------------

  const PerLoad: nat := 8
  const ViewMoreText: string := "查看更多日记"
  const LoadingText: string := "加载中..."
  const NoMoreText: string := "没有更多日记了"

  datatype Button = Button(text: string, disabled: bool, shown: bool)

  /** The requested count, the ids of the cards in the diary grid, and the
      "view more" button. */
  datatype Home = Home(count: nat, cards: seq<int>, button: Button)

  /** The diaries of `diaries` not already on the grid, in order. */
  function Fresh(diaries: seq<int>, cards: seq<int>): (r: seq<int>)
    ensures forall x :: x in r <==> x in diaries && x !in cards
    ensures |r| <= |diaries|
  {
    if diaries == [] then []
    else (if diaries[0] in cards then [] else [diaries[0]]) + Fresh(diaries[1..], cards)
  }

  /** `loadRecommendedDiaries(topK, append)` once its answer is in. */
  function LoadDiaries(h: Home, topK: int, append: bool, answer: Option<seq<int>>): (r: Home)
    ensures r.count == h.count
    ensures answer.None? ==> r.button == Button(ViewMoreText, false, h.button.shown)
    ensures answer.None? && append ==> r.cards == h.cards
    ensures answer.Some? && !append ==> r.cards == answer.value
    ensures answer.Some? && append ==> r.cards == h.cards + Fresh(answer.value, h.cards)
    ensures answer.Some? && |answer.value| < topK && (if append then Fresh(answer.value, h.cards) else answer.value) != [] ==>
      r.button.text == NoMoreText && r.button.disabled
    ensures answer.Some? && append && Fresh(answer.value, h.cards) == [] ==> r.button.text == NoMoreText && r.button.disabled
    ensures answer.Some? && !append && answer.value == [] ==> !r.button.shown
  {
    match answer
    case None =>
      Home(h.count, if append then h.cards else [], Button(ViewMoreText, false, h.button.shown))
    case Some(diaries) =>
      var waiting := if append then h.button.(disabled := true) else h.button;
      var restored :=
        if !append || |diaries| >= topK then waiting.(text := ViewMoreText, disabled := false) else waiting;
      var grid := if append then h.cards else [];
      if |diaries| > 0 then
        var toShow := if append then Fresh(diaries, grid) else diaries;
        if |toShow| > 0 then
          var b := if |diaries| < topK then restored.(text := NoMoreText, disabled := true) else restored;
          assert !append ==> grid + toShow == diaries;
          Home(h.count, grid + toShow, b)
        else if append then Home(h.count, grid, restored.(text := NoMoreText, disabled := true))
        else Home(h.count, grid, restored)
      else if !append then Home(h.count, grid, restored.(shown := false))
      else Home(h.count, grid, restored.(text := NoMoreText, disabled := true))
  }

  /** The page as it opens: eight diaries asked for. */
  function Opened(button: Button, answer: Option<seq<int>>): (r: Home)
    ensures r.count == PerLoad
  {
    LoadDiaries(Home(PerLoad, [], button), PerLoad, false, answer)
  }

  /** A click on "view more": ignored while the button is disabled,
      otherwise eight more diaries are asked for and the new ones
      appended. */
  function ViewMore(h: Home, answer: Option<seq<int>>): (r: Home)
    ensures h.button.disabled ==> r == h
    ensures !h.button.disabled ==> r.count == h.count + PerLoad
    ensures |r.cards| >= |h.cards| && r.cards[..|h.cards|] == h.cards
  {
    if h.button.disabled then h
    else
      var asking := Home(h.count + PerLoad, h.cards, h.button.(disabled := true, text := LoadingText));
      LoadDiaries(asking, h.count + PerLoad, true, answer)
  }

  predicate Distinct(s: seq<int>)
  {
    forall i, j :: 0 <= i < j < |s| ==> s[i] != s[j]
  }

  lemma {:induction false} FreshDistinct(diaries: seq<int>, cards: seq<int>)
    requires Distinct(diaries)
    ensures Distinct(Fresh(diaries, cards))
    decreases |diaries|
  {
    if diaries != [] {
      assert forall j :: 0 <= j < |diaries| - 1 ==> diaries[1..][j] == diaries[j + 1];
      FreshDistinct(diaries[1..], cards);
      assert diaries[0] !in diaries[1..];
    }
  }

  /** When the server sends each diary once, the grid never shows one
      twice, however often "view more" is clicked. */
  lemma ViewMoreDistinct(h: Home, answer: Option<seq<int>>)
    requires Distinct(h.cards)
    requires answer.Some? ==> Distinct(answer.value)
    ensures Distinct(ViewMore(h, answer).cards)
  {
    if !h.button.disabled && answer.Some? {
      var f := Fresh(answer.value, h.cards);
      FreshDistinct(answer.value, h.cards);
      var r := h.cards + f;
      forall i, j | 0 <= i < j < |r|
        ensures r[i] != r[j]
      {
        if j >= |h.cards| {
          assert r[j] == f[j - |h.cards|];
          assert r[j] !in h.cards;
          if i >= |h.cards| {
            assert r[i] == f[i - |h.cards|];
          }
        }
      }
    }
  }

  function Clicks(h: Home, answers: seq<Option<seq<int>>>): Home
    decreases |answers|
  {
    if answers == [] then h else Clicks(ViewMore(h, answers[0]), answers[1..])
  }

  /** Once the button reads "no more" and is disabled, clicks change
      nothing. */
  lemma {:induction false} NoMoreIsFinal(h: Home, answers: seq<Option<seq<int>>>)
    requires h.button.disabled
    ensures Clicks(h, answers) == h
    decreases |answers|
  {
    if answers != [] {
      NoMoreIsFinal(ViewMore(h, answers[0]), answers[1..]);
    }
  }

  /** A click whose answer holds fewer diaries than asked for, with new
      ones among them, is the last one that does anything. */
  lemma ShortAnswerEnds(h: Home, answer: Option<seq<int>>, later: seq<Option<seq<int>>>)
    requires !h.button.disabled && answer.Some? && |answer.value| < h.count + PerLoad
    requires Fresh(answer.value, h.cards) != []
    ensures Clicks(ViewMore(h, answer), later) == ViewMore(h, answer)
  {
    NoMoreIsFinal(ViewMore(h, answer), later);
  }
}

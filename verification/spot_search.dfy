/** The spot search page (`spotSearch.js`): the address parameters it
    takes over, the request it builds, the guard around a request in
    flight, the title and count above the results, and the switch back to
    grid view on narrow windows.

    The fields of the form are given as their values (empty when a field
    is missing; `"default"` for a missing sort), and a request as whether
    it ended with a list of spots.
 */
module SpotSearch {
  import opened Wrappers
  import PageCommon
  import Text

  datatype Param = Param(name: string, value: string)

  datatype Form = Form(keyword: string, kind: string, sortBy: string)

  /** `applyUrlParameters`: a `keyword` in the address fills the box, and a
      `type` fills the filter only when it is one of the spot types. */
  function ApplyUrl(form: Form, keyword: Option<string>, kind: Option<string>): (r: Form)
    ensures r.sortBy == form.sortBy
    ensures keyword.Some? && keyword.value != "" ==> r.keyword == keyword.value
    ensures keyword.None? || keyword.value == "" ==> r.keyword == form.keyword
    ensures kind.Some? && kind.value in PageCommon.SpotTypes ==> r.kind == kind.value
    ensures kind.None? || kind.value !in PageCommon.SpotTypes ==> r.kind == form.kind
  {
    var k := if keyword.Some? && keyword.value != "" then keyword.value else form.keyword;
    var t := if kind.Some? && kind.value in PageCommon.SpotTypes then kind.value else form.kind;
    Form(k, t, form.sortBy)
  }

  /** Whatever the address says, a filter that held a spot type (or
      nothing) still does. */
  lemma ApplyUrlKeepsType(form: Form, keyword: Option<string>, kind: Option<string>)
    requires form.kind == "" || form.kind in PageCommon.SpotTypes
    ensures ApplyUrl(form, keyword, kind).kind == "" || ApplyUrl(form, keyword, kind).kind in PageCommon.SpotTypes
  {
  }

  /** The query of `/api/search-spots`: the trimmed keyword and the type
      when they are not empty, the sort when it is not the default. */
  function Query(form: Form): (r: seq<Param>)
    ensures Param("keyword", Text.Trim(form.keyword)) in r <==> !Text.Blank(form.keyword)
    ensures forall p :: p in r && p.name == "keyword" ==> p.value == Text.Trim(form.keyword)
    ensures Param("type", form.kind) in r <==> form.kind != ""
    ensures Param("sort_by", form.sortBy) in r <==> form.sortBy != "default"
    ensures forall p :: p in r ==> p.value != "" || p.name == "sort_by"
  {
    Text.TrimEmpty(form.keyword);
    Build(Text.Trim(form.keyword), form.kind, form.sortBy)
  }

  function Build(keyword: string, kind: string, sortBy: string): (r: seq<Param>)
    ensures Param("keyword", keyword) in r <==> keyword != ""
    ensures forall p :: p in r && p.name == "keyword" ==> p.value == keyword
    ensures Param("type", kind) in r <==> kind != ""
    ensures Param("sort_by", sortBy) in r <==> sortBy != "default"
    ensures forall p :: p in r ==> p.value != "" || p.name == "sort_by"
    ensures |r| <= 3
  {
    (if keyword != "" then [Param("keyword", keyword)] else []) +
    (if kind != "" then [Param("type", kind)] else []) +
    (if sortBy != "default" then [Param("sort_by", sortBy)] else [])
  }

  /** The page's `state` and what is shown. */
  datatype Search = Search(isLoading: bool, spots: seq<int>, title: string, count: string)

  /** What a request ends with: the spots, or `None` after an error or a
      malformed answer. */
  type Answer = Option<seq<int>>

  /** `fetchAndDisplaySpots` up to its `finally`; `listFound` is whether
      the results list exists. */
  function Fetch(st: Search, listFound: bool, form: Form, answer: Answer): (r: Search)
    ensures !listFound || st.isLoading ==> r == st
    ensures listFound && !st.isLoading ==> !r.isLoading
    ensures listFound && !st.isLoading && answer.Some? ==>
      r.spots == answer.value && r.title == ResultsTitle(Text.Trim(form.keyword), form.kind) && r.count == CountText(|answer.value|)
    ensures listFound && !st.isLoading && answer.None? ==> r.spots == [] && r.title == st.title && r.count == st.count
  {
    if !listFound || st.isLoading then st
    else
      match answer
      case Some(spots) => Search(false, spots, ResultsTitle(Text.Trim(form.keyword), form.kind), CountText(|spots|))
      case None => Search(false, [], st.title, st.count)
  }

  /** A search never leaves the page stuck loading: after any sequence of
      searches from an idle page the page is idle again. */
  lemma {:induction false} FetchesSettle(st: Search, listFound: bool, forms: seq<Form>, answers: seq<Answer>)
    requires !st.isLoading && |answers| == |forms|
    ensures !FetchAll(st, listFound, forms, answers).isLoading
    decreases |forms|
  {
    if forms != [] {
      FetchesSettle(Fetch(st, listFound, forms[0], answers[0]), listFound, forms[1..], answers[1..]);
    }
  }

  function FetchAll(st: Search, listFound: bool, forms: seq<Form>, answers: seq<Answer>): Search
    requires |answers| == |forms|
    decreases |forms|
  {
    if forms == [] then st else FetchAll(Fetch(st, listFound, forms[0], answers[0]), listFound, forms[1..], answers[1..])
  }

  const Recommended: string := "推荐景区"
  const Results: string := "搜索结果"

  /** `updateResultsInfo`: the title above the results. */
  function ResultsTitle(keyword: string, kind: string): (title: string)
    ensures keyword == "" && kind == "" ==> title == Recommended
    ensures keyword != "" || kind != "" ==> |title| >= |Results| && title[..|Results|] == Results
    ensures keyword != "" ==> title[|Results|..] == Quoted(keyword) + (if kind == "" then "" else Dash(kind))
    ensures keyword == "" && kind != "" ==> title == Results + Dash(kind)
  {
    if keyword == "" && kind == "" then Recommended
    else
      var rest := (if keyword != "" then Quoted(keyword) else "") + (if kind != "" then Dash(kind) else "");
      assert (Results + rest)[|Results|..] == rest;
      assert (Results + rest)[..|Results|] == Results;
      Results + rest
  }

  function Quoted(keyword: string): string
  {
    " - \"" + keyword + "\""
  }

  function Dash(kind: string): string
  {
    " - " + kind
  }

  /** The title names what was searched: reading it back gives the
      keyword and the type again. */
  lemma TitleNamesSearch(keyword: string, kind: string)
    requires keyword != "" || kind != ""
    ensures kind != "" ==> ResultsTitle(keyword, kind)[|ResultsTitle(keyword, kind)| - |kind|..] == kind
    ensures keyword != "" ==> ResultsTitle(keyword, kind)[|Results| + 4..|Results| + 4 + |keyword|] == keyword
  {
    if keyword != "" {
      KeywordInTitle(keyword, kind);
    }
    if kind != "" {
      KindInTitle(keyword, kind);
    }
  }

  lemma KeywordInTitle(keyword: string, kind: string)
    requires keyword != ""
    ensures ResultsTitle(keyword, kind)[|Results| + 4..|Results| + 4 + |keyword|] == keyword
  {
    var d := if kind != "" then Dash(kind) else "";
    assert ResultsTitle(keyword, kind) == Results + (Quoted(keyword) + d);
    Middle(Results, " - \"", keyword, "\"", d);
  }

  lemma KindInTitle(keyword: string, kind: string)
    requires kind != ""
    ensures ResultsTitle(keyword, kind)[|ResultsTitle(keyword, kind)| - |kind|..] == kind
  {
    var q := if keyword != "" then Quoted(keyword) else "";
    assert ResultsTitle(keyword, kind) == Results + (q + Dash(kind));
    Last(Results, q, " - ", kind);
  }

  lemma Middle(a: string, b: string, c: string, d: string, e: string)
    ensures (a + ((b + c + d) + e))[|a| + |b|..|a| + |b| + |c|] == c
  {
    assert a + ((b + c + d) + e) == (a + b) + c + (d + e);
  }

  lemma Last(a: string, q: string, b: string, c: string)
    ensures (a + (q + (b + c)))[|a + (q + (b + c))| - |c|..] == c
  {
    assert a + (q + (b + c)) == (a + q + b) + c;
  }

  /** `找到 ${count} 个景区`. */
  function CountText(count: nat): string
  {
    "找到 " + Text.Decimal(count) + " 个景区"
  }

  /** Different counts read differently. */
  lemma CountTextInjective(m: nat, n: nat)
    requires CountText(m) == CountText(n)
    ensures m == n
  {
    var dm := Text.Decimal(m);
    var dn := Text.Decimal(n);
    assert CountText(m)[3..|CountText(m)| - 4] == dm;
    assert CountText(n)[3..|CountText(n)| - 4] == dn;
    Text.DecimalInjective(m, n);
  }

  datatype View = GridView | ListView

  const NarrowWidth: int := 768

  /** `handleResize`. */
  function Resize(view: View, width: int): (r: View)
    ensures width <= NarrowWidth ==> r == GridView
    ensures width > NarrowWidth ==> r == view
  {
    if width <= NarrowWidth && view.ListView? then GridView else view
  }

  /** Resizing twice to the same width is resizing once. */
  lemma ResizeIdempotent(view: View, width: int)
    ensures Resize(Resize(view, width), width) == Resize(view, width)
  {
  }
}

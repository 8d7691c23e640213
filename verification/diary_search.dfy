/** The diary search page (`diary_search.js`): the search history kept in
    local storage, the length limit on the keyword, and the header search
    box that either searches diaries here or sends the visitor to the spot
    search.

    The history is the list `diarySearchHistory` decodes to; reading and
    writing local storage and the JSON around it are left to the page.
 */
module DiarySearch {
  import Text

  /** The most recent searches the history keeps. */
  const HistoryLimit: nat := 10

  /** The longest keyword the search box accepts. */
  const KeywordLimit: nat := 100

  const TooLong: string := "搜索关键词不能超过100个字符"

  /** `history.filter(item => item !== term)`. */
  function Without(history: seq<string>, term: string): (r: seq<string>)
    ensures term !in r
    ensures forall x :: x in r <==> x in history && x != term
    ensures |r| <= |history|
  {
    if history == [] then []
    else (if history[0] == term then [] else [history[0]]) + Without(history[1..], term)
  }

  /** `a` lists some of the entries of `b`, in the order `b` has them. */
  predicate Subsequence(a: seq<string>, b: seq<string>)
    decreases |b|
  {
    if a == [] then true
    else if b == [] then false
    else (a[0] == b[0] && Subsequence(a[1..], b[1..])) || Subsequence(a, b[1..])
  }

  predicate Distinct(s: seq<string>)
  {
    forall i, j :: 0 <= i < j < |s| ==> s[i] != s[j]
  }

  /** Filtering keeps the order of what is left. */
  lemma {:induction false} WithoutKeepsOrder(history: seq<string>, term: string)
    ensures Subsequence(Without(history, term), history)
    decreases |history|
  {
    if history != [] {
      WithoutKeepsOrder(history[1..], term);
      var rest := Without(history[1..], term);
      if history[0] == term {
        assert Without(history, term) == rest;
        SubsequenceSkip(rest, history);
      } else {
        assert Without(history, term) == [history[0]] + rest;
        assert ([history[0]] + rest)[1..] == rest;
      }
    }
  }

  lemma SubsequenceSkip(a: seq<string>, b: seq<string>)
    requires b != [] && Subsequence(a, b[1..])
    ensures Subsequence(a, b)
  {
  }

  /** A prefix of a subsequence is one too. */
  lemma {:induction false} SubsequencePrefix(a: seq<string>, b: seq<string>, k: nat)
    requires k <= |a| && Subsequence(a, b)
    ensures Subsequence(a[..k], b)
    decreases |b|
  {
    if k > 0 {
      assert a != [] && b != [];
      if a[0] == b[0] && Subsequence(a[1..], b[1..]) {
        SubsequencePrefix(a[1..], b[1..], k - 1);
        assert a[..k][1..] == a[1..][..k - 1];
      } else {
        SubsequencePrefix(a, b[1..], k);
      }
    }
  }

  lemma {:induction false} WithoutDistinct(history: seq<string>, term: string)
    requires Distinct(history)
    ensures Distinct(Without(history, term))
    decreases |history|
  {
    if history != [] {
      WithoutDistinct(history[1..], term);
      var rest := Without(history[1..], term);
      assert history[0] !in history[1..] by {
        assert forall j :: 0 <= j < |history| - 1 ==> history[1..][j] == history[j + 1];
      }
      assert history[0] !in rest;
    }
  }

  function Take(s: seq<string>, n: nat): (r: seq<string>)
    ensures |r| <= n && |r| <= |s| && r == s[..|r|]
    ensures |s| >= n ==> |r| == n
    ensures |s| < n ==> r == s
  {
    if |s| <= n then s else s[..n]
  }

  /** `saveSearchTerm`: a blank term leaves the history alone; any other
      term moves to the front (as typed, not trimmed), once, and the
      history keeps its ten most recent entries. */
  function SaveSearchTerm(history: seq<string>, term: string): (r: seq<string>)
    ensures Text.Blank(term) ==> r == history
    ensures !Text.Blank(term) ==> |r| >= 1 && r[0] == term && |r| <= HistoryLimit
    ensures !Text.Blank(term) ==> multiset(r)[term] == 1
    ensures !Text.Blank(term) ==> r[1..] == Take(Without(history, term), HistoryLimit - 1)
  {
    Text.TrimEmpty(term);
    if Text.Trim(term) == [] then history
    else
      var r := Take([term] + Without(history, term), HistoryLimit);
      assert r == [term] + Take(Without(history, term), HistoryLimit - 1);
      assert term !in r[1..];
      assert r == [r[0]] + r[1..];
      assert multiset(r) == multiset{term} + multiset(r[1..]);
      r
  }

  /** Every other entry stays in the order it had. */
  lemma SaveKeepsOrder(history: seq<string>, term: string)
    requires !Text.Blank(term)
    ensures Subsequence(SaveSearchTerm(history, term)[1..], history)
  {
    var w := Without(history, term);
    WithoutKeepsOrder(history, term);
    var k := |Take(w, HistoryLimit - 1)|;
    SubsequencePrefix(w, history, k);
  }

  /** A history of distinct entries stays so. */
  lemma SaveKeepsDistinct(history: seq<string>, term: string)
    requires Distinct(history)
    ensures Distinct(SaveSearchTerm(history, term))
  {
    if !Text.Blank(term) {
      var w := Without(history, term);
      var front := Take(w, HistoryLimit - 1);
      assert Distinct(front) by {
        WithoutDistinct(history, term);
        assert forall i :: 0 <= i < |front| ==> front[i] == w[i];
      }
      assert term !in front by {
        assert forall i :: 0 <= i < |front| ==> front[i] == w[i];
      }
      ConsDistinct(SaveSearchTerm(history, term), front);
    }
  }

  /** A sequence whose head is not in its distinct tail is distinct. */
  lemma ConsDistinct(r: seq<string>, tail: seq<string>)
    requires |r| >= 1 && r[1..] == tail && Distinct(tail) && r[0] !in tail
    ensures Distinct(r)
  {
    forall i, j | 0 <= i < j < |r|
      ensures r[i] != r[j]
    {
      assert r[j] == tail[j - 1];
      if i > 0 {
        assert r[i] == tail[i - 1];
      }
    }
  }

  /** Searching for the same term twice in a row leaves the history as the
      first search left it. */
  lemma SaveTwice(history: seq<string>, term: string)
    ensures SaveSearchTerm(SaveSearchTerm(history, term), term) == SaveSearchTerm(history, term)
  {
    if !Text.Blank(term) {
      var r := SaveSearchTerm(history, term);
      var w := Take(Without(history, term), HistoryLimit - 1);
      assert r == [term] + w;
      WithoutAbsent(w, term);
      assert Without(r, term) == w;
    }
  }

  lemma {:induction false} WithoutAbsent(s: seq<string>, term: string)
    requires term !in s
    ensures Without(s, term) == s
    decreases |s|
  {
    if s != [] {
      WithoutAbsent(s[1..], term);
      assert s == [s[0]] + s[1..];
    }
  }

  /** `validateSearchInput`: the custom validity message, empty when the
      keyword is accepted. */
  function ValidateSearchInput(value: string): (message: string)
    ensures message == "" <==> |value| <= KeywordLimit
    ensures message != "" ==> message == TooLong
  {
    if |value| <= KeywordLimit then "" else TooLong
  }

  /** What the header search box does. */
  datatype Action =
    | Nothing
    | SearchDiaries(keyword: string)
    | GoToSpotSearch(url: string)

  /** `handleHeaderSearch` for the box's value and the selected kind; the
      URL component encoding of the keyword is `encode`. */
  function HeaderSearch(value: string, kind: string, encode: string -> string): (r: Action)
    ensures Text.Blank(value) ==> r == Nothing
    ensures r.SearchDiaries? ==> kind == "diary" && r.keyword == Text.Trim(value) && r.keyword != []
    ensures r.GoToSpotSearch? ==> kind == "spot" && r.url == "/spots/search?keyword=" + encode(Text.Trim(value))
    ensures !Text.Blank(value) && kind == "diary" ==> r.SearchDiaries?
    ensures !Text.Blank(value) && kind == "spot" ==> r.GoToSpotSearch?
    ensures kind != "diary" && kind != "spot" ==> r == Nothing
  {
    Text.TrimEmpty(value);
    var keyword := Text.Trim(value);
    if keyword == [] then Nothing
    else if kind == "diary" then SearchDiaries(keyword)
    else if kind == "spot" then GoToSpotSearch("/spots/search?keyword=" + encode(keyword))
    else Nothing
  }

  /** Searching again for the keyword the box submitted gives the same
      search. */
  lemma HeaderSearchStable(value: string, kind: string, encode: string -> string)
    ensures HeaderSearch(value, kind, encode).SearchDiaries? ==>
      HeaderSearch(HeaderSearch(value, kind, encode).keyword, kind, encode) == HeaderSearch(value, kind, encode)
  {
    Text.TrimIdempotent(value);
    Text.TrimEmpty(value);
    Text.TrimEmpty(Text.Trim(value));
  }
}

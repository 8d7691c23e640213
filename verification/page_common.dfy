/** What several page scripts share: the thirteen spot types offered for
    interests and filters, the "first failing check" shape of the form
    validations, and the star rows whose stars are filled up to a value.
 */
module PageCommon {
  import opened Wrappers

  /** The spot types, in the order the register and spot-search pages list
      them (`register.js` and `spotSearch.js` declare the same list). */
  const SpotTypes: seq<string> := [
    "历史建筑", "赏花胜地", "萌萌动物", "城市漫步", "夜游观景",
    "遛娃宝藏地", "展馆展览", "地标观景", "登高爬山", "踏青必去",
    "自然山水", "游乐场", "演出"
  ]

  /** The spot type the home page and the filters single out. */
  const Show: string := "演出"

  lemma SpotTypesDistinct()
    ensures |SpotTypes| == 13
    ensures Show == SpotTypes[12]
    ensures forall i, j :: 0 <= i < j < |SpotTypes| ==> SpotTypes[i] != SpotTypes[j]
  {
  }

  // ---------------------------------------------------------------------
  // Validation chains
  // ---------------------------------------------------------------------

  /** One check of a form: whether it fails, and what the page says then. */
  datatype Check = Check(fails: bool, message: string)

  predicate Passes(checks: seq<Check>)
  {
    forall i :: 0 <= i < |checks| ==> !checks[i].fails
  }

  /** The message of the first failing check, if any. */
  function FirstFailure(checks: seq<Check>): (r: Option<string>)
    ensures r.None? <==> Passes(checks)
    ensures r.Some? ==> exists i :: 0 <= i < |checks| && checks[i].fails && checks[i].message == r.value && Passes(checks[..i])
  {
    if checks == [] then None
    else if checks[0].fails then Some(checks[0].message)
    else
      var r := FirstFailure(checks[1..]);
      assert forall i :: 1 <= i < |checks| ==> checks[i] == checks[1..][i - 1];
      r
  }

  /** Once a check fails, nothing after it can change the verdict. */
  lemma {:induction false} FirstFailureStops(checks: seq<Check>, rest: seq<Check>, i: nat)
    requires i < |checks| && checks[i].fails && Passes(checks[..i])
    ensures FirstFailure(checks + rest) == Some(checks[i].message)
    decreases i
  {
    if i > 0 {
      assert (checks + rest)[1..] == checks[1..] + rest;
      FirstFailureStops(checks[1..], rest, i - 1);
    }
  }

  // ---------------------------------------------------------------------
  // Star rows
  // ---------------------------------------------------------------------

  /** `highlightStars` and `updateStars`: the star whose value is `values[i]`
      is filled exactly when that value is at most `rating`. */
  function FillStars(values: seq<int>, rating: real): (r: seq<bool>)
    ensures |r| == |values|
    ensures forall i :: 0 <= i < |values| ==> (r[i] <==> values[i] as real <= rating)
  {
    if values == [] then []
    else [values[0] as real <= rating] + FillStars(values[1..], rating)
  }

  /** The values of the five-star rows: 1 to 5. */
  const FiveValues: seq<int> := [1, 2, 3, 4, 5]

  function Count(b: seq<bool>): (n: nat)
    ensures n <= |b|
  {
    if b == [] then 0 else (if b[0] then 1 else 0) + Count(b[1..])
  }

  /** On a row valued 1 to 5, a rating from 0 to 5 fills the first
      `floor(rating)` stars and no others. */
  lemma FiveStarsFill(rating: real)
    requires 0.0 <= rating <= 5.0
    ensures forall i :: 0 <= i < 5 ==> (FillStars(FiveValues, rating)[i] <==> i < rating.Floor)
    ensures Count(FillStars(FiveValues, rating)) == rating.Floor
  {
    var r := FillStars(FiveValues, rating);
    var f := rating.Floor;
    assert 0 <= f <= 5;
    forall i | 0 <= i < 5
      ensures r[i] <==> i < f
    {
      assert FiveValues[i] == i + 1;
    }
    PrefixCount(r, f);
  }

  /** A row that is `true` exactly on its first `k` places counts `k`. */
  lemma {:induction false} PrefixCount(b: seq<bool>, k: int)
    requires 0 <= k <= |b|
    requires forall i :: 0 <= i < |b| ==> (b[i] <==> i < k)
    ensures Count(b) == k
    decreases |b|
  {
    if b != [] {
      assert forall i :: 0 <= i < |b| - 1 ==> b[1..][i] == b[i + 1];
      PrefixCount(b[1..], if k > 0 then k - 1 else 0);
    }
  }
}

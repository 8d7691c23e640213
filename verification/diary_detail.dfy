/** The diary page (`diary_detail.js`): the arrow keys in the open image
    modal, the star row of the rating form, and the check the rating form
    runs before it is sent.

    Images are their `src`; the slide animation and its timer are left to
    the page.  The star row sees the score field as its text; the check
    sees what `parseFloat` makes of it (`None` for `NaN`).
 */
module DiaryDetail {
  import opened Wrappers
  import PageCommon
  import Lex
  import GalleryModal

  /** `images.findIndex(img => img.src === currentSrc)`: the first
      position of the source, as `indexOf` finds it. */
  function FindIndex(images: seq<string>, src: string): int
  {
    GalleryModal.IndexOf(images, src)
  }

  datatype Key = ArrowLeft | ArrowRight | OtherKey

  /** The `src` the modal shows after a key press while it is open. */
  function PressKey(images: seq<string>, current: string, key: Key): (r: string)
    ensures var i := FindIndex(images, current);
      (key == ArrowLeft && i > 0 ==> r == images[i - 1]) &&
      (key == ArrowRight && i < |images| - 1 ==> r == images[i + 1]) &&
      (key == ArrowLeft && i <= 0 ==> r == current) &&
      (key == ArrowRight && i >= |images| - 1 ==> r == current) &&
      (key == OtherKey ==> r == current)
  {
    var i := FindIndex(images, current);
    if key == ArrowLeft && i > 0 then images[i - 1]
    else if key == ArrowRight && i < |images| - 1 then images[i + 1]
    else current
  }

  predicate Distinct(images: seq<string>)
  {
    forall i, j :: 0 <= i < j < |images| ==> images[i] != images[j]
  }

  lemma FindDistinct(images: seq<string>, i: int)
    requires Distinct(images) && 0 <= i < |images|
    ensures FindIndex(images, images[i]) == i
  {
    var k := FindIndex(images, images[i]);
    assert images[k] == images[i];
  }

  /** In a gallery of distinct images the keys move one place, never past
      either end: the first image stays on ArrowLeft, the last on
      ArrowRight, and a step right is undone by a step left. */
  lemma ArrowsNoWrap(images: seq<string>, i: int)
    requires Distinct(images) && 0 <= i < |images|
    ensures i == 0 ==> PressKey(images, images[i], ArrowLeft) == images[i]
    ensures i == |images| - 1 ==> PressKey(images, images[i], ArrowRight) == images[i]
    ensures i < |images| - 1 ==> PressKey(images, PressKey(images, images[i], ArrowRight), ArrowLeft) == images[i]
  {
    FindDistinct(images, i);
    if i < |images| - 1 {
      FindDistinct(images, i + 1);
    }
  }

  /** An image that is not in the gallery goes to the first one on
      ArrowRight, and stays on ArrowLeft. */
  lemma UnknownImage(images: seq<string>, current: string)
    requires current !in images && |images| >= 1
    ensures PressKey(images, current, ArrowRight) == images[0]
    ensures PressKey(images, current, ArrowLeft) == current
  {
  }

  /** The `data-value` attributes the star row is built with. */
  const StarValues: seq<string> := ["1", "2", "3", "4", "5"]

  /** A one-character string is at most `s` in the string order exactly
      when `s` starts with that character or a later one. */
  lemma OneCharLessEq(c: char, s: string)
    ensures Lex.LessEq([c], s) <==> s != "" && c <= s[0]
  {
    if s != "" && s[0] == c {
      assert [c][1..] == [] && !Lex.Less(s[1..], []);
    }
  }

  /** `updateStars(value)` on the five stars of the rating form; the
      `mouseover` handler repeats it with the hovered star's value.
      `value` is a string (a star's `data-value`, or the score field's
      text), and `<=` between two strings compares them character by
      character, so only the first character of `value` decides. */
  function UpdateStars(value: string): (filled: seq<bool>)
    ensures |filled| == 5
    ensures forall i :: 0 <= i < 5 ==> (filled[i] <==> value != "" && StarValues[i][0] <= value[0])
  {
    forall i | 0 <= i < 5
      ensures Lex.LessEq(StarValues[i], value) <==> value != "" && StarValues[i][0] <= value[0]
    {
      assert StarValues[i] == [StarValues[i][0]];
      OneCharLessEq(StarValues[i][0], value);
    }
    seq(5, i requires 0 <= i < 5 => Lex.LessEq(StarValues[i], value))
  }

  /** The stars a score stands for as a number (`parseFloat` of the field,
      `None` for `NaN`): star `i` is filled when `i + 1` is at most the
      score. */
  function ScoreStars(score: Option<real>): (filled: seq<bool>)
    ensures |filled| == 5
    ensures forall i :: 0 <= i < 5 ==> (filled[i] <==> score.Some? && (i + 1) as real <= score.value)
  {
    match score
    case None => [false, false, false, false, false]
    case Some(x) => PageCommon.FillStars(PageCommon.FiveValues, x)
  }

  /** On a single digit the string order agrees with the numeric one. */
  lemma DigitStars(c: char)
    requires '0' <= c <= '9'
    ensures UpdateStars([c]) == ScoreStars(Some((c as int - '0' as int) as real))
  {
    var u, n := UpdateStars([c]), ScoreStars(Some((c as int - '0' as int) as real));
    forall i | 0 <= i < 5
      ensures u[i] == n[i]
    {
      assert StarValues[i][0] as int == '1' as int + i;
    }
  }

  /** A click on star `k` writes its `data-value`, which fills exactly the
      first `k` stars. */
  lemma ClickFillsStars(k: int)
    requires 1 <= k <= 5
    ensures var filled := UpdateStars(StarValues[k - 1]);
      PageCommon.Count(filled) == k && forall i :: 0 <= i < 5 ==> (filled[i] <==> i < k)
  {
    var c := StarValues[k - 1][0];
    assert StarValues[k - 1] == [c] && c as int - '0' as int == k;
    DigitStars(c);
    PageCommon.FiveStarsFill(k as real);
  }

  /** The string order departs from the numeric one on other text: "10"
      fills one star, and a score typed as "04" or " 4", which the form
      sends as 4, fills none where the number stands for four. */
  lemma ZeroPaddedScore()
    ensures UpdateStars("10") == [true, false, false, false, false]
    ensures UpdateStars("04") == [false, false, false, false, false]
    ensures UpdateStars(" 4") == [false, false, false, false, false]
    ensures ScoreAccepted(Some(4.0)) && ScoreStars(Some(4.0)) == [true, true, true, true, false]
  {
    var a, b, c, d := UpdateStars("10"), UpdateStars("04"), UpdateStars(" 4"), ScoreStars(Some(4.0));
    assert a[0] && !a[1] && !a[2] && !a[3] && !a[4];
    assert !b[0] && !b[1] && !b[2] && !b[3] && !b[4];
    assert !c[0] && !c[1] && !c[2] && !c[3] && !c[4];
    assert d[0] && d[1] && d[2] && d[3] && !d[4];
  }

  /** The rating form's check: whether the score may be sent. */
  function ScoreAccepted(score: Option<real>): (ok: bool)
    ensures ok <==> score.Some? && 0.0 <= score.value <= 5.0
  {
    match score
    case None => false
    case Some(x) => !(x < 0.0 || x > 5.0)
  }

  /** Every score the form sends stands for as many stars as its whole
      part. */
  lemma AcceptedScoreStars(score: Option<real>)
    requires ScoreAccepted(score)
    ensures PageCommon.Count(ScoreStars(score)) == score.value.Floor
  {
    PageCommon.FiveStarsFill(score.value);
  }
}

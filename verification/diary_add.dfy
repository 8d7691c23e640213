/** The new-diary form (`diary_add.js`): the checks run on submit, the
    default rating, the star row of the rating input, and the prompt shown
    when the visitor leaves with unsaved text.

    The rating field is given as what `parseFloat` makes of it (`None` for
    `NaN`); the toast, the scrolling to the field and the form's own
    submission are left to the page.
 */
module DiaryAdd {
  import opened Wrappers
  import PageCommon
  import Text

  const NoSpot: string := "请选择一个景点"
  const NoTitle: string := "请输入日记标题"
  const NoContent: string := "请输入日记内容"
  const ShortContent: string := "日记内容至少需要50个字符"

  /** The shortest content the form accepts, after trimming. */
  const MinContent: nat := 50

  /** The rating a missing or non-positive one is replaced by. */
  const DefaultRating: real := 3.0

  /** The rating `initializeRating` puts in the field. */
  const InitialRating: real := 0.0

  datatype Form = Form(spotId: string, title: string, content: string, rating: Option<real>)

  /** What a submit does: mark a field with a message, or send the form
      with the rating it then holds. */
  datatype Outcome =
    | Refused(field: string, message: string)
    | Submitted(rating: real)

  /** The submit handler, and the `isFormSubmitting` flag it leaves. */
  function Submit(form: Form, submitting: bool): (r: (Outcome, bool))
    ensures r.0.Submitted? ==> r.1 && r.0.rating > 0.0
    ensures r.0.Refused? ==> r.1 == submitting
    ensures r.0.Submitted? ==> form.spotId != "" && !Text.Blank(form.title) && |Text.Trim(form.content)| >= MinContent
    ensures r.0.Submitted? && form.rating.Some? && form.rating.value > 0.0 ==> r.0.rating == form.rating.value
    ensures r.0.Submitted? && (form.rating.None? || form.rating.value <= 0.0) ==> r.0.rating == DefaultRating
  {
    Text.TrimEmpty(form.title);
    Decide(form.spotId, Text.Trim(form.title), Text.Trim(form.content), form.rating, submitting)
  }

  /** The chain of checks on the trimmed title and content. */
  function Decide(spotId: string, title: string, content: string, rating: Option<real>, submitting: bool): (Outcome, bool)
  {
    if spotId == "" then (Refused("spot_id", NoSpot), submitting)
    else if title == "" then (Refused("title", NoTitle), submitting)
    else if content == "" then (Refused("content", NoContent), submitting)
    else if |content| < MinContent then (Refused("content", ShortContent), submitting)
    else
      var r := if rating.None? || rating.value <= 0.0 then DefaultRating else rating.value;
      (Submitted(r), true)
  }

  /** The checks of the form on the trimmed title and content, in the
      order the handler runs them. */
  function Checks(spotId: string, title: string, content: string): seq<PageCommon.Check>
  {
    [ PageCommon.Check(spotId == "", NoSpot),
      PageCommon.Check(title == "", NoTitle),
      PageCommon.Check(content == "", NoContent),
      PageCommon.Check(|content| < MinContent, ShortContent) ]
  }

  /** The form is refused with the first failing check's message, and sent
      exactly when every check passes. */
  lemma SubmitFirstFailure(form: Form, submitting: bool)
    ensures var cs := Checks(form.spotId, Text.Trim(form.title), Text.Trim(form.content));
      (Submit(form, submitting).0.Submitted? <==> PageCommon.FirstFailure(cs).None?) &&
      (Submit(form, submitting).0.Refused? ==> PageCommon.FirstFailure(cs) == Some(Submit(form, submitting).0.message))
  {
    DecideFirstFailure(form.spotId, Text.Trim(form.title), Text.Trim(form.content), form.rating, submitting);
  }

  lemma DecideFirstFailure(spotId: string, title: string, content: string, rating: Option<real>, submitting: bool)
    ensures var r := Decide(spotId, title, content, rating, submitting).0;
      (r.Submitted? <==> PageCommon.FirstFailure(Checks(spotId, title, content)).None?) &&
      (r.Refused? ==> PageCommon.FirstFailure(Checks(spotId, title, content)) == Some(r.message))
  {
    var cs := Checks(spotId, title, content);
    assert cs[1..][1..][1..][1..] == [];
    assert PageCommon.Passes(cs) ==> !cs[0].fails && !cs[1].fails && !cs[2].fails && !cs[3].fails;
  }

  /** A form sent untouched carries the default rating. */
  lemma UntouchedRatingDefaults(form: Form)
    requires form.rating == Some(InitialRating)
    ensures Submit(form, false).0.Submitted? ==> Submit(form, false).0.rating == DefaultRating
  {
  }

  /** `highlightStars` on the five stars of the rating input. */
  function HighlightStars(rating: real): (filled: seq<bool>)
    ensures |filled| == 5
    ensures forall i :: 0 <= i < 5 ==> (filled[i] <==> (i + 1) as real <= rating)
  {
    PageCommon.FillStars(PageCommon.FiveValues, rating)
  }

  /** What the default rating shows: the first three stars. */
  lemma DefaultShowsThree()
    ensures HighlightStars(DefaultRating) == [true, true, true, false, false]
    ensures HighlightStars(InitialRating) == [false, false, false, false, false]
  {
    var d := HighlightStars(DefaultRating);
    var z := HighlightStars(InitialRating);
    assert d[0] && d[1] && d[2] && !d[3] && !d[4];
    assert !z[0] && !z[1] && !z[2] && !z[3] && !z[4];
  }

  /** The `beforeunload` handler: whether the page asks before leaving. */
  function LeavePrompt(submitting: bool, title: string, content: string): (ask: bool)
    ensures ask <==> !submitting && (!Text.Blank(title) || !Text.Blank(content))
  {
    Text.TrimEmpty(title);
    Text.TrimEmpty(content);
    !submitting && (Text.Trim(title) != "" || Text.Trim(content) != "")
  }

  /** Once a form has been sent, leaving never asks; a form that can be
      sent always has text worth asking about. */
  lemma SentFormLeavesQuietly(form: Form, submitting: bool)
    ensures var (outcome, flag) := Submit(form, submitting);
      outcome.Submitted? ==> !LeavePrompt(flag, form.title, form.content) && LeavePrompt(false, form.title, form.content)
  {
  }
}

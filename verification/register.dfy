/** The register page (`register.js`): choosing up to five interest tags
    among the spot types, and the checks the form passes before it is
    sent.

    The hidden `selectedTags` input is kept as the list whose JSON it
    holds; `None` is the value the page was served with.  The two-second
    timer that hides the limit warning again is left to the page.
 */
module Register {
  import opened Wrappers
  import PageCommon
  import Text

  const MaxTags: nat := 5

  /** The chosen tags in the order they were chosen, the tags whose
      element carries the `selected` class, whether the limit warning is
      shown, and the hidden input. */
  datatype Tags = Tags(selected: seq<string>, marked: set<string>, warning: bool, hidden: Option<seq<string>>)

  predicate Distinct(s: seq<string>)
  {
    forall i, j :: 0 <= i < j < |s| ==> s[i] != s[j]
  }

  /** What the page keeps true: no tag twice, at most five, exactly the
      marked elements chosen, and the hidden input, once written, holding
      the choice. */
  predicate Valid(t: Tags)
  {
    Distinct(t.selected) && |t.selected| <= MaxTags &&
    (set x | x in t.selected) == t.marked &&
    (t.hidden.Some? ==> t.hidden.value == t.selected)
  }

  function Initial(): (t: Tags)
    ensures Valid(t) && t.selected == []
  {
    Tags([], {}, false, None)
  }

  /** `selectedTags.filter(t => t !== tag)`. */
  function Remove(s: seq<string>, tag: string): (r: seq<string>)
    ensures forall x :: x in r <==> x in s && x != tag
    ensures |r| <= |s|
  {
    if s == [] then []
    else (if s[0] == tag then [] else [s[0]]) + Remove(s[1..], tag)
  }

  lemma {:induction false} RemoveDistinct(s: seq<string>, tag: string)
    requires Distinct(s)
    ensures Distinct(Remove(s, tag))
    ensures tag in s ==> |Remove(s, tag)| == |s| - 1
    ensures tag !in s ==> Remove(s, tag) == s
    decreases |s|
  {
    if s != [] {
      assert forall j :: 0 <= j < |s| - 1 ==> s[1..][j] == s[j + 1];
      RemoveDistinct(s[1..], tag);
      assert s[0] !in s[1..];
      assert s == [s[0]] + s[1..];
    }
  }

  /** `toggleTag`: a chosen tag is dropped, another one is added while
      fewer than five are chosen, and at the limit only the warning
      changes. */
  function Toggle(t: Tags, tag: string): (r: Tags)
    ensures tag in t.marked ==> r == Tags(Remove(t.selected, tag), t.marked - {tag}, false, Some(Remove(t.selected, tag)))
    ensures tag !in t.marked && |t.selected| < MaxTags ==>
      r == Tags(t.selected + [tag], t.marked + {tag}, false, Some(t.selected + [tag]))
    ensures tag !in t.marked && |t.selected| >= MaxTags ==> r == t.(warning := true)
  {
    if tag in t.marked then
      var s := Remove(t.selected, tag);
      Tags(s, t.marked - {tag}, false, Some(s))
    else if |t.selected| < MaxTags then
      var s := t.selected + [tag];
      Tags(s, t.marked + {tag}, false, Some(s))
    else t.(warning := true)
  }

  /** Every toggle keeps the page's bookkeeping right. */
  lemma ToggleValid(t: Tags, tag: string)
    requires Valid(t)
    ensures Valid(Toggle(t, tag))
    ensures |Toggle(t, tag).selected| <= MaxTags
  {
    if tag in t.marked {
      RemoveDistinct(t.selected, tag);
    } else if |t.selected| < MaxTags {
      var s := t.selected + [tag];
      assert forall i :: 0 <= i < |t.selected| ==> s[i] == t.selected[i];
    }
  }

  /** Choosing a tag and dropping it again restores the choice. */
  lemma ToggleTwice(t: Tags, tag: string)
    requires Valid(t) && tag !in t.marked && |t.selected| < MaxTags
    ensures Toggle(Toggle(t, tag), tag).selected == t.selected
    ensures Toggle(Toggle(t, tag), tag).marked == t.marked
  {
    var once := Toggle(t, tag);
    assert tag !in t.selected;
    RemoveAppend(t.selected, tag);
  }

  lemma {:induction false} RemoveAppend(s: seq<string>, tag: string)
    requires tag !in s
    ensures Remove(s + [tag], tag) == s
    decreases |s|
  {
    if s == [] {
      assert [tag][1..] == [];
    } else {
      assert (s + [tag])[1..] == s[1..] + [tag];
      RemoveAppend(s[1..], tag);
      assert s == [s[0]] + s[1..];
    }
  }

  function ToggleAll(t: Tags, clicks: seq<string>): Tags
    decreases |clicks|
  {
    if clicks == [] then t else ToggleAll(Toggle(t, clicks[0]), clicks[1..])
  }

  /** However the visitor clicks, never more than five tags are chosen. */
  lemma {:induction false} ClicksStayValid(t: Tags, clicks: seq<string>)
    requires Valid(t)
    ensures Valid(ToggleAll(t, clicks))
    decreases |clicks|
  {
    if clicks != [] {
      ToggleValid(t, clicks[0]);
      ClicksStayValid(Toggle(t, clicks[0]), clicks[1..]);
    }
  }

  // ---------------------------------------------------------------------
  // Submitting
  // ---------------------------------------------------------------------

  const NoUsername: string := "请输入用户名"
  const NoPassword: string := "请设置密码"
  const ShortPassword: string := "密码长度至少为6位"
  const Mismatch: string := "两次输入的密码不一致"
  const NoTags: string := "请至少选择一个兴趣标签"

  /** What a submit does: show a message and stay, or send the form. */
  datatype Submission =
    | Refused(message: string)
    | Send(username: string, password: string, tags: seq<string>)

  /** The submit handler; the three fields are trimmed first. */
  function Submit(username: string, password: string, confirm: string, tags: seq<string>): (r: Submission)
    ensures r.Send? ==> r.username == Text.Trim(username) && r.password == Text.Trim(password) && r.tags == tags
    ensures r.Send? ==> r.username != "" && |r.password| >= 6 && Text.Trim(confirm) == r.password && tags != []
    ensures Text.Trim(username) == "" ==> r == Refused(NoUsername)
  {
    Decide(Text.Trim(username), Text.Trim(password), Text.Trim(confirm), tags)
  }

  /** The chain of checks on the trimmed fields. */
  function Decide(u: string, p: string, c: string, tags: seq<string>): (r: Submission)
    ensures r.Send? ==> r == Send(u, p, tags) && u != "" && |p| >= 6 && c == p && tags != []
    ensures u == "" ==> r == Refused(NoUsername)
  {
    if u == "" then Refused(NoUsername)
    else if p == "" then Refused(NoPassword)
    else if |p| < 6 then Refused(ShortPassword)
    else if p != c then Refused(Mismatch)
    else if |tags| == 0 then Refused(NoTags)
    else Send(u, p, tags)
  }

  /** The checks of the register form on the trimmed fields, in the order
      the handler runs them. */
  function Checks(u: string, p: string, c: string, tags: seq<string>): seq<PageCommon.Check>
  {
    [ PageCommon.Check(u == "", NoUsername),
      PageCommon.Check(p == "", NoPassword),
      PageCommon.Check(|p| < 6, ShortPassword),
      PageCommon.Check(p != c, Mismatch),
      PageCommon.Check(|tags| == 0, NoTags) ]
  }

  /** The handler refuses with the message of the first failing check, and
      sends exactly when none fails. */
  lemma SubmitFirstFailure(username: string, password: string, confirm: string, tags: seq<string>)
    ensures var cs := Checks(Text.Trim(username), Text.Trim(password), Text.Trim(confirm), tags);
      (Submit(username, password, confirm, tags).Send? <==> PageCommon.FirstFailure(cs).None?) &&
      (Submit(username, password, confirm, tags).Refused? ==>
        PageCommon.FirstFailure(cs) == Some(Submit(username, password, confirm, tags).message))
  {
    DecideFirstFailure(Text.Trim(username), Text.Trim(password), Text.Trim(confirm), tags);
  }

  lemma DecideFirstFailure(u: string, p: string, c: string, tags: seq<string>)
    ensures Decide(u, p, c, tags).Send? <==> PageCommon.FirstFailure(Checks(u, p, c, tags)).None?
    ensures Decide(u, p, c, tags).Refused? ==>
      PageCommon.FirstFailure(Checks(u, p, c, tags)) == Some(Decide(u, p, c, tags).message)
  {
    var cs := Checks(u, p, c, tags);
    assert cs[1..][1..][1..][1..][1..] == [];
    assert PageCommon.Passes(cs) ==> !cs[0].fails && !cs[1].fails && !cs[2].fails && !cs[3].fails && !cs[4].fails;
  }
}

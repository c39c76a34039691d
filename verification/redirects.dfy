/**
 * The "duplicate of #N" redirect marker of a comment (`DUPLICATE_EXP`,
 * src/Issues.tsx:52). The expression is unanchored and case-insensitive, so a
 * body matches when the phrase occurs anywhere, in any letter case, followed
 * by a digit; its leading and trailing `[ ]*` never change whether it matches
 * or what it captures. The captured number is the whole digit run after the
 * first occurrence.
 */
module Redirects {
  import opened Wrappers
  import opened Text
  import opened GithubIssue

  const MARKER: string := "duplicate of #"

  /** The marker, in any ASCII letter case, starts at `i` and is followed by a digit. */
  predicate MarkerAt(s: string, i: int) {
    0 <= i && i + |MARKER| < |s| &&
    (forall j :: 0 <= j < |MARKER| ==> LowerAscii(s[i + j]) == MARKER[j]) &&
    IsDigit(s[i + |MARKER|])
  }

  /** The first position at or after `i` where the marker starts. */
  function FirstMarker(s: string, i: nat): (r: Option<nat>)
    requires i <= |s|
    decreases |s| - i
    ensures r.Some? ==> i <= r.value && MarkerAt(s, r.value)
  {
    if i == |s| then None
    else if MarkerAt(s, i) then Some(i)
    else FirstMarker(s, i + 1)
  }

  /** `FirstMarker` finds a marker with none before it, and finds none only when there is none. */
  lemma {:induction false} FirstMarkerIsFirst(s: string, i: nat)
    requires i <= |s|
    decreases |s| - i
    ensures var r := FirstMarker(s, i);
      && (r.Some? ==> MarkerAt(s, r.value) && forall k :: i <= k < r.value ==> !MarkerAt(s, k))
      && (r.None? ==> forall k :: i <= k ==> !MarkerAt(s, k))
  {
    if i < |s| && !MarkerAt(s, i) {
      FirstMarkerIsFirst(s, i + 1);
    }
  }

  /** The run of digits starting at `i`. */
  function DigitRun(s: string, i: nat): (r: string)
    requires i <= |s|
    decreases |s| - i
  {
    if i < |s| && IsDigit(s[i]) then [s[i]] + DigitRun(s, i + 1) else []
  }

  /** `DigitRun` is the longest run of digits there: all digits, and followed by the end or a non-digit. */
  lemma {:induction false} DigitRunIsMaximal(s: string, i: nat)
    requires i <= |s|
    decreases |s| - i
    ensures var r := DigitRun(s, i);
      && AllDigits(r) && i + |r| <= |s| && r == s[i..i + |r|]
      && (i + |r| == |s| || !IsDigit(s[i + |r|]))
  {
    if i < |s| && IsDigit(s[i]) {
      DigitRunIsMaximal(s, i + 1);
      var rest := DigitRun(s, i + 1);
      assert DigitRun(s, i) == [s[i]] + rest;
      assert s[i..i + 1 + |rest|] == [s[i]] + s[i + 1..i + 1 + |rest|];
    }
  }

  /**
   * `DUPLICATE_EXP.exec(body)[1]` when `DUPLICATE_EXP.test(body)` holds, and
   * `None` when it does not. A target starts with a digit.
   */
  function RedirectTarget(body: string): (r: Option<string>)
    ensures r.Some? ==> r.value != [] && IsDigit(r.value[0])
  {
    match FirstMarker(body, 0)
    case None => None
    case Some(k) => Some(DigitRun(body, k + |MARKER|))
  }

  /**
   * A body redirects iff the marker occurs in it; the target is then a
   * non-empty digit string, the whole run after the first occurrence.
   */
  lemma RedirectTargetMeaning(body: string)
    ensures var r := RedirectTarget(body);
      && (r.None? <==> forall k :: !MarkerAt(body, k))
      && (r.Some? ==> |r.value| >= 1 && AllDigits(r.value))
      && (r.Some? ==> exists k :: MarkerAt(body, k) && (forall j :: 0 <= j < k ==> !MarkerAt(body, j))
                                  && r.value == DigitRun(body, k + |MARKER|))
  {
    FirstMarkerIsFirst(body, 0);
    match FirstMarker(body, 0)
    case None =>
    case Some(k) =>
      DigitRunIsMaximal(body, k + |MARKER|);
      assert IsDigit(body[k + |MARKER|]);
  }

  /** The comment's body carries a redirect marker. */
  predicate IsRedirect(c: Comment) {
    FirstMarker(c.body, 0).Some?
  }

  /**
   * The position of the last comment, in list order, whose body matches: the
   * source reverses the list and takes the first match.
   */
  function LastRedirectIndex(comments: seq<Comment>): (r: Option<nat>)
    ensures r.Some? ==> r.value < |comments|
  {
    if comments == [] then None
    else if IsRedirect(comments[|comments| - 1]) then Some(|comments| - 1)
    else LastRedirectIndex(comments[..|comments| - 1])
  }

  /** `LastRedirectIndex` picks a matching comment with none after it, and none only when no comment matches. */
  lemma {:induction false} LastRedirectIndexIsLast(comments: seq<Comment>)
    ensures var r := LastRedirectIndex(comments);
      && (r.None? <==> forall k :: 0 <= k < |comments| ==> !IsRedirect(comments[k]))
      && (r.Some? ==> IsRedirect(comments[r.value]))
      && (r.Some? ==> forall m :: r.value < m < |comments| ==> !IsRedirect(comments[m]))
  {
    if comments != [] && !IsRedirect(comments[|comments| - 1]) {
      var init := comments[..|comments| - 1];
      LastRedirectIndexIsLast(init);
      assert forall k :: 0 <= k < |init| ==> init[k] == comments[k];
    }
  }

  /** The number the redirecting comment refers to, if some comment redirects; it starts with a digit. */
  function LastRedirect(comments: seq<Comment>): (r: Option<string>)
    ensures comments == [] ==> r.None?
    ensures r.Some? ==> r.value != [] && IsDigit(r.value[0])
  {
    match LastRedirectIndex(comments)
    case None => None
    case Some(k) => RedirectTarget(comments[k].body)
  }

  /**
   * The redirect is taken from the last comment whose body matches, and no
   * later comment matches; without a matching comment there is none.
   */
  lemma LastRedirectChoice(comments: seq<Comment>)
    ensures LastRedirect(comments).None? <==> forall k :: 0 <= k < |comments| ==> RedirectTarget(comments[k].body).None?
    ensures LastRedirect(comments).Some? ==>
      exists k :: 0 <= k < |comments| && LastRedirect(comments) == RedirectTarget(comments[k].body)
                  && forall m :: k < m < |comments| ==> RedirectTarget(comments[m].body).None?
  {
    LastRedirectIndexIsLast(comments);
    forall k | 0 <= k < |comments|
      ensures IsRedirect(comments[k]) <==> RedirectTarget(comments[k].body).Some?
    {
    }
    match LastRedirectIndex(comments)
    case None =>
    case Some(k) =>
      assert LastRedirect(comments) == RedirectTarget(comments[k].body);
  }

  /** The marker matches in any letter case, not only at the start, and the whole digit run is taken. */
  lemma RedirectExample()
    ensures RedirectTarget("- DUPLICATE of #42.") == Some("42")
  {
    var s := "- DUPLICATE of #42.";
    assert !MarkerAt(s, 0) && !MarkerAt(s, 1);
    assert MarkerAt(s, 2);
    assert FirstMarker(s, 2) == Some(2);
    assert FirstMarker(s, 0) == Some(2);
    assert DigitRun(s, 18) == [];
    assert DigitRun(s, 16) == "42";
  }

  /** A space between the "#" and the number is no redirect. */
  lemma NoRedirectExample()
    ensures RedirectTarget("duplicate of # 12") == None
  {
    var t := "duplicate of # 12";
    assert !IsDigit(t[14]);
    assert LowerAscii(t[1]) != MARKER[0] && LowerAscii(t[2]) != MARKER[0];
    assert forall k :: !MarkerAt(t, k);
  }
}

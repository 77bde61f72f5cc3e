/**
 * How the booking script judges buttons: whether a court button may be
 * clicked, whether a button looks like the blue "Book" arrow, and which of
 * the candidate buttons the script clicks to book.
 */
module Buttons {
  import opened Wrappers
  import opened Seqs
  import opened Text
  import opened Elements

  /** Class words that mark a court button as grey, i.e. not bookable. */
  const GreyClassWords: seq<string> := ["disabled", "gray", "grey", "unavailable", "inactive"]
  /** Class words that mark a court button as a green hollow circle. */
  const GreenClassWords: seq<string> := ["green", "available", "circle", "hollow"]
  /** Class words that mark a court button as already selected. */
  const SelectedClassWords: seq<string> := ["selected", "active", "square"]

  /** The script's verdict on a court button, branch by branch. */
  predicate IsButtonClickable(b: Element) {
    var classes := Lower(AttrOr(b.classes));
    var style := Lower(AttrOr(b.style));
    if !b.enabled then false
    else if ContainsAny(classes, GreyClassWords) then false
    else if Contains(style, "gray") || Contains(style, "grey") then false
    else if ContainsAny(classes, GreenClassWords) then true
    else if Contains(style, "green") then true
    else if ContainsAny(classes, SelectedClassWords) && (Contains(classes, "green") || Contains(style, "green")) then false
    else true
  }

  /** Not greyed out: enabled, no grey class word, no grey in the style. */
  predicate NotGreyedOut(b: Element) {
    var classes := Lower(AttrOr(b.classes));
    var style := Lower(AttrOr(b.style));
    b.enabled && !ContainsAny(classes, GreyClassWords) && !Contains(style, "gray") && !Contains(style, "grey")
  }

  /**
   * A court button is clickable exactly when it is not greyed out: the
   * "already selected green square" branch can never reject a button,
   * because a green class or style has been accepted before it is reached.
   */
  lemma ClickableIffNotGreyedOut(b: Element)
    ensures IsButtonClickable(b) <==> NotGreyedOut(b)
  {
    var classes := Lower(AttrOr(b.classes));
    if Contains(classes, "green") {
      assert GreenClassWords[0] == "green";
      assert ContainsAny(classes, GreenClassWords);
    }
  }

  /**
   * In particular a button whose class says it is selected and green (the
   * selected square the script means to skip) is still judged clickable.
   */
  lemma SelectedGreenIsClickable(b: Element)
    requires NotGreyedOut(b)
    requires Contains(Lower(AttrOr(b.classes)), "selected")
    requires Contains(Lower(AttrOr(b.classes)), "green")
    ensures IsButtonClickable(b)
  {
    ClickableIffNotGreyedOut(b);
  }

  /** The style fragments the script reads as "blue". */
  const BlueStyleMarks: seq<string> :=
    ["blue", "rgb(0, 0, 255)", "rgb(0,123,255)", "#0066ff", "#007bff", "background-color: blue"]

  /** The "is blue" test on lower-cased class and style. */
  predicate IsBlue(classes: string, style: string) {
    Contains(classes, "blue") || ContainsAny(style, BlueStyleMarks)
  }

  /** The "has an arrow" test; `text` is the stripped text. */
  predicate HasArrow(text: string, classes: string, innerHtml: string) {
    Contains(Lower(text), "arrow") || Contains(classes, "arrow") || Contains(text, "→")
    || Contains(text, ">") || Contains(Lower(innerHtml), "arrow") || Contains(innerHtml, "→")
    || Contains(innerHtml, ">") || Contains(text, "▶") || Contains(innerHtml, "▶")
  }

  /** The "rectangle" test on the button's size. */
  predicate IsRectangle(b: Element) {
    b.width > 50.0 && b.height > 20.0
  }

  /** The script's test for the blue rectangular "Book" button with an arrow. */
  predicate IsBlueButtonWithArrow(b: Element) {
    var classes := Lower(AttrOr(b.classes));
    var style := Lower(AttrOr(b.style));
    if IsDigits(b.text) then false
    else if Contains(classes, "disabled") then false
    else IsBlue(classes, style) && (HasArrow(b.text, classes, AttrOr(b.innerHtml)) || IsRectangle(b))
  }

  /** A string containing `sub` at `i` contains every piece of `sub`. */
  lemma ContainsPiece(s: string, sub: string, i: int, from: nat, to: nat)
    requires OccursAt(s, sub, i)
    requires from <= to <= |sub|
    ensures OccursAt(s, sub[from..to], i + from)
    ensures Contains(s, sub[from..to])
  {
    forall k | 0 <= k < to - from
      ensures s[i + from..i + to][k] == sub[from..to][k]
    {
      assert s[i + from + k] == s[i..i + |sub|][from + k];
    }
    assert s[i + from..i + to] == sub[from..to];
    assert 0 <= i + from <= |s| - |sub[from..to]|;
    assert OccursAt(s, sub[from..to], i + from);
  }

  /**
   * The last blue mark is redundant: a style containing
   * "background-color: blue" already contains "blue".
   */
  lemma BlueStyleRule(classes: string, style: string)
    ensures IsBlue(classes, style) <==>
      Contains(classes, "blue") || Contains(style, "blue") || Contains(style, "rgb(0, 0, 255)")
      || Contains(style, "rgb(0,123,255)") || Contains(style, "#0066ff") || Contains(style, "#007bff")
  {
    if Contains(style, "background-color: blue") {
      var i :| 0 <= i <= |style| - |"background-color: blue"| && OccursAt(style, "background-color: blue", i);
      ContainsPiece(style, "background-color: blue", i, 18, 22);
      assert "background-color: blue"[18..22] == "blue";
    }
    if Contains(style, "blue") {
      assert Contains(style, BlueStyleMarks[0]);
    }
    if Contains(style, "rgb(0, 0, 255)") {
      assert Contains(style, BlueStyleMarks[1]);
    }
    if Contains(style, "rgb(0,123,255)") {
      assert Contains(style, BlueStyleMarks[2]);
    }
    if Contains(style, "#0066ff") {
      assert Contains(style, BlueStyleMarks[3]);
    }
    if Contains(style, "#007bff") {
      assert Contains(style, BlueStyleMarks[4]);
    }
  }

  /**
   * Any markup inside the button passes the arrow test, because every tag
   * ends in '>': a non-numeric button whose class does not say disabled and
   * which holds a child element is the blue arrow exactly when it is blue,
   * whatever its text and size.
   */
  lemma MarkupCountsAsArrow(b: Element)
    requires !IsDigits(b.text) && !Contains(Lower(AttrOr(b.classes)), "disabled")
    requires Contains(AttrOr(b.innerHtml), ">")
    ensures IsBlueButtonWithArrow(b) <==> IsBlue(Lower(AttrOr(b.classes)), Lower(AttrOr(b.style)))
  {
  }

  // ---------------------------------------------------------------------
  // Choosing the bottom-right button
  // ---------------------------------------------------------------------

  /**
   * Position (y1, x1) comes strictly after (y2, x2) going down the page and
   * then right: a larger y, or the same y and a larger x.
   */
  predicate BelowOrRight(y1: int, x1: int, y2: int, x2: int) {
    y1 > y2 || (y1 == y2 && x1 > x2)
  }

  /**
   * Index `t` holds the bottom-right candidate: no candidate lies after it,
   * and every earlier candidate lies strictly before it (ties go to the
   * first one, as the script only replaces its choice on a strict increase).
   */
  predicate IsBottomRight(cands: seq<Element>, t: nat) {
    t < |cands|
    && (forall j :: 0 <= j < |cands| ==> !BelowOrRight(cands[j].y, cands[j].x, cands[t].y, cands[t].x))
    && (forall j :: 0 <= j < t ==> BelowOrRight(cands[t].y, cands[t].x, cands[j].y, cands[j].x))
  }

  /**
   * The script's scan from index `k` on, holding the choice so far in `best`
   * and its position in (maxY, maxX).
   */
  function PickFrom(cands: seq<Element>, k: nat, best: Option<nat>, maxY: int, maxX: int): (r: Option<nat>)
    requires k <= |cands|
    requires best.Some? ==> best.value < k && cands[best.value].y == maxY && cands[best.value].x == maxX
    requires best.Some? ==> forall j :: 0 <= j < best.value ==> BelowOrRight(maxY, maxX, cands[j].y, cands[j].x)
    requires forall j :: 0 <= j < k ==> !BelowOrRight(cands[j].y, cands[j].x, maxY, maxX)
    ensures r.Some? ==> IsBottomRight(cands, r.value)
    ensures r.Some? ==> r == best || BelowOrRight(cands[r.value].y, cands[r.value].x, maxY, maxX)
    ensures r.None? ==> best.None? && forall j :: 0 <= j < |cands| ==> !BelowOrRight(cands[j].y, cands[j].x, maxY, maxX)
    decreases |cands| - k
  {
    if k == |cands| then best
    else if BelowOrRight(cands[k].y, cands[k].x, maxY, maxX) then
      assert forall j :: 0 <= j < k ==> BelowOrRight(cands[k].y, cands[k].x, cands[j].y, cands[j].x) by {
        forall j | 0 <= j < k
          ensures BelowOrRight(cands[k].y, cands[k].x, cands[j].y, cands[j].x)
        {
          assert !BelowOrRight(cands[j].y, cands[j].x, maxY, maxX);
        }
      }
      PickFrom(cands, k + 1, Some(k), cands[k].y, cands[k].x)
    else
      PickFrom(cands, k + 1, best, maxY, maxX)
  }

  /**
   * The scan as the script writes it, starting from the sentinel position
   * (-1, -1) with no choice: a candidate is chosen only if it lies after
   * the sentinel.
   */
  function PickBottomRightAsWritten(cands: seq<Element>): (r: Option<nat>)
    ensures r.Some? ==> IsBottomRight(cands, r.value) && BelowOrRight(cands[r.value].y, cands[r.value].x, -1, -1)
    ensures r.None? <==> forall j :: 0 <= j < |cands| ==> !BelowOrRight(cands[j].y, cands[j].x, -1, -1)
  {
    PickFrom(cands, 0, None, -1, -1)
  }

  /**
   * The scan as intended: seeded with the first candidate, so every
   * non-empty list has a bottom-right choice.
   */
  function PickBottomRight(cands: seq<Element>): (r: Option<nat>)
    ensures r.Some? <==> |cands| > 0
    ensures r.Some? ==> IsBottomRight(cands, r.value)
  {
    if |cands| == 0 then None else PickFrom(cands, 1, Some(0), cands[0].y, cands[0].x)
  }

  /** The bottom-right candidate is unique: no other index is bottom-right. */
  lemma BottomRightUnique(cands: seq<Element>, t: nat, u: nat)
    requires IsBottomRight(cands, t)
    requires u < |cands| && u != t
    ensures !IsBottomRight(cands, u)
  {
    if u < t {
      assert BelowOrRight(cands[t].y, cands[t].x, cands[u].y, cands[u].x);
    } else {
      assert !BelowOrRight(cands[u].y, cands[u].x, cands[t].y, cands[t].x);
    }
  }

  /**
   * The script's scan finds the intended bottom-right candidate when that
   * candidate lies after the sentinel, and nothing otherwise.
   */
  lemma AsWrittenPickAgrees(cands: seq<Element>)
    ensures PickBottomRightAsWritten(cands) ==
      match PickBottomRight(cands)
      case None => None
      case Some(t) => if BelowOrRight(cands[t].y, cands[t].x, -1, -1) then Some(t) else None
  {
    var a := PickBottomRightAsWritten(cands);
    var b := PickBottomRight(cands);
    if a.Some? && a.value != b.value {
      BottomRightUnique(cands, b.value, a.value);
    } else if a.None? && b.Some? {
      assert !BelowOrRight(cands[b.value].y, cands[b.value].x, -1, -1);
    }
  }

  /**
   * The sentinel loses buttons: a single candidate at or before (-1, -1),
   * for example one whose top edge is at y = -5, is never chosen, although
   * the intended scan chooses it.
   */
  lemma SentinelMissesButton(e: Element)
    requires !BelowOrRight(e.y, e.x, -1, -1)
    ensures PickBottomRightAsWritten([e]) == None
    ensures PickBottomRight([e]) == Some(0)
  {
  }

  // ---------------------------------------------------------------------
  // The Book button
  // ---------------------------------------------------------------------

  /** A button the script keeps from a selector's results. */
  predicate IsBookCandidate(b: Element) {
    b.displayed && b.enabled && !IsDigits(b.text)
  }

  /** "book" in the lower-cased text, class or id. */
  predicate MentionsBook(b: Element) {
    Contains(Lower(b.text), "book") || Contains(Lower(AttrOr(b.classes)), "book") || Contains(Lower(AttrOr(b.id)), "book")
  }

  /**
   * The buttons the script chooses among: the blue arrow buttons among the
   * candidates if there are any, otherwise those mentioning "book".
   * `results` holds each selector's matches in selector order; a button
   * matched by several selectors occurs several times.
   */
  function BookTargets(results: seq<seq<Element>>): seq<Element> {
    var blue := BlueCandidates(results);
    if |blue| > 0 then blue else Filter(Candidates(results), MentionsBook)
  }

  /** The shown, enabled, non-numeric buttons among all selector matches. */
  function Candidates(results: seq<seq<Element>>): seq<Element> {
    Filter(Flatten(results), IsBookCandidate)
  }

  /** The blue arrow buttons among the candidates. */
  function BlueCandidates(results: seq<seq<Element>>): seq<Element> {
    Filter(Candidates(results), IsBlueButtonWithArrow)
  }

  /** There is a blue arrow candidate exactly when the blue candidates are not empty. */
  lemma BlueCandidatesExist(results: seq<seq<Element>>)
    ensures SomeCandidate(results, IsBlueButtonWithArrow) <==> |BlueCandidates(results)| > 0
  {
    var all := Flatten(results);
    var cands := Candidates(results);
    var blue := BlueCandidates(results);
    if SomeCandidate(results, IsBlueButtonWithArrow) {
      var k :| 0 <= k < |all| && IsBookCandidate(all[k]) && IsBlueButtonWithArrow(all[k]);
      assert all[k] in cands;
      assert all[k] in blue;
    }
    if |blue| > 0 {
      assert blue[0] in cands;
      var k :| 0 <= k < |all| && all[k] == blue[0];
      assert IsBookCandidate(all[k]) && IsBlueButtonWithArrow(all[k]);
    }
  }

  /** Some candidate button satisfies `p`. */
  predicate SomeCandidate(results: seq<seq<Element>>, p: Element -> bool) {
    var all := Flatten(results);
    exists k :: 0 <= k < |all| && IsBookCandidate(all[k]) && p(all[k])
  }

  /**
   * The targets are the blue arrow candidates when there is one, and the
   * candidates mentioning "book" otherwise.
   */
  lemma BookTargetsSpec(results: seq<seq<Element>>)
    ensures var all := Flatten(results);
      forall b :: b in BookTargets(results) ==> b in all && IsBookCandidate(b)
    ensures SomeCandidate(results, IsBlueButtonWithArrow) ==>
      var all := Flatten(results);
      (forall b :: b in BookTargets(results) ==> IsBlueButtonWithArrow(b))
      && (forall k :: 0 <= k < |all| && IsBookCandidate(all[k]) && IsBlueButtonWithArrow(all[k]) ==> all[k] in BookTargets(results))
    ensures !SomeCandidate(results, IsBlueButtonWithArrow) ==>
      var all := Flatten(results);
      (forall b :: b in BookTargets(results) ==> MentionsBook(b))
      && (forall k :: 0 <= k < |all| && IsBookCandidate(all[k]) && MentionsBook(all[k]) ==> all[k] in BookTargets(results))
  {
    BlueCandidatesExist(results);
    var all := Flatten(results);
    var cands := Candidates(results);
    forall k | 0 <= k < |all| && IsBookCandidate(all[k])
      ensures all[k] in cands
    {
    }
  }

  /** The click on the chosen target, if the scan `pick` chose one. */
  function ClickTarget(targets: seq<Element>, pick: Option<nat>): Option<Element>
    requires pick.Some? ==> pick.value < |targets|
  {
    match pick
    case None => None
    case Some(t) => Some(targets[t])
  }

  /**
   * The button the Book step clicks, as the script chooses it: the target
   * its (-1, -1)-seeded scan picks. Nothing is clicked exactly when no
   * target lies after (-1, -1), in particular when no candidate is a blue
   * arrow or mentions "book"; otherwise the clicked button is a target that
   * lies after (-1, -1) and that no target lies after.
   */
  function ClickBookButton(results: seq<seq<Element>>): (r: Option<Element>)
    ensures var targets := BookTargets(results);
      r.None? <==> forall k :: 0 <= k < |targets| ==> !BelowOrRight(targets[k].y, targets[k].x, -1, -1)
    ensures !SomeCandidate(results, IsBlueButtonWithArrow) && !SomeCandidate(results, MentionsBook) ==> r.None?
    ensures r.Some? ==> r.value in BookTargets(results) && BelowOrRight(r.value.y, r.value.x, -1, -1)
    ensures r.Some? ==> forall b :: b in BookTargets(results) ==> !BelowOrRight(b.y, b.x, r.value.y, r.value.x)
  {
    TargetsExist(results);
    var targets := BookTargets(results);
    ClickTarget(targets, PickBottomRightAsWritten(targets))
  }

  /**
   * The Book step with the intended bottom-right choice: nothing is clicked
   * exactly when no candidate is a blue arrow or mentions "book".
   */
  function ClickBookButtonIntended(results: seq<seq<Element>>): (r: Option<Element>)
    ensures r.None? <==> !SomeCandidate(results, IsBlueButtonWithArrow) && !SomeCandidate(results, MentionsBook)
    ensures r.Some? ==> r.value in BookTargets(results)
    ensures r.Some? ==> forall b :: b in BookTargets(results) ==> !BelowOrRight(b.y, b.x, r.value.y, r.value.x)
  {
    TargetsExist(results);
    var targets := BookTargets(results);
    ClickTarget(targets, PickBottomRight(targets))
  }

  /** There are targets exactly when some candidate is a blue arrow or mentions "book". */
  lemma TargetsExist(results: seq<seq<Element>>)
    ensures |BookTargets(results)| > 0 <==> SomeCandidate(results, IsBlueButtonWithArrow) || SomeCandidate(results, MentionsBook)
  {
    BookTargetsSpec(results);
    var targets := BookTargets(results);
    var all := Flatten(results);
    if SomeCandidate(results, IsBlueButtonWithArrow) {
      var k :| 0 <= k < |all| && IsBookCandidate(all[k]) && IsBlueButtonWithArrow(all[k]);
      assert all[k] in targets;
    } else if SomeCandidate(results, MentionsBook) {
      var k :| 0 <= k < |all| && IsBookCandidate(all[k]) && MentionsBook(all[k]);
      assert targets == Filter(Candidates(results), MentionsBook) by {
        BlueCandidatesExist(results);
      }
      assert all[k] in Candidates(results);
    }
    if |targets| > 0 && !SomeCandidate(results, IsBlueButtonWithArrow) {
      assert targets[0] in all;
      var k :| 0 <= k < |all| && all[k] == targets[0];
      assert IsBookCandidate(all[k]) && MentionsBook(all[k]);
    }
  }

  /**
   * The sentinel loses the Book button: a single "Book" button whose top
   * edge is above the page (y = -5, say) is not clicked by the script,
   * although the intended choice clicks it.
   */
  lemma SentinelMissesBookButton(e: Element)
    requires IsBookCandidate(e) && MentionsBook(e)
    requires !BelowOrRight(e.y, e.x, -1, -1)
    ensures ClickBookButton([[e]]) == None
    ensures ClickBookButtonIntended([[e]]) == Some(e)
  {
    assert Flatten([[e]]) == [e];
    assert BookTargets([[e]]) == [e] by {
      assert Candidates([[e]]) == [e] by {
        assert [e][..0] == [];
      }
      assert Filter([e], MentionsBook) == [e] by {
        assert [e][..0] == [];
      }
      assert Filter([e], IsBlueButtonWithArrow) == (if IsBlueButtonWithArrow(e) then [e] else []) by {
        assert [e][..0] == [];
      }
    }
  }
}

/**
 * Choosing a court after a time slot has been clicked: the page then shows
 * one round button per court, and the script clicks the first one of the
 * wanted courts that is still a green hollow circle.
 */
module Courts {
  import opened Wrappers
  import opened Text
  import opened Elements
  import opened Buttons
  import opened Seqs

  /** The courts the script books, in the order it tries them. */
  const CourtNumbers: seq<nat> := [6, 7, 8, 9, 10]

  /**
   * The number of per-court selectors tried when no numbered button is
   * found: exact text, text containing the number, `data-court`, and
   * `data-court-number`.
   */
  const SelectorCount: nat := 4

  /**
   * The court buttons on the page after a time slot was clicked. `buttons`
   * holds every `button` element in page order; `find(c, k)` is what the
   * k-th per-court selector finds for court `c` (None when the lookup
   * fails).
   */
  datatype CourtPanel = CourtPanel(buttons: seq<Element>, find: (nat, nat) -> Option<Element>)

  /** A button the script considers, with the court it stands for. */
  datatype Candidate = Candidate(court: nat, button: Element)

  /**
   * The courts to look for: only the target when one is given (and is not
   * zero, which Python treats as absent), otherwise all of them.
   */
  function CourtsToCheck(target: Option<nat>): (r: seq<nat>)
    ensures target.Some? && target.value != 0 ==> r == [target.value]
    ensures target.None? ==> r == CourtNumbers
  {
    if target.Some? && target.value != 0 then [target.value] else CourtNumbers
  }

  /** A shown button whose text is a number among `courts`. */
  predicate IsNumberedButton(b: Element, courts: seq<nat>) {
    b.displayed && IsDigits(b.text) && DigitsValue(b.text) in courts
  }

  /**
   * The first strategy: every shown button whose text is the number of a
   * wanted court, in page order.
   */
  function NumberedButtons(buttons: seq<Element>, courts: seq<nat>): (r: seq<Candidate>)
    ensures forall k :: 0 <= k < |r| ==>
      r[k].button in buttons && IsNumberedButton(r[k].button, courts) && r[k].court == DigitsValue(r[k].button.text)
    ensures forall b :: b in buttons && IsNumberedButton(b, courts) ==> Candidate(DigitsValue(b.text), b) in r
    decreases |buttons|
  {
    if |buttons| == 0 then []
    else
      var init := buttons[..|buttons| - 1];
      var b := buttons[|buttons| - 1];
      assert buttons == init + [b];
      NumberedButtons(init, courts) + (if IsNumberedButton(b, courts) then [Candidate(DigitsValue(b.text), b)] else [])
  }

  /** Selector `k` finds a shown button for `court`. */
  predicate Shown(find: (nat, nat) -> Option<Element>, court: nat, k: nat) {
    find(court, k).Some? && find(court, k).value.displayed
  }

  /** The button found by the first selector, from the k-th on, that finds a shown one. */
  function FirstShown(find: (nat, nat) -> Option<Element>, court: nat, k: nat): (r: Option<Element>)
    requires k <= SelectorCount
    ensures r.Some? ==> exists j :: k <= j < SelectorCount && Shown(find, court, j) && find(court, j) == r
                                    && forall i :: k <= i < j ==> !Shown(find, court, i)
    ensures r.None? <==> forall j :: k <= j < SelectorCount ==> !Shown(find, court, j)
    decreases SelectorCount - k
  {
    if k == SelectorCount then None
    else if Shown(find, court, k) then find(court, k)
    else FirstShown(find, court, k + 1)
  }

  /**
   * The second strategy: for each wanted court in order, the button its
   * selectors find, if any is shown.
   */
  function LocatedButtons(find: (nat, nat) -> Option<Element>, courts: seq<nat>): (r: seq<Candidate>)
    ensures forall k :: 0 <= k < |r| ==>
      r[k].court in courts && FirstShown(find, r[k].court, 0) == Some(r[k].button)
    ensures forall c :: c in courts && FirstShown(find, c, 0).Some? ==> Candidate(c, FirstShown(find, c, 0).value) in r
    decreases |courts|
  {
    if |courts| == 0 then []
    else
      var init := courts[..|courts| - 1];
      var c := courts[|courts| - 1];
      assert courts == init + [c];
      LocatedButtons(find, init) + (match FirstShown(find, c, 0) case None => [] case Some(b) => [Candidate(c, b)])
  }

  function CandidateButton(c: Candidate): Element {
    c.button
  }

  function CandidateCourt(c: Candidate): nat {
    c.court
  }

  /** The first strategy keeps page order: its buttons are a subsequence of the page's buttons. */
  lemma {:induction false} NumberedButtonsOrder(buttons: seq<Element>, courts: seq<nat>)
    ensures IsSubsequence(Map(NumberedButtons(buttons, courts), CandidateButton), buttons)
    decreases |buttons|
  {
    if |buttons| > 0 {
      var init := buttons[..|buttons| - 1];
      var b := buttons[|buttons| - 1];
      NumberedButtonsOrder(init, courts);
      NumberedStep(buttons, courts);
      SubsequenceStep(Map(NumberedButtons(init, courts), CandidateButton),
                      Map(NumberedButtons(buttons, courts), CandidateButton), buttons);
    }
  }

  /** Looking at one more button adds at most that button's candidate. */
  lemma NumberedStep(buttons: seq<Element>, courts: seq<nat>)
    requires |buttons| > 0
    ensures var m0 := Map(NumberedButtons(buttons[..|buttons| - 1], courts), CandidateButton);
      var m := Map(NumberedButtons(buttons, courts), CandidateButton);
      m == m0 || m == m0 + [buttons[|buttons| - 1]]
  {
    var init := buttons[..|buttons| - 1];
    var b := buttons[|buttons| - 1];
    var r0 := NumberedButtons(init, courts);
    if IsNumberedButton(b, courts) {
      var x := Candidate(DigitsValue(b.text), b);
      assert NumberedButtons(buttons, courts) == r0 + [x];
      assert Map(r0 + [x], CandidateButton) == Map(r0, CandidateButton) + [b];
    } else {
      assert NumberedButtons(buttons, courts) == r0;
    }
  }

  /** The second strategy keeps court order: its courts are a subsequence of the wanted courts. */
  lemma {:induction false} LocatedButtonsOrder(find: (nat, nat) -> Option<Element>, courts: seq<nat>)
    ensures IsSubsequence(Map(LocatedButtons(find, courts), CandidateCourt), courts)
    decreases |courts|
  {
    if |courts| > 0 {
      var init := courts[..|courts| - 1];
      var c := courts[|courts| - 1];
      LocatedButtonsOrder(find, init);
      LocatedStep(find, courts);
      SubsequenceStep(Map(LocatedButtons(find, init), CandidateCourt),
                      Map(LocatedButtons(find, courts), CandidateCourt), courts);
    }
  }

  /** Looking for one more court adds at most that court's candidate. */
  lemma LocatedStep(find: (nat, nat) -> Option<Element>, courts: seq<nat>)
    requires |courts| > 0
    ensures var m0 := Map(LocatedButtons(find, courts[..|courts| - 1]), CandidateCourt);
      var m := Map(LocatedButtons(find, courts), CandidateCourt);
      m == m0 || m == m0 + [courts[|courts| - 1]]
  {
    var init := courts[..|courts| - 1];
    var c := courts[|courts| - 1];
    var r0 := LocatedButtons(find, init);
    match FirstShown(find, c, 0)
    case Some(b) =>
      var x := Candidate(c, b);
      assert LocatedButtons(find, courts) == r0 + [x];
      assert Map(r0 + [x], CandidateCourt) == Map(r0, CandidateCourt) + [c];
    case None =>
      assert LocatedButtons(find, courts) == r0;
  }

  /** The selectors are only used when no numbered button was found. */
  function CourtCandidates(panel: CourtPanel, courts: seq<nat>): seq<Candidate> {
    var numbered := NumberedButtons(panel.buttons, courts);
    if |numbered| > 0 then numbered else LocatedButtons(panel.find, courts)
  }

  /** The index of the first clickable candidate from the k-th on. */
  function FirstClickable(cands: seq<Candidate>, k: nat): (r: Option<nat>)
    requires k <= |cands|
    ensures r.Some? ==> k <= r.value < |cands| && IsButtonClickable(cands[r.value].button)
                        && forall j :: k <= j < r.value ==> !IsButtonClickable(cands[j].button)
    ensures r.None? <==> forall j :: k <= j < |cands| ==> !IsButtonClickable(cands[j].button)
    decreases |cands| - k
  {
    if k == |cands| then None
    else if IsButtonClickable(cands[k].button) then Some(k)
    else FirstClickable(cands, k + 1)
  }

  /**
   * The court the script clicks, or None: the court of the first candidate
   * that is clickable. A target court restricts the search to that court.
   */
  function ClickCourtNumberButton(panel: CourtPanel, target: Option<nat>): (r: Option<nat>)
    ensures r.Some? ==> r.value in CourtsToCheck(target)
    ensures var cands := CourtCandidates(panel, CourtsToCheck(target));
      r.Some? <==> exists k :: 0 <= k < |cands| && IsButtonClickable(cands[k].button)
    ensures var cands := CourtCandidates(panel, CourtsToCheck(target));
      r.Some? ==> exists k :: && 0 <= k < |cands| && cands[k].court == r.value && IsButtonClickable(cands[k].button)
                              && forall j :: 0 <= j < k ==> !IsButtonClickable(cands[j].button)
  {
    var courts := CourtsToCheck(target);
    var cands := CourtCandidates(panel, courts);
    match FirstClickable(cands, 0)
    case None => None
    case Some(i) => Some(cands[i].court)
  }

  /**
   * The clicked court is the target when one is given, and one of courts
   * 6 to 10 otherwise; either way it is never zero.
   */
  lemma CourtChoiceRule(panel: CourtPanel, target: Option<nat>)
    ensures target.Some? && target.value != 0 && ClickCourtNumberButton(panel, target).Some? ==>
      ClickCourtNumberButton(panel, target) == target
    ensures target.None? && ClickCourtNumberButton(panel, target).Some? ==>
      ClickCourtNumberButton(panel, target).value in CourtNumbers
    ensures ClickCourtNumberButton(panel, target) != Some(0)
  {
  }

  /**
   * A greyed-out court 6 is passed over for a clickable court 7 that comes
   * after it on the page.
   */
  lemma SkipsGreyCourt(b6: Element, b7: Element, find: (nat, nat) -> Option<Element>)
    requires b6.displayed && b6.text == "6" && !b6.enabled
    requires b7.displayed && b7.text == "7" && NotGreyedOut(b7)
    ensures ClickCourtNumberButton(CourtPanel([b6, b7], find), None) == Some(7)
  {
    assert IsDigits("6") && DigitsValue("6") == 6;
    assert IsDigits("7") && DigitsValue("7") == 7;
    ClickableIffNotGreyedOut(b7);
    var cands := CourtCandidates(CourtPanel([b6, b7], find), CourtNumbers);
    assert NumberedButtons([b6, b7], CourtNumbers) == [Candidate(6, b6), Candidate(7, b7)] by {
      assert IsNumberedButton(b6, CourtNumbers) && IsNumberedButton(b7, CourtNumbers);
      assert [b6][..0] == [];
      assert NumberedButtons([b6], CourtNumbers) == [Candidate(6, b6)];
      assert [b6, b7][..1] == [b6];
    }
  }
}

/**
 * Finding a button by trying a fixed list of selectors in order: the
 * booking script's confirmation dialog and the test script's Book and
 * Confirm searches all take the first selector whose element is shown and
 * enabled.
 */
module Dialogs {
  import opened Wrappers
  import opened Elements

  /** The Book selectors of the test script, in the order they are tried. */
  const BookSelectors: seq<string> := [
    "//button[contains(text(), 'Book')]",
    "//button[contains(text(), 'book')]",
    "button[class*='book']",
    "button[id*='book']",
    "button[type='submit']",
    "input[type='submit'][value*='Book']"
  ]

  /** The Confirm selectors, shared by the booking and the test script. */
  const ConfirmSelectors: seq<string> := [
    "//button[contains(text(), 'Confirm')]",
    "//button[contains(text(), 'confirm')]",
    "//button[contains(text(), '确认')]",
    "//button[contains(text(), 'OK')]",
    "//button[contains(text(), 'Yes')]",
    "button[class*='confirm']",
    "button[id*='confirm']",
    ".confirm-button",
    "#confirm"
  ]

  /** The Cancel selectors of the booking script's dialog handling. */
  const CancelSelectors: seq<string> := [
    "//button[contains(text(), 'Cancel')]",
    "//button[contains(text(), 'cancel')]",
    "//button[contains(text(), '取消')]",
    "//button[contains(text(), 'No')]",
    "button[class*='cancel']",
    "button[id*='cancel']",
    ".cancel-button",
    "#cancel"
  ]

  /**
   * A selector lookup found an element that is shown and enabled. `lookup`
   * stands for `find_element`: None when the selector matches nothing.
   */
  predicate Usable(lookup: string -> Option<Element>, selector: string) {
    lookup(selector).Some? && lookup(selector).value.displayed && lookup(selector).value.enabled
  }

  /** The index of the first usable selector from the k-th on. */
  function FirstUsable(selectors: seq<string>, lookup: string -> Option<Element>, k: nat): (r: Option<nat>)
    requires k <= |selectors|
    decreases |selectors| - k
  {
    if k == |selectors| then None
    else if Usable(lookup, selectors[k]) then Some(k)
    else FirstUsable(selectors, lookup, k + 1)
  }

  /**
   * The first usable selector is found: it is usable, every earlier one is
   * not, and None means no selector is usable.
   */
  lemma {:induction false} FirstUsableSpec(selectors: seq<string>, lookup: string -> Option<Element>, k: nat)
    requires k <= |selectors|
    ensures var r := FirstUsable(selectors, lookup, k);
      && (r.Some? ==> k <= r.value < |selectors| && Usable(lookup, selectors[r.value])
                      && forall j :: k <= j < r.value ==> !Usable(lookup, selectors[j]))
      && (r.None? <==> forall j :: k <= j < |selectors| ==> !Usable(lookup, selectors[j]))
    decreases |selectors| - k
  {
    if k < |selectors| && !Usable(lookup, selectors[k]) {
      FirstUsableSpec(selectors, lookup, k + 1);
    }
  }

  /** What a selector search reports: whether it clicked, and with which selector. */
  datatype Found = Found(clicked: bool, selector: Option<string>)

  /** Try the selectors in order and click the first usable element. */
  function FindAndClick(selectors: seq<string>, lookup: string -> Option<Element>): (r: Found)
    ensures r.clicked <==> r.selector.Some?
    ensures r.clicked ==> r.selector.value in selectors && Usable(lookup, r.selector.value)
    ensures !r.clicked <==> forall j :: 0 <= j < |selectors| ==> !Usable(lookup, selectors[j])
    ensures r.clicked ==> exists k :: 0 <= k < |selectors| && selectors[k] == r.selector.value
                                      && forall j :: 0 <= j < k ==> !Usable(lookup, selectors[j])
  {
    FirstUsableSpec(selectors, lookup, 0);
    match FirstUsable(selectors, lookup, 0)
    case None => Found(false, None)
    case Some(k) => Found(true, Some(selectors[k]))
  }

  /**
   * The booking script's dialog step: click Confirm (or Cancel) with the
   * first usable selector; false when none is usable.
   */
  function HandleConfirmationDialog(lookup: string -> Option<Element>, clickConfirm: bool): (r: bool)
    ensures var selectors := DialogSelectors(clickConfirm);
      r <==> exists k :: 0 <= k < |selectors| && Usable(lookup, selectors[k])
  {
    FindAndClick(DialogSelectors(clickConfirm), lookup).clicked
  }

  /** The selectors the dialog step tries. */
  function DialogSelectors(clickConfirm: bool): seq<string> {
    if clickConfirm then ConfirmSelectors else CancelSelectors
  }

  /**
   * An earlier usable selector wins: with the text selector for "Book"
   * usable, the search reports it even when later selectors are usable too.
   */
  lemma FirstSelectorWins(lookup: string -> Option<Element>)
    requires Usable(lookup, BookSelectors[0])
    ensures FindAndClick(BookSelectors, lookup) == Found(true, Some(BookSelectors[0]))
  {
    FirstUsableSpec(BookSelectors, lookup, 0);
  }
}

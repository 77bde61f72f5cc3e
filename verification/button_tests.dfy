/**
 * The button test script: each test clicks Book and then Confirm through
 * their selector lists and records what happened; the statistics count the
 * successes, tally which selectors worked, and mark each test.
 */
module ButtonTests {
  import opened Wrappers
  import opened Elements
  import opened Dialogs

  /** One test's record; the timestamp is not modelled. */
  datatype TestRecord = TestRecord(
    testNumber: nat,
    bookSuccess: bool,
    bookSelector: Option<string>,
    confirmSuccess: bool,
    confirmSelector: Option<string>)

  /**
   * One test: search for Book on `bookPage`; only when it was clicked,
   * search for Confirm on `confirmPage`, the page shown afterwards.
   */
  function RunSingleTest(n: nat, bookPage: string -> Option<Element>, confirmPage: string -> Option<Element>): (r: TestRecord)
    ensures r.testNumber == n
    ensures r.bookSuccess <==> exists k :: 0 <= k < |BookSelectors| && Usable(bookPage, BookSelectors[k])
    ensures !r.bookSuccess ==> r == TestRecord(n, false, None, false, None)
    ensures r.bookSuccess ==> r.bookSelector.Some? && r.bookSelector.value in BookSelectors
    ensures r.bookSuccess ==>
      (r.confirmSuccess <==> exists k :: 0 <= k < |ConfirmSelectors| && Usable(confirmPage, ConfirmSelectors[k]))
    ensures r.confirmSuccess ==> r.confirmSelector.Some? && r.confirmSelector.value in ConfirmSelectors
    ensures !r.confirmSuccess ==> r.confirmSelector.None?
  {
    var book := FindAndClick(BookSelectors, bookPage);
    if !book.clicked then TestRecord(n, false, None, false, None)
    else
      var confirm := FindAndClick(ConfirmSelectors, confirmPage);
      TestRecord(n, book.clicked, book.selector, confirm.clicked, confirm.selector)
  }

  /** A failed Book search means the Confirm page is never looked at. */
  lemma BookFailureSkipsConfirm(n: nat, bookPage: string -> Option<Element>,
                                page1: string -> Option<Element>, page2: string -> Option<Element>)
    requires !FindAndClick(BookSelectors, bookPage).clicked
    ensures RunSingleTest(n, bookPage, page1) == RunSingleTest(n, bookPage, page2)
  {
  }

  /** A record a test can produce: Confirm only after Book, a selector exactly on success. */
  predicate WellFormed(r: TestRecord) {
    && (r.confirmSuccess ==> r.bookSuccess)
    && (r.bookSuccess <==> r.bookSelector.Some?)
    && (r.confirmSuccess <==> r.confirmSelector.Some?)
  }

  /** Every test record is well formed. */
  lemma RunSingleTestWellFormed(n: nat, bookPage: string -> Option<Element>, confirmPage: string -> Option<Element>)
    ensures WellFormed(RunSingleTest(n, bookPage, confirmPage))
  {
  }

  // ---------------------------------------------------------------------
  // Counts
  // ---------------------------------------------------------------------

  /** The number of records whose Book click succeeded. */
  function BookSuccesses(rs: seq<TestRecord>): nat
    decreases |rs|
  {
    if |rs| == 0 then 0
    else BookSuccesses(rs[..|rs| - 1]) + (if rs[|rs| - 1].bookSuccess then 1 else 0)
  }

  /** The number of records where both Book and Confirm succeeded. */
  function ConfirmSuccesses(rs: seq<TestRecord>): nat
    decreases |rs|
  {
    if |rs| == 0 then 0
    else ConfirmSuccesses(rs[..|rs| - 1]) + (if rs[|rs| - 1].bookSuccess && rs[|rs| - 1].confirmSuccess then 1 else 0)
  }

  /** Full successes are Book successes, which are tests. */
  lemma {:induction false} CountsOrdered(rs: seq<TestRecord>)
    ensures ConfirmSuccesses(rs) <= BookSuccesses(rs) <= |rs|
    decreases |rs|
  {
    if |rs| > 0 {
      CountsOrdered(rs[..|rs| - 1]);
    }
  }

  /** Counting over two batches of tests adds up. */
  lemma {:induction false} CountsAppend(a: seq<TestRecord>, b: seq<TestRecord>)
    ensures BookSuccesses(a + b) == BookSuccesses(a) + BookSuccesses(b)
    ensures ConfirmSuccesses(a + b) == ConfirmSuccesses(a) + ConfirmSuccesses(b)
    decreases |b|
  {
    if |b| > 0 {
      var b' := b[..|b| - 1];
      assert (a + b)[..|a + b| - 1] == a + b';
      CountsAppend(a, b');
    } else {
      assert a + b == a;
    }
  }

  // ---------------------------------------------------------------------
  // Status marks
  // ---------------------------------------------------------------------

  /** The per-test mark: full success, Book only, or failure. */
  datatype Mark = Done | BookOnly | Failed

  /** The symbol printed for a mark. */
  function MarkSymbol(m: Mark): string {
    match m
    case Done => "✅"
    case BookOnly => "⚠️"
    case Failed => "❌"
  }

  /** The mark of one record. */
  function StatusMark(r: TestRecord): (m: Mark)
    ensures m == Done <==> r.bookSuccess && r.confirmSuccess
    ensures m == BookOnly <==> r.bookSuccess && !r.confirmSuccess
    ensures m == Failed <==> !r.bookSuccess
  {
    if r.bookSuccess && r.confirmSuccess then Done else if r.bookSuccess then BookOnly else Failed
  }

  /** The number of records with mark `m`. */
  function CountMarks(rs: seq<TestRecord>, m: Mark): nat
    decreases |rs|
  {
    if |rs| == 0 then 0
    else CountMarks(rs[..|rs| - 1], m) + (if StatusMark(rs[|rs| - 1]) == m then 1 else 0)
  }

  /**
   * The marks agree with the counts: Done marks count full successes, Done
   * and BookOnly marks together count Book successes, and the rest fail.
   */
  lemma {:induction false} MarksMatchCounts(rs: seq<TestRecord>)
    ensures CountMarks(rs, Done) == ConfirmSuccesses(rs)
    ensures CountMarks(rs, Done) + CountMarks(rs, BookOnly) == BookSuccesses(rs)
    ensures CountMarks(rs, Failed) == |rs| - BookSuccesses(rs)
    decreases |rs|
  {
    if |rs| > 0 {
      MarksMatchCounts(rs[..|rs| - 1]);
      CountsOrdered(rs[..|rs| - 1]);
    }
  }

  // ---------------------------------------------------------------------
  // Selector tally
  // ---------------------------------------------------------------------

  /** A tally entry: a selector and how many tests it succeeded in. */
  datatype Entry = Entry(selector: string, count: nat)

  /** The tally's keys in insertion order. */
  function Keys(t: seq<Entry>): (r: seq<string>)
    ensures |r| == |t| && forall i :: 0 <= i < |t| ==> r[i] == t[i].selector
  {
    seq(|t|, i requires 0 <= i < |t| => t[i].selector)
  }

  /** `tally.get(key, 0)`. */
  function Lookup(t: seq<Entry>, key: string): nat
    decreases |t|
  {
    if |t| == 0 then 0 else if t[0].selector == key then t[0].count else Lookup(t[1..], key)
  }

  /** No key occurs twice. */
  ghost predicate DistinctKeys(t: seq<Entry>) {
    forall i, j :: 0 <= i < j < |t| ==> t[i].selector != t[j].selector
  }

  /**
   * `tally[key] = tally.get(key, 0) + 1`: an existing key keeps its place,
   * a new one goes at the end.
   */
  function TallyAdd(t: seq<Entry>, key: string): (r: seq<Entry>)
    ensures forall k :: Lookup(r, k) == Lookup(t, k) + (if k == key then 1 else 0)
    ensures Keys(r) == if key in Keys(t) then Keys(t) else Keys(t) + [key]
    ensures forall i :: 0 <= i < |r| ==> r[i].count >= 1 || (i < |t| && r[i] == t[i])
    decreases |t|
  {
    if |t| == 0 then [Entry(key, 1)]
    else if t[0].selector == key then [Entry(key, t[0].count + 1)] + t[1..]
    else
      var rest := TallyAdd(t[1..], key);
      assert Keys(t) == [t[0].selector] + Keys(t[1..]);
      assert Keys([t[0]] + rest) == [t[0].selector] + Keys(rest);
      [t[0]] + rest
  }

  /** Which step's selectors a tally is about. */
  datatype StepKind = BookStep | ConfirmStep

  /** The record enters the tally: the step succeeded with a non-empty selector. */
  predicate Counted(r: TestRecord, w: StepKind) {
    match w
    case BookStep => r.bookSuccess && Truthy(r.bookSelector)
    case ConfirmStep => r.confirmSuccess && Truthy(r.confirmSelector)
  }

  /** The selector a counted record is tallied under. */
  function SelectorOf(r: TestRecord, w: StepKind): string
    requires Counted(r, w)
  {
    match w
    case BookStep => r.bookSelector.value
    case ConfirmStep => r.confirmSelector.value
  }

  /** The tally over the records, in order. */
  function Tally(rs: seq<TestRecord>, w: StepKind): seq<Entry>
    decreases |rs|
  {
    if |rs| == 0 then []
    else
      var t := Tally(rs[..|rs| - 1], w);
      var r := rs[|rs| - 1];
      if Counted(r, w) then TallyAdd(t, SelectorOf(r, w)) else t
  }

  /** The number of counted records tallied under `key`. */
  function Occurrences(rs: seq<TestRecord>, w: StepKind, key: string): nat
    decreases |rs|
  {
    if |rs| == 0 then 0
    else
      var r := rs[|rs| - 1];
      Occurrences(rs[..|rs| - 1], w, key) + (if Counted(r, w) && SelectorOf(r, w) == key then 1 else 0)
  }

  /** Adding a key that is new keeps the keys distinct. */
  lemma AddKeepsDistinct(t: seq<Entry>, key: string)
    requires DistinctKeys(t)
    ensures DistinctKeys(TallyAdd(t, key))
  {
    var r := TallyAdd(t, key);
    forall i, j | 0 <= i < j < |r|
      ensures r[i].selector != r[j].selector
    {
      assert Keys(r)[i] == r[i].selector && Keys(r)[j] == r[j].selector;
      if key in Keys(t) {
        assert Keys(t)[i] == t[i].selector && Keys(t)[j] == t[j].selector;
      } else if j == |t| {
        assert Keys(t)[i] == t[i].selector;
      } else {
        assert Keys(t)[i] == t[i].selector && Keys(t)[j] == t[j].selector;
      }
    }
  }

  /**
   * The tally holds each selector once, with the number of counted records
   * that used it, and holds only selectors that were used.
   */
  lemma {:induction false} TallySpec(rs: seq<TestRecord>, w: StepKind)
    ensures DistinctKeys(Tally(rs, w))
    ensures forall key :: Lookup(Tally(rs, w), key) == Occurrences(rs, w, key)
    ensures forall i :: 0 <= i < |Tally(rs, w)| ==> Tally(rs, w)[i].count >= 1
    decreases |rs|
  {
    if |rs| > 0 {
      TallySpec(rs[..|rs| - 1], w);
      var r := rs[|rs| - 1];
      if Counted(r, w) {
        AddKeepsDistinct(Tally(rs[..|rs| - 1], w), SelectorOf(r, w));
      }
    }
  }

  /** In a distinct tally, an entry's count is what looking up its key gives. */
  lemma {:induction false} LookupEntry(t: seq<Entry>, i: nat)
    requires DistinctKeys(t) && i < |t|
    ensures Lookup(t, t[i].selector) == t[i].count
    decreases |t|
  {
    if i > 0 {
      assert t[0].selector != t[i].selector;
      LookupEntry(t[1..], i - 1);
    }
  }

  /** A key not in the tally looks up as zero. */
  lemma {:induction false} LookupMissing(t: seq<Entry>, key: string)
    requires key !in Keys(t)
    ensures Lookup(t, key) == 0
    decreases |t|
  {
    if |t| > 0 {
      assert Keys(t)[0] == t[0].selector;
      assert Keys(t[1..]) == Keys(t)[1..];
      LookupMissing(t[1..], key);
    }
  }

  /**
   * `max(tally.items(), key=count)`: the index of the first entry with the
   * largest count.
   */
  function BestIndex(t: seq<Entry>): (i: nat)
    requires |t| > 0
    ensures i < |t|
    ensures forall j :: 0 <= j < |t| ==> t[j].count <= t[i].count
    ensures forall j :: 0 <= j < i ==> t[j].count < t[i].count
    decreases |t|
  {
    if |t| == 1 then 0
    else
      var b := BestIndex(t[..|t| - 1]);
      assert forall j :: 0 <= j < |t| - 1 ==> t[..|t| - 1][j] == t[j];
      if t[|t| - 1].count > t[b].count then |t| - 1 else b
  }

  /**
   * The best selector the statistics report for a step: none unless the
   * step succeeded somewhere and the tally is non-empty.
   */
  function BestSelector(rs: seq<TestRecord>, w: StepKind): Option<Entry> {
    var successes := if w == BookStep then BookSuccesses(rs) else ConfirmSuccesses(rs);
    var t := Tally(rs, w);
    if successes > 0 && |t| > 0 then Some(t[BestIndex(t)]) else None
  }

  /** Some record is counted for the step. */
  predicate AnyCounted(rs: seq<TestRecord>, w: StepKind) {
    exists i :: 0 <= i < |rs| && Counted(rs[i], w)
  }

  /** The tally is empty exactly when no record is counted. */
  lemma {:induction false} TallyEmpty(rs: seq<TestRecord>, w: StepKind)
    ensures |Tally(rs, w)| == 0 <==> !AnyCounted(rs, w)
    decreases |rs|
  {
    if |rs| > 0 {
      var init := rs[..|rs| - 1];
      TallyEmpty(init, w);
      assert forall i :: 0 <= i < |init| ==> init[i] == rs[i];
      if AnyCounted(init, w) {
        var i :| 0 <= i < |init| && Counted(init[i], w);
        assert Counted(rs[i], w);
      }
      if Counted(rs[|rs| - 1], w) {
        assert |TallyAdd(Tally(init, w), SelectorOf(rs[|rs| - 1], w))| > 0 by {
          var t := Tally(init, w);
          var key := SelectorOf(rs[|rs| - 1], w);
          assert Keys(TallyAdd(t, key)) == if key in Keys(t) then Keys(t) else Keys(t) + [key];
        }
      }
    }
  }

  /** A counted Book record is a Book success, and so is a counted Confirm record of a well-formed run. */
  lemma {:induction false} CountedIsSuccess(rs: seq<TestRecord>, w: StepKind)
    requires forall i :: 0 <= i < |rs| ==> WellFormed(rs[i])
    ensures AnyCounted(rs, w) ==> (if w == BookStep then BookSuccesses(rs) else ConfirmSuccesses(rs)) > 0
    decreases |rs|
  {
    if |rs| > 0 {
      var init := rs[..|rs| - 1];
      assert forall i :: 0 <= i < |init| ==> init[i] == rs[i];
      CountedIsSuccess(init, w);
      if AnyCounted(rs, w) && !Counted(rs[|rs| - 1], w) {
        var i :| 0 <= i < |rs| && Counted(rs[i], w);
        assert i < |init| && Counted(init[i], w);
      }
    }
  }

  /**
   * The reported best selector was used in exactly as many counted records
   * as its tally says, no selector was used more often, ties go to the
   * selector tallied first, and for records the tests produce a best
   * selector is reported exactly when some record is counted (the success
   * guard adds nothing).
   */
  lemma BestSelectorSpec(rs: seq<TestRecord>, w: StepKind)
    ensures BestSelector(rs, w).Some? ==>
      var e := BestSelector(rs, w).value;
      var t := Tally(rs, w);
      && Occurrences(rs, w, e.selector) == e.count
      && e.count >= 1
      && (forall key :: Occurrences(rs, w, key) <= e.count)
      && (exists b :: 0 <= b < |t| && t[b] == e && forall i :: 0 <= i < b ==> t[i].count < e.count)
    ensures BestSelector(rs, w).Some? ==> AnyCounted(rs, w)
    ensures (forall i :: 0 <= i < |rs| ==> WellFormed(rs[i])) ==> (BestSelector(rs, w).Some? <==> AnyCounted(rs, w))
  {
    TallySpec(rs, w);
    TallyEmpty(rs, w);
    var t := Tally(rs, w);
    if (forall i :: 0 <= i < |rs| ==> WellFormed(rs[i])) {
      CountedIsSuccess(rs, w);
    }
    if BestSelector(rs, w).Some? {
      var b := BestIndex(t);
      var e := t[b];
      LookupEntry(t, b);
      forall key
        ensures Occurrences(rs, w, key) <= e.count
      {
        if key in Keys(t) {
          var i :| 0 <= i < |Keys(t)| && Keys(t)[i] == key;
          LookupEntry(t, i);
        } else {
          LookupMissing(t, key);
        }
      }
    }
  }
}

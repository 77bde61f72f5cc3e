/**
 * Discovery of bookable time slots (tennis_booking.py `find_available_slots`).
 *
 * Strategy 1 inspects every table cell and button-like element; when it finds
 * nothing, strategy 2 inspects the elements returned by four narrower
 * selectors. The slots found are then de-duplicated on wrapper identity
 * (`id(elem)`), keeping the first occurrence of each wrapper.
 */
module SlotFilter {
  import opened Wrappers
  import opened Text
  import opened TimeTokens
  import opened Elements
  import opened Seqs

  /** A candidate slot: the element to click and the label its time was read from. */
  datatype Slot = Slot(handle: Handle, time: string)

  /** Class keywords that mark a cell as not bookable. */
  const UnavailableKeywords: seq<string> := ["unavailable", "booked", "reserved", "disabled"]

  /** The label strategy 1 reads: `data_time or title or text or ""`. */
  function CellTimeString(e: Element): string {
    if Truthy(e.dataTime) then e.dataTime.value
    else if Truthy(e.title) then e.title.value
    else e.text
  }

  /** The quick test for a time marker: a colon, "am" or "pm". */
  predicate HasTimeMarker(slot: string) {
    slot != "" && (Contains(slot, ":") || Contains(Lower(slot), "am") || Contains(Lower(slot), "pm"))
  }

  /** Cells strategy 1 drops before looking for a time: unavailable classes, court numbers, "reserved" text. */
  predicate IsExcludedCell(e: Element) {
    || ContainsAny(Lower(AttrOr(e.classes)), UnavailableKeywords)
    || IsDigits(e.text)
    || (e.text != "" && Contains(Lower(e.text), "reserved"))
  }

  predicate IsClickableCell(e: Element) {
    e.enabled && (Truthy(e.onclick) || e.tag == "button" || e.tag == "a")
  }

  /** The per-element rule of strategy 1. */
  predicate KeepCell(e: Element, start: int, end: int) {
    && e.displayed
    && !IsExcludedCell(e)
    && HasTimeMarker(CellTimeString(e))
    && IsTimeInRange(CellTimeString(e), start, end)
    && (IsClickableCell(e) || e.tag == "td")
  }

  /** The label strategy 2 reads: `data-time or text`. */
  function FallbackTimeString(e: Element): string {
    if Truthy(e.dataTime) then e.dataTime.value else e.text
  }

  /** The per-element rule of strategy 2; its exclusions look at the label itself. */
  predicate KeepFallback(e: Element, start: int, end: int) {
    var t := FallbackTimeString(e);
    && e.displayed
    && t != ""
    && !IsDigits(t)
    && !Contains(Lower(t), "reserved")
    && HasTimeMarker(t)
    && IsTimeInRange(t, start, end)
  }

  // ---------------------------------------------------------------------------
  // Collecting slots
  // ---------------------------------------------------------------------------

  /** The slot every element would contribute, with the given time reader. */
  function SlotsOf(cells: seq<Element>, timeOf: Element -> string): (r: seq<Slot>)
    ensures |r| == |cells|
    ensures forall i :: 0 <= i < |cells| ==> r[i] == Slot(cells[i].handle, timeOf(cells[i]))
  {
    seq(|cells|, i requires 0 <= i < |cells| => Slot(cells[i].handle, timeOf(cells[i])))
  }

  /**
   * The loop that appends `(cell, time)` for every cell the rule keeps, in
   * page order.
   */
  function Collect(cells: seq<Element>, keep: Element -> bool, timeOf: Element -> string): seq<Slot>
    decreases |cells|
  {
    if |cells| == 0 then []
    else
      var last := cells[|cells| - 1];
      Collect(cells[..|cells| - 1], keep, timeOf) + (if keep(last) then [Slot(last.handle, timeOf(last))] else [])
  }

  lemma CollectStep(cells: seq<Element>, keep: Element -> bool, timeOf: Element -> string)
    requires |cells| > 0
    ensures var last := cells[|cells| - 1];
      Collect(cells, keep, timeOf) ==
        Collect(cells[..|cells| - 1], keep, timeOf) + (if keep(last) then [Slot(last.handle, timeOf(last))] else [])
  {
  }

  /** The collected slots keep page order. */
  lemma {:induction false} CollectOrder(cells: seq<Element>, keep: Element -> bool, timeOf: Element -> string)
    ensures IsSubsequence(Collect(cells, keep, timeOf), SlotsOf(cells, timeOf))
    decreases |cells|
  {
    if |cells| > 0 {
      var init := cells[..|cells| - 1];
      var last := cells[|cells| - 1];
      var s := Slot(last.handle, timeOf(last));
      CollectOrder(init, keep, timeOf);
      CollectStep(cells, keep, timeOf);
      assert SlotsOf(cells, timeOf) == SlotsOf(init, timeOf) + [s];
      var r0 := Collect(init, keep, timeOf);
      SubsequenceExtend(r0, SlotsOf(init, timeOf), s);
      if keep(last) {
        assert Collect(cells, keep, timeOf) == r0 + [s];
      } else {
        assert Collect(cells, keep, timeOf) == r0;
      }
    }
  }

  /** `s` is the slot of some cell the rule keeps. */
  ghost predicate FromKeptCell(cells: seq<Element>, keep: Element -> bool, timeOf: Element -> string, s: Slot) {
    exists i :: 0 <= i < |cells| && keep(cells[i]) && s == Slot(cells[i].handle, timeOf(cells[i]))
  }

  /** Every collected slot is the slot of a cell the rule keeps. */
  lemma {:induction false} CollectSound(cells: seq<Element>, keep: Element -> bool, timeOf: Element -> string)
    ensures forall s :: s in Collect(cells, keep, timeOf) ==> FromKeptCell(cells, keep, timeOf, s)
    decreases |cells|
  {
    if |cells| > 0 {
      var init := cells[..|cells| - 1];
      var last := |cells| - 1;
      var r0 := Collect(init, keep, timeOf);
      var r := Collect(cells, keep, timeOf);
      CollectSound(init, keep, timeOf);
      CollectStep(cells, keep, timeOf);
      forall s | s in r
        ensures FromKeptCell(cells, keep, timeOf, s)
      {
        var k :| 0 <= k < |r| && r[k] == s;
        if k < |r0| {
          assert r[k] == r0[k];
          assert FromKeptCell(init, keep, timeOf, r0[k]);
          var i :| 0 <= i < |init| && keep(init[i]) && r0[k] == Slot(init[i].handle, timeOf(init[i]));
          assert cells[i] == init[i];
        } else {
          assert keep(cells[last]) && r[k] == Slot(cells[last].handle, timeOf(cells[last]));
        }
      }
    }
  }

  /** Every cell the rule keeps contributes its slot. */
  lemma {:induction false} CollectComplete(cells: seq<Element>, keep: Element -> bool, timeOf: Element -> string)
    ensures forall i :: 0 <= i < |cells| && keep(cells[i]) ==> Slot(cells[i].handle, timeOf(cells[i])) in Collect(cells, keep, timeOf)
    decreases |cells|
  {
    if |cells| > 0 {
      var init := cells[..|cells| - 1];
      CollectComplete(init, keep, timeOf);
      CollectStep(cells, keep, timeOf);
      forall i | 0 <= i < |cells| && keep(cells[i])
        ensures Slot(cells[i].handle, timeOf(cells[i])) in Collect(cells, keep, timeOf)
      {
        if i < |init| {
          assert cells[i] == init[i];
        }
      }
    }
  }

  /** Strategy 1 over the cells, buttons and button-like elements of the page. */
  function ScanCells(cells: seq<Element>, start: int, end: int): seq<Slot> {
    Collect(cells, e => KeepCell(e, start, end), CellTimeString)
  }

  /** Strategy 2 over the results of its selectors, one list per selector, in selector order. */
  function ScanFallback(lists: seq<seq<Element>>, start: int, end: int): seq<Slot> {
    Collect(Flatten(lists), e => KeepFallback(e, start, end), FallbackTimeString)
  }

  // ---------------------------------------------------------------------------
  // De-duplication on element identity
  // ---------------------------------------------------------------------------

  function Handles(xs: seq<Slot>): set<Handle> {
    set k | 0 <= k < |xs| :: xs[k].handle
  }

  /** Index `i` holds the first occurrence of its element in `xs`. */
  ghost predicate FirstOccurrence(xs: seq<Slot>, i: int) {
    0 <= i < |xs| && forall j :: 0 <= j < i ==> xs[j].handle != xs[i].handle
  }

  /**
   * The loop over `available_slots` with a `seen` set: a slot is kept when
   * its element has not been seen before.
   */
  function Dedup(xs: seq<Slot>): seq<Slot>
    decreases |xs|
  {
    if |xs| == 0 then []
    else
      var d := Dedup(xs[..|xs| - 1]);
      if xs[|xs| - 1].handle in Handles(d) then d else d + [xs[|xs| - 1]]
  }

  lemma HandlesAppend(xs: seq<Slot>, x: Slot)
    ensures Handles(xs + [x]) == Handles(xs) + {x.handle}
  {
    var ys := xs + [x];
    forall h | h in Handles(ys) ensures h in Handles(xs) + {x.handle} {
      var k :| 0 <= k < |ys| && ys[k].handle == h;
      if k < |xs| {
        assert ys[k] == xs[k];
      }
    }
    forall h | h in Handles(xs) + {x.handle} ensures h in Handles(ys) {
      if h in Handles(xs) {
        var k :| 0 <= k < |xs| && xs[k].handle == h;
        assert ys[k] == xs[k];
      } else {
        assert ys[|xs|] == x;
      }
    }
  }

  /** De-duplication loses no element and keeps each element once. */
  lemma {:induction false} DedupHandles(xs: seq<Slot>)
    ensures Handles(Dedup(xs)) == Handles(xs)
    ensures forall a, b :: 0 <= a < b < |Dedup(xs)| ==> Dedup(xs)[a].handle != Dedup(xs)[b].handle
    decreases |xs|
  {
    if |xs| > 0 {
      var init := xs[..|xs| - 1];
      var x := xs[|xs| - 1];
      DedupHandles(init);
      assert xs == init + [x];
      HandlesAppend(init, x);
      var d := Dedup(init);
      if x.handle !in Handles(d) {
        HandlesAppend(d, x);
        forall a | 0 <= a < |d| ensures d[a].handle != x.handle {
          assert d[a].handle in Handles(d);
        }
      }
    }
  }

  /** De-duplication keeps input order. */
  lemma {:induction false} DedupOrder(xs: seq<Slot>)
    ensures IsSubsequence(Dedup(xs), xs)
    decreases |xs|
  {
    if |xs| > 0 {
      var init := xs[..|xs| - 1];
      var x := xs[|xs| - 1];
      DedupOrder(init);
      assert xs == init + [x];
      SubsequenceExtend(Dedup(init), init, x);
    }
  }

  /** `s` is the first slot of `xs` for its element. */
  ghost predicate IsFirstOf(xs: seq<Slot>, s: Slot) {
    exists i :: FirstOccurrence(xs, i) && xs[i] == s
  }

  /** De-duplication keeps input order and keeps only the first occurrence of every element. */
  lemma DedupFirstOccurrences(xs: seq<Slot>)
    ensures IsSubsequence(Dedup(xs), xs)
    ensures forall s :: s in Dedup(xs) ==> IsFirstOf(xs, s)
  {
    DedupOrder(xs);
    DedupFirst(xs);
  }

  /** Every slot de-duplication keeps is the first one of its element. */
  lemma {:induction false} DedupFirst(xs: seq<Slot>)
    ensures forall s :: s in Dedup(xs) ==> IsFirstOf(xs, s)
    decreases |xs|
  {
    if |xs| > 0 {
      var init := xs[..|xs| - 1];
      var x := xs[|xs| - 1];
      var d := Dedup(init);
      assert xs == init + [x];
      DedupFirst(init);
      DedupStep(xs);
      forall s | s in Dedup(xs)
        ensures IsFirstOf(xs, s)
      {
        if s in d {
          FirstOfPrefix(init, x, s);
        } else {
          DedupHandles(init);
          LastIsFirst(init, x);
        }
      }
    }
  }

  /** One step of de-duplication: the last slot is kept when its element is new. */
  lemma DedupStep(xs: seq<Slot>)
    requires |xs| > 0
    ensures var d := Dedup(xs[..|xs| - 1]);
      && (xs[|xs| - 1].handle in Handles(d) ==> Dedup(xs) == d)
      && (xs[|xs| - 1].handle !in Handles(d) ==> Dedup(xs) == d + [xs[|xs| - 1]])
  {
  }

  /** A first occurrence stays first when a slot is appended. */
  lemma FirstOfPrefix(init: seq<Slot>, x: Slot, s: Slot)
    requires IsFirstOf(init, s)
    ensures IsFirstOf(init + [x], s)
  {
    var i :| FirstOccurrence(init, i) && init[i] == s;
    assert (init + [x])[i] == init[i];
    assert FirstOccurrence(init + [x], i);
  }

  /** An appended slot whose element is new is its first occurrence. */
  lemma LastIsFirst(init: seq<Slot>, x: Slot)
    requires x.handle !in Handles(init)
    ensures IsFirstOf(init + [x], x)
  {
    var xs := init + [x];
    forall j | 0 <= j < |init| ensures xs[j].handle != x.handle {
      assert xs[j] == init[j];
      assert init[j].handle in Handles(init);
    }
    assert FirstOccurrence(xs, |init|);
  }

  /** No two slots of `xs` share a wrapper. */
  ghost predicate DistinctHandles(xs: seq<Slot>) {
    forall a, b :: 0 <= a < b < |xs| ==> xs[a].handle != xs[b].handle
  }

  /**
   * De-duplication removes nothing from a list of distinct wrappers, which is
   * what the lookups return: each `find_elements` call yields fresh wrappers.
   */
  lemma {:induction false} DedupKeepsDistinct(xs: seq<Slot>)
    requires DistinctHandles(xs)
    ensures Dedup(xs) == xs
    decreases |xs|
  {
    if |xs| > 0 {
      var init := xs[..|xs| - 1];
      var x := xs[|xs| - 1];
      DistinctSplit(xs);
      DedupKeepsDistinct(init);
      DedupStep(xs);
      SplitLast(xs);
    }
  }

  /** A list of distinct wrappers is its distinct prefix and a last wrapper new to it. */
  lemma DistinctSplit(xs: seq<Slot>)
    requires |xs| > 0 && DistinctHandles(xs)
    ensures DistinctHandles(xs[..|xs| - 1])
    ensures xs[|xs| - 1].handle !in Handles(xs[..|xs| - 1])
  {
    var init := xs[..|xs| - 1];
    forall k | 0 <= k < |init|
      ensures init[k].handle != xs[|xs| - 1].handle
    {
      assert init[k] == xs[k];
    }
  }

  /**
   * One page element that two of strategy 2's selectors both find comes back
   * as two wrappers, and both are kept: the page element is offered twice.
   */
  lemma RepeatedElementKeptTwice(e: Element, h: Handle, start: int, end: int)
    requires KeepFallback(e, start, end)
    requires h != e.handle
    ensures FindAvailableSlots([], [[e], [e.(handle := h)]], start, end)
              == [Slot(e.handle, FallbackTimeString(e)), Slot(h, FallbackTimeString(e))]
  {
    var e2 := e.(handle := h);
    var t := FallbackTimeString(e);
    assert Flatten([[e], [e2]]) == [e, e2] by {
      assert Flatten([[e2]]) == [e2];
    }
    var xs := [Slot(e.handle, t), Slot(h, t)];
    assert ScanCells([], start, end) == [];
    assert ScanFallback([[e], [e2]], start, end) == xs by {
      var keep := x => KeepFallback(x, start, end);
      CollectStep([e, e2], keep, FallbackTimeString);
      CollectStep([e], keep, FallbackTimeString);
      assert [e, e2][..1] == [e];
      assert [e][..0] == [];
    }
    DedupKeepsDistinct(xs);
  }

  /** find_available_slots: strategy 1, else strategy 2, then de-duplication. */
  function FindAvailableSlots(cells: seq<Element>, fallback: seq<seq<Element>>, start: int, end: int): seq<Slot> {
    var first := ScanCells(cells, start, end);
    Dedup(if |first| > 0 then first else ScanFallback(fallback, start, end))
  }

  // ---------------------------------------------------------------------------
  // Properties
  // ---------------------------------------------------------------------------

  /** A label that is in range always carries a colon, so the time-marker test never rejects it. */
  lemma InRangeHasMarker(slot: string, start: int, end: int)
    requires IsTimeInRange(slot, start, end)
    ensures HasTimeMarker(slot)
  {
    var low := Lower(slot);
    TokenHasColon(low);
    var j :| 0 <= j < |low| && low[j] == ':';
    assert slot[j] == ':';
    assert OccursAt(slot, ":", j);
  }

  /**
   * The strategy-1 rule in full: a cell is kept exactly when it is shown, its
   * class carries none of the unavailable keywords, its text is neither a
   * court number nor mentions "reserved", some time token of its label lies in
   * [start, end), and it is clickable or a table cell.
   */
  lemma KeepCellRule(e: Element, start: int, end: int)
    ensures KeepCell(e, start, end) <==>
      && e.displayed
      && !ContainsAny(Lower(AttrOr(e.classes)), UnavailableKeywords)
      && !IsDigits(e.text)
      && !Contains(Lower(e.text), "reserved")
      && (exists k :: 0 <= k < |FindAll(Lower(CellTimeString(e)))|
                      && start <= To24(FindAll(Lower(CellTimeString(e)))[k]) < end)
      && ((e.enabled && (Truthy(e.onclick) || e.tag == "button" || e.tag == "a")) || e.tag == "td")
  {
    if IsTimeInRange(CellTimeString(e), start, end) {
      InRangeHasMarker(CellTimeString(e), start, end);
    }
    if e.text == "" {
      assert !Contains(Lower(e.text), "reserved");
    }
  }

  /** Strategy 1 yields, in page order, the slot of every cell it keeps and nothing else. */
  lemma ScanCellsSpec(cells: seq<Element>, start: int, end: int)
    ensures var r := ScanCells(cells, start, end);
      && IsSubsequence(r, SlotsOf(cells, CellTimeString))
      && (forall k :: 0 <= k < |r| ==>
            exists i :: 0 <= i < |cells| && KeepCell(cells[i], start, end) && r[k] == Slot(cells[i].handle, CellTimeString(cells[i])))
      && (forall i :: 0 <= i < |cells| && KeepCell(cells[i], start, end) ==> Slot(cells[i].handle, CellTimeString(cells[i])) in r)
  {
    var keep := e => KeepCell(e, start, end);
    CollectOrder(cells, keep, CellTimeString);
    CollectSound(cells, keep, CellTimeString);
    CollectComplete(cells, keep, CellTimeString);
    var xs := cells;
    var r := Collect(xs, keep, CellTimeString);
    forall k | 0 <= k < |r|
      ensures exists i :: 0 <= i < |xs| && KeepCell(xs[i], start, end) && r[k] == Slot(xs[i].handle, CellTimeString(xs[i]))
    {
      assert r[k] in r;
      var i :| 0 <= i < |xs| && keep(xs[i]) && r[k] == Slot(xs[i].handle, CellTimeString(xs[i]));
      assert KeepCell(xs[i], start, end);
    }
  }

  /** Strategy 2 yields, in selector order, the slot of every element it keeps and nothing else. */
  lemma ScanFallbackSpec(lists: seq<seq<Element>>, start: int, end: int)
    ensures var all := Flatten(lists);
      var r := ScanFallback(lists, start, end);
      && IsSubsequence(r, SlotsOf(all, FallbackTimeString))
      && (forall k :: 0 <= k < |r| ==>
            exists i :: 0 <= i < |all| && KeepFallback(all[i], start, end) && r[k] == Slot(all[i].handle, FallbackTimeString(all[i])))
      && (forall i :: 0 <= i < |all| && KeepFallback(all[i], start, end) ==> Slot(all[i].handle, FallbackTimeString(all[i])) in r)
  {
    var keep := e => KeepFallback(e, start, end);
    CollectOrder(Flatten(lists), keep, FallbackTimeString);
    CollectSound(Flatten(lists), keep, FallbackTimeString);
    CollectComplete(Flatten(lists), keep, FallbackTimeString);
    var xs := Flatten(lists);
    var r := Collect(xs, keep, FallbackTimeString);
    forall k | 0 <= k < |r|
      ensures exists i :: 0 <= i < |xs| && KeepFallback(xs[i], start, end) && r[k] == Slot(xs[i].handle, FallbackTimeString(xs[i]))
    {
      assert r[k] in r;
      var i :| 0 <= i < |xs| && keep(xs[i]) && r[k] == Slot(xs[i].handle, FallbackTimeString(xs[i]));
      assert KeepFallback(xs[i], start, end);
    }
  }

  /** The handles of strategy 1's slots are the handles of the cells it keeps. */
  lemma ScanCellsHandles(cells: seq<Element>, start: int, end: int)
    ensures Handles(ScanCells(cells, start, end)) == set i | 0 <= i < |cells| && KeepCell(cells[i], start, end) :: cells[i].handle
  {
    var first := ScanCells(cells, start, end);
    var kept := set i | 0 <= i < |cells| && KeepCell(cells[i], start, end) :: cells[i].handle;
    ScanCellsSpec(cells, start, end);
    forall h | h in Handles(first) ensures h in kept {
      var k :| 0 <= k < |first| && first[k].handle == h;
      var j :| 0 <= j < |cells| && KeepCell(cells[j], start, end) && first[k] == Slot(cells[j].handle, CellTimeString(cells[j]));
    }
    forall h | h in kept ensures h in Handles(first) {
      var j :| 0 <= j < |cells| && KeepCell(cells[j], start, end) && cells[j].handle == h;
      var s := Slot(cells[j].handle, CellTimeString(cells[j]));
      assert s in first;
      var k :| 0 <= k < |first| && first[k] == s;
    }
  }

  /** Strategy 1 finds nothing exactly when it keeps no cell. */
  lemma ScanCellsEmpty(cells: seq<Element>, start: int, end: int)
    ensures ScanCells(cells, start, end) == [] <==> forall i :: 0 <= i < |cells| ==> !KeepCell(cells[i], start, end)
  {
    var first := ScanCells(cells, start, end);
    ScanCellsSpec(cells, start, end);
    if |first| > 0 {
      assert exists j :: 0 <= j < |cells| && KeepCell(cells[j], start, end) && first[0] == Slot(cells[j].handle, CellTimeString(cells[j]));
    }
  }

  /** Strategy 2 finds nothing exactly when it keeps no element. */
  lemma ScanFallbackEmpty(lists: seq<seq<Element>>, start: int, end: int)
    ensures ScanFallback(lists, start, end) == [] <==>
              forall i :: 0 <= i < |Flatten(lists)| ==> !KeepFallback(Flatten(lists)[i], start, end)
  {
    var all := Flatten(lists);
    var second := ScanFallback(lists, start, end);
    ScanFallbackSpec(lists, start, end);
    if |second| > 0 {
      assert exists j :: 0 <= j < |all| && KeepFallback(all[j], start, end) && second[0] == Slot(all[j].handle, FallbackTimeString(all[j]));
    }
  }

  /**
   * The slots found hold each element at most once; when strategy 1 keeps any
   * cell they are, in page order, exactly the elements it keeps; and none are
   * found exactly when neither strategy keeps an element.
   */
  lemma AvailableSlotsSpec(cells: seq<Element>, fallback: seq<seq<Element>>, start: int, end: int)
    ensures forall a, b :: 0 <= a < b < |FindAvailableSlots(cells, fallback, start, end)| ==>
              FindAvailableSlots(cells, fallback, start, end)[a].handle != FindAvailableSlots(cells, fallback, start, end)[b].handle
    ensures (exists i :: 0 <= i < |cells| && KeepCell(cells[i], start, end)) ==>
              && IsSubsequence(FindAvailableSlots(cells, fallback, start, end), ScanCells(cells, start, end))
              && Handles(FindAvailableSlots(cells, fallback, start, end))
                 == set i | 0 <= i < |cells| && KeepCell(cells[i], start, end) :: cells[i].handle
    ensures FindAvailableSlots(cells, fallback, start, end) == [] <==>
              && (forall i :: 0 <= i < |cells| ==> !KeepCell(cells[i], start, end))
              && (forall i :: 0 <= i < |Flatten(fallback)| ==> !KeepFallback(Flatten(fallback)[i], start, end))
  {
    var first := ScanCells(cells, start, end);
    var src := if |first| > 0 then first else ScanFallback(fallback, start, end);
    DedupHandles(src);
    DedupFirstOccurrences(src);
    ScanCellsEmpty(cells, start, end);
    ScanFallbackEmpty(fallback, start, end);
    ScanCellsHandles(cells, start, end);
    if |src| > 0 {
      assert src[0].handle in Handles(src);
    }
  }
}

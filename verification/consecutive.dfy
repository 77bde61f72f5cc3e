/**
 * The search for a block of consecutive hours (tennis_booking.py
 * `find_consecutive_slots`): every slot whose label yields an hour is paired
 * with that hour, the pairs are sorted by hour with Python's stable sort, and
 * the first window of `n` entries whose hours rise by exactly one each step is
 * returned.
 */
module Consecutive {
  import opened Wrappers
  import opened TimeTokens
  import opened SlotFilter
  import opened Seqs

  /** `(elem, slot, hour)`: a slot with the hour `extract_hour` read from its label. */
  datatype Hourly = Hourly(slot: Slot, hour: nat)

  /** The slots whose label yields an hour, each with that hour, in input order. */
  function WithHours(slots: seq<Slot>): seq<Hourly>
    decreases |slots|
  {
    if |slots| == 0 then []
    else
      var s := slots[|slots| - 1];
      var rest := WithHours(slots[..|slots| - 1]);
      match ExtractHour(s.time)
      case Some(h) => rest + [Hourly(s, h)]
      case None => rest
  }

  lemma WithHoursStep(slots: seq<Slot>)
    requires |slots| > 0
    ensures var s := slots[|slots| - 1];
      WithHours(slots) == WithHours(slots[..|slots| - 1])
                          + (if ExtractHour(s.time).Some? then [Hourly(s, ExtractHour(s.time).value)] else [])
  {
  }

  /** Every paired entry is an input slot with the hour its label yields. */
  lemma {:induction false} WithHoursSound(slots: seq<Slot>)
    ensures |WithHours(slots)| <= |slots|
    ensures forall k :: 0 <= k < |WithHours(slots)| ==>
              WithHours(slots)[k].slot in slots && ExtractHour(WithHours(slots)[k].slot.time) == Some(WithHours(slots)[k].hour)
    decreases |slots|
  {
    if |slots| > 0 {
      var init := slots[..|slots| - 1];
      var w0 := WithHours(init);
      var w := WithHours(slots);
      WithHoursSound(init);
      WithHoursStep(slots);
      assert slots == init + [slots[|slots| - 1]];
      forall k | 0 <= k < |w|
        ensures w[k].slot in slots && ExtractHour(w[k].slot.time) == Some(w[k].hour)
      {
        if k < |w0| {
          assert w[k] == w0[k];
          assert w0[k].slot in init;
        }
      }
    }
  }

  /** Every input slot whose label yields an hour is paired with that hour. */
  lemma WithHoursComplete(slots: seq<Slot>)
    ensures forall k, h :: 0 <= k < |slots| && ExtractHour(slots[k].time) == Some(h) ==>
              Hourly(slots[k], h) in WithHours(slots)
  {
    forall k, h | 0 <= k < |slots| && ExtractHour(slots[k].time) == Some(h)
      ensures Hourly(slots[k], h) in WithHours(slots)
    {
      WithHoursKeeps(slots, k, h);
    }
  }

  /** The `k`-th slot, when its label yields hour `h`, is paired with `h`. */
  lemma {:induction false} WithHoursKeeps(slots: seq<Slot>, k: nat, h: nat)
    requires k < |slots| && ExtractHour(slots[k].time) == Some(h)
    ensures Hourly(slots[k], h) in WithHours(slots)
    decreases |slots|
  {
    var init := slots[..|slots| - 1];
    WithHoursStep(slots);
    if k < |init| {
      assert slots[k] == init[k];
      WithHoursKeeps(init, k, h);
    }
  }

  // ---------------------------------------------------------------------------
  // Stable sort by hour (`list.sort(key=lambda x: x[2])`)
  // ---------------------------------------------------------------------------

  ghost predicate SortedByHour(xs: seq<Hourly>) {
    forall i, j :: 0 <= i < j < |xs| ==> xs[i].hour <= xs[j].hour
  }

  /** Places `x` after every entry whose hour is at most its own. */
  function Insert(sorted: seq<Hourly>, x: Hourly): seq<Hourly>
    decreases |sorted|
  {
    if |sorted| == 0 then [x]
    else if sorted[|sorted| - 1].hour <= x.hour then sorted + [x]
    else Insert(sorted[..|sorted| - 1], x) + [sorted[|sorted| - 1]]
  }

  /** Insertion sort, taking entries in input order. */
  function SortByHour(xs: seq<Hourly>): seq<Hourly>
    decreases |xs|
  {
    if |xs| == 0 then [] else Insert(SortByHour(xs[..|xs| - 1]), xs[|xs| - 1])
  }

  /** The entries of `xs` with hour `h`, in order. */
  function OfHour(xs: seq<Hourly>, h: nat): seq<Hourly>
    decreases |xs|
  {
    if |xs| == 0 then []
    else OfHour(xs[..|xs| - 1], h) + (if xs[|xs| - 1].hour == h then [xs[|xs| - 1]] else [])
  }

  lemma OfHourAppend(xs: seq<Hourly>, x: Hourly, h: nat)
    ensures OfHour(xs + [x], h) == OfHour(xs, h) + (if x.hour == h then [x] else [])
  {
    assert (xs + [x])[..|xs|] == xs;
  }

  lemma {:induction false} InsertMultiset(s: seq<Hourly>, x: Hourly)
    ensures multiset(Insert(s, x)) == multiset(s) + multiset{x}
    decreases |s|
  {
    if |s| > 0 && s[|s| - 1].hour > x.hour {
      InsertMultiset(s[..|s| - 1], x);
      assert s == s[..|s| - 1] + [s[|s| - 1]];
    }
  }

  lemma {:induction false} InsertSorted(s: seq<Hourly>, x: Hourly)
    requires SortedByHour(s)
    ensures SortedByHour(Insert(s, x))
    decreases |s|
  {
    if |s| > 0 && s[|s| - 1].hour > x.hour {
      var init := s[..|s| - 1];
      var last := s[|s| - 1];
      InsertSorted(init, x);
      InsertMultiset(init, x);
      var t := Insert(init, x);
      forall k | 0 <= k < |t| ensures t[k].hour <= last.hour {
        assert t[k] in multiset(t);
        if t[k] != x {
          assert t[k] in multiset(init);
          var m :| 0 <= m < |init| && init[m] == t[k];
          assert s[m] == init[m];
        }
      }
    }
  }

  /** Inserting keeps the entries of every hour in their order, with `x` after those of its hour. */
  lemma {:induction false} InsertOfHour(s: seq<Hourly>, x: Hourly, h: nat)
    requires SortedByHour(s)
    ensures OfHour(Insert(s, x), h) == OfHour(s, h) + (if x.hour == h then [x] else [])
    decreases |s|
  {
    if |s| == 0 {
      OfHourAppend([], x, h);
    } else {
      var init := s[..|s| - 1];
      var last := s[|s| - 1];
      assert s == init + [last];
      if last.hour <= x.hour {
        OfHourAppend(s, x, h);
      } else {
        InsertOfHour(init, x, h);
        OfHourAppend(Insert(init, x), last, h);
        OfHourAppend(init, last, h);
      }
    }
  }

  /** The sort is a sorted permutation that keeps entries of equal hour in input order. */
  lemma {:induction false} SortByHourSpec(xs: seq<Hourly>)
    ensures SortedByHour(SortByHour(xs))
    ensures multiset(SortByHour(xs)) == multiset(xs)
    ensures forall h :: OfHour(SortByHour(xs), h) == OfHour(xs, h)
    decreases |xs|
  {
    if |xs| > 0 {
      var init := xs[..|xs| - 1];
      var x := xs[|xs| - 1];
      SortByHourSpec(init);
      InsertSorted(SortByHour(init), x);
      InsertMultiset(SortByHour(init), x);
      assert xs == init + [x];
      forall h ensures OfHour(SortByHour(xs), h) == OfHour(xs, h) {
        InsertOfHour(SortByHour(init), x, h);
        OfHourAppend(init, x, h);
      }
    }
  }

  // ---------------------------------------------------------------------------
  // The scan for a run
  // ---------------------------------------------------------------------------

  /** `hs[i..i+n]` is a run: n entries whose hours rise by exactly one each step. */
  ghost predicate IsRunAt(hs: seq<Hourly>, i: int, n: int) {
    && 0 <= i
    && i + n <= |hs|
    && forall k :: i <= k < i + n - 1 ==> hs[k + 1].hour == hs[k].hour + 1
  }

  /**
   * The inner loop: a run of `len` entries ends just before `j` with hour
   * `last`; it grows while the next hour is one more, and succeeds when its
   * length reaches `n` after growing.
   */
  function Extends(hs: seq<Hourly>, j: nat, last: nat, len: nat, n: int): bool
    decreases |hs| - j
  {
    if j >= |hs| then false
    else if hs[j].hour != last + 1 then false
    else if len + 1 == n then true
    else Extends(hs, j + 1, hs[j].hour, len + 1, n)
  }

  /** The outer loop over the starts `i` in `range(len(hs) - n + 1)`. */
  function ScanFrom(hs: seq<Hourly>, i: nat, n: nat): (r: Option<nat>)
    requires n >= 1
    ensures r.Some? ==> i <= r.value && r.value + n <= |hs|
    decreases |hs| - i
  {
    if i + n > |hs| then None
    else if Extends(hs, i + 1, hs[i].hour, 1, n) then Some(i)
    else ScanFrom(hs, i + 1, n)
  }

  /** The inner loop completes exactly when the entries from `i` form a run of length `n`. */
  lemma {:induction false} ExtendsIsRun(hs: seq<Hourly>, i: nat, j: nat, len: nat, n: int)
    requires 1 <= len < n
    requires j == i + len && j <= |hs|
    requires IsRunAt(hs, i, len)
    ensures Extends(hs, j, hs[j - 1].hour, len, n) <==> IsRunAt(hs, i, n)
    decreases |hs| - j
  {
    if j < |hs| && hs[j].hour == hs[j - 1].hour + 1 && len + 1 != n {
      assert IsRunAt(hs, i, len + 1);
      ExtendsIsRun(hs, i, j + 1, len + 1, n);
    } else if j < |hs| && hs[j].hour != hs[j - 1].hour + 1 {
      var k := j - 1;
      assert i <= k < i + n - 1 && hs[k + 1].hour != hs[k].hour + 1;
    }
  }

  /** Once a run is already `n` long without having grown to it, the inner loop cannot succeed. */
  lemma {:induction false} ExtendsTooLong(hs: seq<Hourly>, j: nat, last: nat, len: nat, n: int)
    requires len >= n
    ensures !Extends(hs, j, last, len, n)
    decreases |hs| - j
  {
    if j < |hs| && hs[j].hour == last + 1 {
      ExtendsTooLong(hs, j + 1, hs[j].hour, len + 1, n);
    }
  }

  /** The outer loop returns the first start of a run, or None when there is none (always None for n = 1). */
  lemma {:induction false} ScanFromSpec(hs: seq<Hourly>, i: nat, n: nat)
    requires n >= 1
    ensures n == 1 ==> ScanFrom(hs, i, n).None?
    ensures n >= 2 && ScanFrom(hs, i, n).Some? ==>
              && IsRunAt(hs, ScanFrom(hs, i, n).value, n)
              && forall k :: i <= k < ScanFrom(hs, i, n).value ==> !IsRunAt(hs, k, n)
    ensures n >= 2 && ScanFrom(hs, i, n).None? ==> forall k :: i <= k ==> !IsRunAt(hs, k, n)
    decreases |hs| - i
  {
    if i + n <= |hs| {
      if n == 1 {
        ExtendsTooLong(hs, i + 1, hs[i].hour, 1, n);
      } else {
        assert IsRunAt(hs, i, 1);
        ExtendsIsRun(hs, i, i + 1, 1, n);
      }
      ScanFromSpec(hs, i + 1, n);
    }
  }

  // ---------------------------------------------------------------------------
  // find_consecutive_slots
  // ---------------------------------------------------------------------------

  /** The slots with hours, in the stably sorted order the scan walks. */
  function SortedHourly(slots: seq<Slot>): seq<Hourly> {
    SortByHour(WithHours(slots))
  }

  function SlotOfEntry(h: Hourly): Slot {
    h.slot
  }

  /** `[(elem, slot) for elem, slot, _ in consecutive]`. */
  function SlotsOfRun(hs: seq<Hourly>): seq<Slot> {
    Map(hs, SlotOfEntry)
  }

  /**
   * find_consecutive_slots(slots, n). For n <= 0 the source indexes past the
   * end of its list, so n >= 1 is required of callers.
   */
  function FindConsecutive(slots: seq<Slot>, n: nat): Option<seq<Slot>>
    requires n >= 1
  {
    var hs := SortedHourly(slots);
    match ScanFrom(hs, 0, n)
    case Some(i) => Some(SlotsOfRun(hs[i..i + n]))
    case None => None
  }

  lemma SortedHourlyLength(slots: seq<Slot>)
    ensures |SortedHourly(slots)| == |WithHours(slots)|
    ensures multiset(SortedHourly(slots)) == multiset(WithHours(slots))
  {
    SortByHourSpec(WithHours(slots));
    assert |multiset(SortedHourly(slots))| == |multiset(WithHours(slots))|;
  }

  /**
   * A block found is the earliest run of n entries in the sorted order; none
   * is found exactly when the sorted order has no run (or when n = 1), so in
   * particular when fewer than n slots have hours.
   */
  lemma FindConsecutiveIsFirstRun(slots: seq<Slot>, n: nat)
    requires n >= 1
    ensures n == 1 ==> FindConsecutive(slots, n).None?
    ensures |WithHours(slots)| < n ==> FindConsecutive(slots, n).None?
    ensures FindConsecutive(slots, n).Some? ==>
              exists i :: && IsRunAt(SortedHourly(slots), i, n)
                          && FindConsecutive(slots, n).value == SlotsOfRun(SortedHourly(slots)[i..i + n])
                          && forall k :: 0 <= k < i ==> !IsRunAt(SortedHourly(slots), k, n)
    ensures n >= 2 && FindConsecutive(slots, n).None? ==> forall i :: !IsRunAt(SortedHourly(slots), i, n)
  {
    FindConsecutiveFirst(slots, n);
    FindConsecutiveShort(slots, n);
  }

  /** The block found, if any, is the first run in the sorted order. */
  lemma FindConsecutiveFirst(slots: seq<Slot>, n: nat)
    requires n >= 1
    ensures FindConsecutive(slots, n).Some? ==>
              exists i :: && IsRunAt(SortedHourly(slots), i, n)
                          && FindConsecutive(slots, n).value == SlotsOfRun(SortedHourly(slots)[i..i + n])
                          && forall k :: 0 <= k < i ==> !IsRunAt(SortedHourly(slots), k, n)
    ensures n >= 2 && FindConsecutive(slots, n).None? ==> forall i :: !IsRunAt(SortedHourly(slots), i, n)
  {
    var hs := SortedHourly(slots);
    var found := ScanFrom(hs, 0, n);
    assert FindConsecutive(slots, n) == if found.Some? then Some(SlotsOfRun(hs[found.value..found.value + n])) else None;
    if found.Some? {
      FirstRunAt(hs, n);
    } else if n >= 2 {
      ScanFromStart(hs, n);
    }
  }

  /** The scan's answer is a run with no run before it. */
  lemma FirstRunAt(hs: seq<Hourly>, n: nat)
    requires n >= 1 && ScanFrom(hs, 0, n).Some?
    ensures var i := ScanFrom(hs, 0, n).value;
      IsRunAt(hs, i, n) && forall k :: 0 <= k < i ==> !IsRunAt(hs, k, n)
  {
    ScanFromStart(hs, n);
  }

  /** Nothing is found for n = 1, nor when fewer than n slots have hours. */
  lemma FindConsecutiveShort(slots: seq<Slot>, n: nat)
    requires n >= 1
    ensures n == 1 ==> FindConsecutive(slots, n).None?
    ensures |WithHours(slots)| < n ==> FindConsecutive(slots, n).None?
  {
    var hs := SortedHourly(slots);
    ScanFromStart(hs, n);
    assert |hs| == |WithHours(slots)| by {
      SortedHourlyLength(slots);
    }
  }

  /** `ScanFromSpec` for the scan from the first entry, which is how the script runs it. */
  lemma ScanFromStart(hs: seq<Hourly>, n: nat)
    requires n >= 1
    ensures n == 1 || |hs| < n ==> ScanFrom(hs, 0, n).None?
    ensures n >= 2 && ScanFrom(hs, 0, n).Some? ==>
              && IsRunAt(hs, ScanFrom(hs, 0, n).value, n)
              && forall k :: 0 <= k < ScanFrom(hs, 0, n).value ==> !IsRunAt(hs, k, n)
    ensures n >= 2 && ScanFrom(hs, 0, n).None? ==> forall k :: !IsRunAt(hs, k, n)
  {
    ScanFromSpec(hs, 0, n);
  }

  /** Every sorted entry is an input slot with the hour its label yields. */
  lemma SortedHourlySound(slots: seq<Slot>)
    ensures forall k :: 0 <= k < |SortedHourly(slots)| ==>
              SortedHourly(slots)[k].slot in slots
              && ExtractHour(SortedHourly(slots)[k].slot.time) == Some(SortedHourly(slots)[k].hour)
  {
    var hs := SortedHourly(slots);
    var w := WithHours(slots);
    SortedHourlyLength(slots);
    WithHoursSound(slots);
    forall k | 0 <= k < |hs|
      ensures hs[k].slot in slots && ExtractHour(hs[k].slot.time) == Some(hs[k].hour)
    {
      assert hs[k] in multiset(w);
      var m :| 0 <= m < |w| && w[m] == hs[k];
    }
  }

  /**
   * A block found has exactly n slots, all taken from the input, each with an
   * hour one more than the slot before it.
   */
  lemma FindConsecutiveRun(slots: seq<Slot>, n: nat)
    requires n >= 1
    ensures FindConsecutive(slots, n).Some? ==>
              var r := FindConsecutive(slots, n).value;
              && |r| == n
              && (forall k :: 0 <= k < n ==> r[k] in slots && ExtractHour(r[k].time).Some?)
              && (forall k :: 0 <= k < n - 1 ==> ExtractHour(r[k + 1].time).value == ExtractHour(r[k].time).value + 1)
  {
    var hs := SortedHourly(slots);
    var found := ScanFrom(hs, 0, n);
    if found.Some? {
      var i := found.value;
      assert FindConsecutive(slots, n) == Some(SlotsOfRun(hs[i..i + n]));
      ScanFromSpec(hs, 0, n);
      SortedHourlySound(slots);
      RunSlots(slots, hs, i, n);
    }
  }

  /** The slots of a run of sound entries are input slots with consecutive hours. */
  lemma RunSlots(slots: seq<Slot>, hs: seq<Hourly>, i: nat, n: nat)
    requires IsRunAt(hs, i, n)
    requires forall k :: 0 <= k < |hs| ==> hs[k].slot in slots && ExtractHour(hs[k].slot.time) == Some(hs[k].hour)
    ensures var r := SlotsOfRun(hs[i..i + n]);
      && |r| == n
      && (forall k :: 0 <= k < n ==> r[k] in slots && ExtractHour(r[k].time).Some?)
      && (forall k :: 0 <= k < n - 1 ==> ExtractHour(r[k + 1].time).value == ExtractHour(r[k].time).value + 1)
  {
    var r := SlotsOfRun(hs[i..i + n]);
    forall k | 0 <= k < n
      ensures r[k] == hs[i + k].slot
    {
    }
    forall k | 0 <= k < n - 1
      ensures ExtractHour(r[k + 1].time).value == ExtractHour(r[k].time).value + 1
    {
      assert hs[i + k + 1].hour == hs[i + k].hour + 1;
    }
  }

  /** Sorting entries already in hour order leaves them unchanged. */
  lemma {:induction false} SortSortedIsIdentity(xs: seq<Hourly>)
    requires SortedByHour(xs)
    ensures SortByHour(xs) == xs
    decreases |xs|
  {
    if |xs| > 0 {
      var init := xs[..|xs| - 1];
      SortSortedIsIdentity(init);
      assert xs == init + [xs[|xs| - 1]];
    }
  }

  /** Hours 14, 15, 17, 18 asking for two: the block 14, 15 is chosen, not 17, 18. */
  lemma FirstRunExample(a: Slot, b: Slot, c: Slot, d: Slot)
    ensures var hs := [Hourly(a, 14), Hourly(b, 15), Hourly(c, 17), Hourly(d, 18)];
      && SortByHour(hs) == hs
      && ScanFrom(hs, 0, 2) == Some(0)
  {
    var hs := [Hourly(a, 14), Hourly(b, 15), Hourly(c, 17), Hourly(d, 18)];
    SortSortedIsIdentity(hs);
  }
}

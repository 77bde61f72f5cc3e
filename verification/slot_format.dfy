/**
 * `format_time_slot` (tennis_booking.py): a label that already holds a range
 * ("-") is only stripped; a label with a single time token gets the following
 * hour appended as "start - H:00am|pm".
 *
 * The source computes the following hour with its own 12-hour arithmetic
 * (`NextHourAsWritten`), which is wrong at two readings: 12am is followed by
 * "1:00pm" and 11pm by "12:00pm". `NextHour` is the corrected rule, and
 * `FormatTimeSlot` below uses it; `FormatTimeSlotAsWritten` keeps the
 * source's arithmetic so that the discrepancy can be exhibited.
 */
module SlotFormat {
  import opened Wrappers
  import opened Text
  import opened TimeTokens

  /** The source's computation of the hour after `t`, branch by branch. */
  function NextHourAsWritten(t: Token): Token {
    if t.period == Pm && t.hour != 12 then
      Token(if t.hour + 1 > 12 then t.hour + 1 - 12 else t.hour + 1, Pm)
    else if t.period == Am then
      if t.hour + 1 >= 12 then Token(if t.hour + 1 > 12 then t.hour + 1 - 12 else 12, Pm)
      else Token(t.hour + 1, Am)
    else
      Token(1, Pm)
  }

  /** The hour after `t` on a 12-hour clock: one hour later, wrapping at midnight. */
  function NextHour(t: Token): (n: Token)
    ensures IsClockHour(n)
    ensures To24(n) == (To24(t) + 1) % 24
  {
    DayHourRoundTrip((To24(t) + 1) % 24);
    From24((To24(t) + 1) % 24)
  }

  /** On every clock reading the source's arithmetic agrees with the clock except at 12am and 11pm. */
  lemma NextHourAsWrittenDiffers(t: Token)
    requires IsClockHour(t)
    ensures NextHourAsWritten(t) == NextHour(t) <==> t != Token(12, Am) && t != Token(11, Pm)
  {
  }

  /** The appended end time of the source, and the one evidently intended. */
  function Suffix(next: Token): string {
    " - " + Render(next)
  }

  /** format_time_slot with the source's next-hour arithmetic. */
  function FormatTimeSlotAsWritten(slot: string): string {
    if Contains(slot, "-") then Strip(slot)
    else match Search(Lower(slot))
      case Some(t) => Strip(slot) + Suffix(NextHourAsWritten(t))
      case None => Strip(slot)
  }

  /** format_time_slot with the following hour computed on the clock. */
  function FormatTimeSlot(slot: string): string {
    if Contains(slot, "-") then Strip(slot)
    else match Search(Lower(slot))
      case Some(t) => Strip(slot) + Suffix(NextHour(t))
      case None => Strip(slot)
  }

  lemma RenderHasNoDash(t: Token)
    ensures !Contains(Render(t), "-")
  {
    var r := Render(t);
    var digits := NatToDecimal(t.hour);
    forall i | 0 <= i <= |r| - 1
      ensures !OccursAt(r, "-", i)
    {
      if i < |digits| {
        assert r[i] == digits[i];
      }
      assert r[i..i + 1][0] == r[i];
    }
  }

  lemma StripRendered(t: Token)
    ensures Strip(Render(t)) == Render(t)
  {
    var r := Render(t);
    assert r[0] == NatToDecimal(t.hour)[0];
  }

  /**
   * A label that is exactly one rendered clock reading gets the reading one
   * hour later appended, and that appended text scans back to that hour.
   */
  lemma FormatRenderedLabel(t: Token)
    requires IsClockHour(t)
    ensures FormatTimeSlot(Render(t)) == Render(t) + " - " + Render(NextHour(t))
    ensures FormatTimeSlotAsWritten(Render(t)) == Render(t) + " - " + Render(NextHourAsWritten(t))
    ensures ExtractHour(Render(NextHour(t))) == Some((To24(t) + 1) % 24)
  {
    var r := Render(t);
    RenderedLabel(t);
    assert FormatTimeSlot(r) == r + Suffix(NextHour(t));
    assert FormatTimeSlotAsWritten(r) == r + Suffix(NextHourAsWritten(t));
    SuffixAppend(r, NextHour(t));
    SuffixAppend(r, NextHourAsWritten(t));
    RenderRoundTrip(NextHour(t));
  }

  /** Appending the suffix is appending the dash and the rendered reading. */
  lemma SuffixAppend(r: string, n: Token)
    ensures r + Suffix(n) == r + " - " + Render(n)
  {
  }

  /** A rendered reading is lower case, dash-free, already stripped, and scans back to itself. */
  lemma RenderedLabel(t: Token)
    requires IsClockHour(t)
    ensures Lower(Render(t)) == Render(t) && Search(Render(t)) == Some(t)
    ensures !Contains(Render(t), "-") && Strip(Render(t)) == Render(t)
  {
    RenderRoundTrip(t);
    SearchIsFirstOfFindAll(Render(t));
    RenderHasNoDash(t);
    StripRendered(t);
  }

  lemma RenderedReadings()
    ensures Render(Token(12, Am)) == "12:00am" && Render(Token(11, Pm)) == "11:00pm"
    ensures Render(Token(1, Am)) == "1:00am" && Render(Token(1, Pm)) == "1:00pm"
    ensures Render(Token(12, Pm)) == "12:00pm"
  {
    assert NatToDecimal(1) == "1";
    assert NatToDecimal(11) == "11";
    assert NatToDecimal(12) == "12";
  }

  /** Midnight and 11pm, the two readings where the script's next hour is wrong. */
  const Midnight: Token := Token(12, Am)
  const ElevenPm: Token := Token(11, Pm)

  /** The label "12:00am" is followed by "1:00pm" as written; the clock gives "1:00am". */
  lemma MidnightLabel()
    ensures Render(Midnight) == "12:00am"
    ensures FormatTimeSlotAsWritten(Render(Midnight)) == Render(Midnight) + " - " + "1:00pm"
    ensures FormatTimeSlot(Render(Midnight)) == Render(Midnight) + " - " + "1:00am"
  {
    RenderedReadings();
    assert NextHourAsWritten(Midnight) == Token(1, Pm);
    assert NextHour(Midnight) == Token(1, Am);
    FormatRenderedLabel(Midnight);
  }

  /** The label "11:00pm" is followed by "12:00pm" (noon) as written; the clock gives "12:00am". */
  lemma ElevenPmLabel()
    ensures Render(ElevenPm) == "11:00pm"
    ensures FormatTimeSlotAsWritten(Render(ElevenPm)) == Render(ElevenPm) + " - " + "12:00pm"
    ensures FormatTimeSlot(Render(ElevenPm)) == Render(ElevenPm) + " - " + "12:00am"
  {
    RenderedReadings();
    assert NextHourAsWritten(ElevenPm) == Token(12, Pm);
    assert NextHour(ElevenPm) == Token(12, Am);
    FormatRenderedLabel(ElevenPm);
  }

  /**
   * The script's formatting: the text begins with the stripped label, which
   * is all of it when the label holds a range or no time token; otherwise the
   * script's next hour is appended, and that is one hour after the label's
   * first token on every clock reading except 12am and 11pm.
   */
  lemma FormatKeepsLabelAsWritten(slot: string)
    ensures |FormatTimeSlotAsWritten(slot)| >= |Strip(slot)|
    ensures FormatTimeSlotAsWritten(slot)[..|Strip(slot)|] == Strip(slot)
    ensures Contains(slot, "-") || ExtractHour(slot).None? ==> FormatTimeSlotAsWritten(slot) == Strip(slot)
    ensures !Contains(slot, "-") && ExtractHour(slot).Some? ==>
              var t := Search(Lower(slot)).value;
              && FormatTimeSlotAsWritten(slot) == Strip(slot) + Suffix(NextHourAsWritten(t))
              && (IsClockHour(t) && t != Token(12, Am) && t != Token(11, Pm) ==>
                    To24(NextHourAsWritten(t)) == (ExtractHour(slot).value + 1) % 24)
  {
    if !Contains(slot, "-") && ExtractHour(slot).Some? {
      var t := Search(Lower(slot)).value;
      if IsClockHour(t) {
        NextHourAsWrittenDiffers(t);
      }
    }
  }

  /**
   * The corrected formatting: the same, except that the appended end time is
   * one hour after the label's first token on every reading.
   */
  lemma FormatKeepsLabel(slot: string)
    ensures |FormatTimeSlot(slot)| >= |Strip(slot)|
    ensures FormatTimeSlot(slot)[..|Strip(slot)|] == Strip(slot)
    ensures Contains(slot, "-") || ExtractHour(slot).None? ==> FormatTimeSlot(slot) == Strip(slot)
    ensures !Contains(slot, "-") && ExtractHour(slot).Some? ==>
              FormatTimeSlot(slot) == Strip(slot) + Suffix(NextHour(Search(Lower(slot)).value))
              && To24(NextHour(Search(Lower(slot)).value)) == (ExtractHour(slot).value + 1) % 24
  {
  }
}

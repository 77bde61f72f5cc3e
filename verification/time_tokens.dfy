/**
 * Time tokens in slot labels (tennis_booking.py `is_time_in_range` and the
 * `extract_hour` helper of `find_consecutive_slots`).
 *
 * Both search a lower-cased label for the pattern `(\d{1,2}):\d{2}\s*(am|pm)`
 * and convert the captured hour to 24-hour time. The pattern is modelled by a
 * hand-written scanner (`MatchAt`) over ASCII, which is proved to agree with a
 * declarative reading of the pattern (`MatchShape`). `FindAll` follows
 * `re.findall` (leftmost, non-overlapping matches) and `Search` follows
 * `re.search` (the leftmost match).
 */
module TimeTokens {
  import opened Wrappers
  import opened Text

  datatype Period = Am | Pm

  /** One matched `(hour, period)` pair; the minutes are matched but not kept. */
  datatype Token = Token(hour: nat, period: Period)

  function PeriodText(p: Period): string {
    if p == Am then "am" else "pm"
  }

  /** The source's 12-hour to 24-hour rule: 12am is 0, other pm hours gain 12. */
  function To24(t: Token): nat {
    match t.period
    case Pm => if t.hour != 12 then t.hour + 12 else t.hour
    case Am => if t.hour == 12 then 0 else t.hour
  }

  /** A reading a 12-hour clock can show: hours 1 through 12. */
  predicate IsClockHour(t: Token) {
    1 <= t.hour <= 12
  }

  /** The standard 12-hour reading of hour `h` of the day. */
  function From24(h: nat): (t: Token)
    requires h < 24
    ensures IsClockHour(t)
  {
    Token(if h % 12 == 0 then 12 else h % 12, if h < 12 then Am else Pm)
  }

  /** On clock readings, `To24` is the inverse of the standard 12-hour reading. */
  lemma ClockRoundTrip(t: Token)
    requires IsClockHour(t)
    ensures To24(t) < 24
    ensures From24(To24(t)) == t
  {
  }

  lemma DayHourRoundTrip(h: nat)
    requires h < 24
    ensures To24(From24(h)) == h
  {
  }

  /** The conversions the booking script relies on, written out. */
  lemma KnownConversions()
    ensures To24(Token(12, Am)) == 0 && To24(Token(12, Pm)) == 12
    ensures To24(Token(1, Pm)) == 13 && To24(Token(11, Pm)) == 23 && To24(Token(1, Am)) == 1
  {
  }

  // ---------------------------------------------------------------------------
  // The pattern (\d{1,2}):\d{2}\s*(am|pm)
  // ---------------------------------------------------------------------------

  /** End of the (greedy) run of whitespace that starts at `j`. */
  function SkipSpaces(s: string, j: nat): (w: nat)
    requires j <= |s|
    ensures j <= w <= |s|
    ensures forall k :: j <= k < w ==> IsSpace(s[k])
    ensures w == |s| || !IsSpace(s[w])
    decreases |s| - j
  {
    if j < |s| && IsSpace(s[j]) then SkipSpaces(s, j + 1) else j
  }

  /** The `(am|pm)` alternative at position `w`, if either matches there. */
  function PeriodAt(s: string, w: nat): (p: Option<Period>)
    ensures p.Some? ==> w + 2 <= |s| && s[w..w + 2] == PeriodText(p.value)
    ensures p.None? ==> forall q: Period :: !(w + 2 <= |s| && s[w..w + 2] == PeriodText(q))
  {
    if w + 2 <= |s| && s[w..w + 2] == "am" then Some(Am)
    else if w + 2 <= |s| && s[w..w + 2] == "pm" then Some(Pm)
    else None
  }

  /** A match of the pattern: the token found and the index just past it. */
  datatype Match = Match(token: Token, end: nat)

  /**
   * The pattern anchored at `i`. Two hour digits are taken when present; taking
   * one instead could not succeed, since the pattern then needs ':' where a
   * digit stands.
   */
  function MatchAt(s: string, i: nat): (m: Option<Match>)
    ensures m.Some? ==> i < m.value.end <= |s|
  {
    if i < |s| && IsAsciiDigit(s[i]) then
      var c := if i + 1 < |s| && IsAsciiDigit(s[i + 1]) then i + 2 else i + 1;
      if c + 2 < |s| && s[c] == ':' && IsAsciiDigit(s[c + 1]) && IsAsciiDigit(s[c + 2]) then
        var w := SkipSpaces(s, c + 3);
        match PeriodAt(s, w)
        case Some(p) => Some(Match(Token(DigitsValue(s[i..c]), p), w + 2))
        case None => None
      else None
    else None
  }

  /**
   * Declarative reading of the pattern at `i`: `d` hour digits, a colon, two
   * minute digits, whitespace up to `w`, then the period.
   */
  ghost predicate MatchShape(s: string, i: nat, d: nat, w: nat, p: Period) {
    && (d == 1 || d == 2)
    && i + d + 3 <= w
    && w + 2 <= |s|
    && (forall k :: i <= k < i + d ==> IsAsciiDigit(s[k]))
    && s[i + d] == ':'
    && IsAsciiDigit(s[i + d + 1])
    && IsAsciiDigit(s[i + d + 2])
    && (forall k :: i + d + 3 <= k < w ==> IsSpace(s[k]))
    && s[w..w + 2] == PeriodText(p)
  }

  /** Whatever the scanner reports is a match of the pattern, with the hour the digits spell. */
  lemma MatchAtSound(s: string, i: nat)
    requires MatchAt(s, i).Some?
    ensures exists d: nat, w: nat, p: Period :: MatchShape(s, i, d, w, p)
                              && MatchAt(s, i).value == Match(Token(DigitsValue(s[i..i + d]), p), w + 2)
  {
    var c := if i + 1 < |s| && IsAsciiDigit(s[i + 1]) then i + 2 else i + 1;
    var w := SkipSpaces(s, c + 3);
    var p := PeriodAt(s, w).value;
    assert MatchShape(s, i, c - i, w, p);
  }

  /** Every match of the pattern is found by the scanner, with the same token and extent. */
  lemma MatchAtComplete(s: string, i: nat, d: nat, w: nat, p: Period)
    requires MatchShape(s, i, d, w, p)
    ensures MatchAt(s, i) == Some(Match(Token(DigitsValue(s[i..i + d]), p), w + 2))
  {
    assert IsAsciiDigit(s[i]);
    if d == 1 {
      assert !IsAsciiDigit(s[i + 1]);
    } else {
      assert IsAsciiDigit(s[i + 1]);
    }
    assert !IsSpace(s[w]) by {
      assert s[w] == s[w..w + 2][0];
    }
    var w' := SkipSpaces(s, i + d + 3);
    assert w' == w;
    assert PeriodAt(s, w) == Some(p);
  }

  // ---------------------------------------------------------------------------
  // re.findall and re.search
  // ---------------------------------------------------------------------------

  /** `re.findall` from position `i`: after a match, scanning resumes at its end. */
  function FindAllFrom(s: string, i: nat): seq<Token>
    requires i <= |s|
    decreases |s| - i
  {
    if i == |s| then []
    else match MatchAt(s, i)
      case Some(m) => [m.token] + FindAllFrom(s, m.end)
      case None => FindAllFrom(s, i + 1)
  }

  function FindAll(s: string): seq<Token> {
    FindAllFrom(s, 0)
  }

  /** Leftmost position at or after `i` where the pattern matches. */
  function FirstMatchFrom(s: string, i: nat): (j: Option<nat>)
    requires i <= |s|
    ensures j.Some? ==> i <= j.value < |s| && MatchAt(s, j.value).Some?
    ensures j.Some? ==> forall k :: i <= k < j.value ==> MatchAt(s, k).None?
    ensures j.None? ==> forall k :: i <= k < |s| ==> MatchAt(s, k).None?
    decreases |s| - i
  {
    if i == |s| then None
    else if MatchAt(s, i).Some? then Some(i)
    else FirstMatchFrom(s, i + 1)
  }

  /** `re.search`: the token of the leftmost match. */
  function Search(s: string): Option<Token> {
    match FirstMatchFrom(s, 0)
    case Some(j) => Some(MatchAt(s, j).value.token)
    case None => None
  }

  lemma {:induction false} FirstFoundFrom(s: string, i: nat)
    requires i <= |s|
    ensures FindAllFrom(s, i) == [] <==> FirstMatchFrom(s, i).None?
    ensures FirstMatchFrom(s, i).Some? ==>
              FindAllFrom(s, i)[0] == MatchAt(s, FirstMatchFrom(s, i).value).value.token
    decreases |s| - i
  {
    if i < |s| && MatchAt(s, i).None? {
      FirstFoundFrom(s, i + 1);
    }
  }

  /** `re.search` finds exactly the first token `re.findall` lists. */
  lemma SearchIsFirstOfFindAll(s: string)
    ensures Search(s) == (if FindAll(s) == [] then None else Some(FindAll(s)[0]))
  {
    FirstFoundFrom(s, 0);
  }

  /** `re.findall` finds nothing exactly when the pattern matches nowhere. */
  lemma NoTokensIffNoMatch(s: string)
    ensures FindAll(s) == [] <==> forall k :: 0 <= k < |s| ==> MatchAt(s, k).None?
  {
    FirstFoundFrom(s, 0);
  }

  /** A string in which a token is found contains a colon. */
  lemma TokenHasColon(s: string)
    requires FindAll(s) != []
    ensures exists j :: 0 <= j < |s| && s[j] == ':'
  {
    NoTokensIffNoMatch(s);
    var k :| 0 <= k < |s| && MatchAt(s, k).Some?;
    MatchAtSound(s, k);
    var d: nat, w: nat, p: Period :| MatchShape(s, k, d, w, p);
    assert s[k + d] == ':';
  }

  // ---------------------------------------------------------------------------
  // is_time_in_range and extract_hour
  // ---------------------------------------------------------------------------

  predicate InRange(t: Token, start: int, end: int) {
    start <= To24(t) < end
  }

  /** The loop over the matched tokens: true as soon as one converts into the range. */
  function AnyInRange(ts: seq<Token>, start: int, end: int): (b: bool)
    ensures b <==> exists k :: 0 <= k < |ts| && InRange(ts[k], start, end)
  {
    |ts| > 0 && (InRange(ts[0], start, end) || AnyInRange(ts[1..], start, end))
  }

  /** `is_time_in_range(slot, start, end)`: some token of the lower-cased label lies in [start, end). */
  function IsTimeInRange(slot: string, start: int, end: int): (b: bool)
    ensures b <==> exists k :: 0 <= k < |FindAll(Lower(slot))|
                                && start <= To24(FindAll(Lower(slot))[k]) < end
    ensures FindAll(Lower(slot)) == [] ==> !b
  {
    AnyInRange(FindAll(Lower(slot)), start, end)
  }

  /** A label in which the pattern matches nowhere is never in range. */
  lemma NoMatchNotInRange(slot: string, start: int, end: int)
    requires forall k :: 0 <= k < |slot| ==> MatchAt(Lower(slot), k).None?
    ensures !IsTimeInRange(slot, start, end)
  {
    NoTokensIffNoMatch(Lower(slot));
  }

  /** `extract_hour(slot)`: the 24-hour value of the first token, or None. */
  function ExtractHour(slot: string): Option<nat> {
    match Search(Lower(slot))
    case Some(t) => Some(To24(t))
    case None => None
  }

  /**
   * `extract_hour` reads the first token `is_time_in_range` inspects, so an
   * extracted hour in the range makes the label in range; no hour means no token.
   */
  lemma ExtractHourAgreesWithRange(slot: string, start: int, end: int)
    ensures ExtractHour(slot).None? <==> FindAll(Lower(slot)) == []
    ensures ExtractHour(slot).Some? ==> ExtractHour(slot).value == To24(FindAll(Lower(slot))[0])
    ensures ExtractHour(slot).Some? && start <= ExtractHour(slot).value < end ==> IsTimeInRange(slot, start, end)
  {
    SearchIsFirstOfFindAll(Lower(slot));
  }

  // ---------------------------------------------------------------------------
  // Rendering a token, as format_time_slot does for the following hour
  // ---------------------------------------------------------------------------

  /** `f"{hour}:00{period}"`. */
  function Render(t: Token): string {
    NatToDecimal(t.hour) + ":00" + PeriodText(t.period)
  }

  /** A rendered token (hour below 100) scans back to exactly that token. */
  lemma RenderRoundTrip(t: Token)
    requires t.hour < 100
    ensures Lower(Render(t)) == Render(t)
    ensures FindAll(Render(t)) == [t]
    ensures ExtractHour(Render(t)) == Some(To24(t))
  {
    var r := Render(t);
    var digits := NatToDecimal(t.hour);
    var d := |digits|;
    assert d == 1 || d == 2 by {
      if t.hour >= 10 {
        assert |NatToDecimal(t.hour / 10)| == 1;
      }
    }
    DecimalRoundTrip(t.hour);
    assert r[0..d] == digits;
    assert MatchShape(r, 0, d, d + 3, t.period);
    MatchAtComplete(r, 0, d, d + 3, t.period);
    assert FindAllFrom(r, |r|) == [];
    assert FindAll(r) == [t];
    forall k | 0 <= k < |r|
      ensures LowerChar(r[k]) == r[k]
    {
      if k < d {
        assert r[k] == digits[k];
      }
    }
    assert Lower(r) == r;
    SearchIsFirstOfFindAll(r);
  }
}

# Tennis court booking: the decision rules, modelled in Dafny

The booking script (`tennis_booking.py`) drives a browser through a court
booking page. It finds bookable one-hour time slots between 2pm and 9pm and
clicks them. When it can, it picks a block of consecutive hours. After each
slot it clicks a court button (courts 6 to 10) and keeps to the same court for
every slot. Then it clicks the blue "Book" arrow and answers the confirmation
dialog. The whole attempt is retried up to five times. The companion script
(`test_buttons.py`) clicks Book and Confirm through fixed selector lists,
records each test and prints statistics.

The project models the decision rules inside both scripts. Every Selenium read
(`text`, `get_attribute`, `is_displayed`, `is_enabled`, `location`, `size`)
becomes a field of an immutable `Element` record (`elements.dfy`). Every
element lookup becomes an input:

- a list of elements;
- a function from selector to `Option<Element>`;
- for the court buttons, a function from slot position to the court panel the
  page shows after that slot was clicked.

Each rule is then a pure function, and its contract or a lemma states what the
script promises.

| file | module | what it models |
|---|---|---|
| `text.dfy` | `Text` | ASCII lower-casing, `strip`, `isdigit`, decimal rendering |
| `time_tokens.dfy` | `TimeTokens` | the `H:MM am|pm` pattern as a scanner, `re.findall`/`re.search`, 12h to 24h, `is_time_in_range`, `extract_hour` |
| `slot_format.dfy` | `SlotFormat` | `format_time_slot` |
| `slot_filter.dfy` | `SlotFilter` | strategies 1 and 2 of `find_available_slots`, de-duplication on wrapper identity (`id(elem)`) |
| `consecutive.dfy` | `Consecutive` | `find_consecutive_slots`: stable sort by hour, first run of n consecutive hours |
| `buttons.dfy` | `Buttons` | `is_button_clickable`, `is_blue_button_with_arrow`, the target choice of `click_book_button` |
| `courts.dfy` | `Courts` | `click_court_number_buttons` |
| `selection.dfy` | `Selection` | `select_slots` |
| `dialogs.dfy` | `Dialogs` | first-usable-selector search, `handle_confirmation_dialog` |
| `retry.dfy` | `Retry` | the retry loop of `main`, as a fold over per-attempt outcomes |
| `button_tests.dfy` | `ButtonTests` | `run_single_test`, the counts, status marks and selector tally of `print_statistics` |

Three points of the code are easy to misread, and the model follows the code
on each:

- **Exclusion words.** Strategy 1 looks for "unavailable", "booked", "reserved"
  and "disabled" only in the class. In the text it looks only for "reserved".
  Strategy 2 applies its exclusions to the label it reads.
- **Book target ranking.** Blue arrow buttons take priority. Buttons
  mentioning "book" are only the fallback, not the other way round.
- **A single slot.** With one slot wanted, `select_slots` does not simply take
  the first candidate. It walks the whole pool until one slot gets a court.

The retry loop (`Retry.RunFrom`) is a fold over one `Attempt(selected, booked,
confirmed)` per attempt. Each of these three outcomes is specified on its own:

- `Selection.SelectSlots` gives `selected` (its `ok` field);
- `Buttons.ClickBookButton`, the script's scan, gives `booked` (`Some` means a button was clicked);
- `Dialogs.HandleConfirmationDialog` gives `confirmed`.

## Model

| member | source | states |
|---|---|---|
| TimeTokens.MatchAtSound | tennis_booking.py:97-98 | whatever the scanner reports at a position is a match of `(\d{1,2}):\d{2}\s*(am|pm)` there, carrying the hour its digits spell and the period |
| TimeTokens.MatchAtComplete | tennis_booking.py:97-98 | every match of the pattern at a position is reported by the scanner with that hour and period, so scanner and pattern agree |
| TimeTokens.FirstMatchFrom | tennis_booking.py:500 | the leftmost position where the pattern matches, with no match before it; None exactly when it matches nowhere |
| TimeTokens.SearchIsFirstOfFindAll | tennis_booking.py:499-510 | `re.search` yields exactly the first token `re.findall` lists, so `extract_hour` reads the first token `is_time_in_range` looks at |
| TimeTokens.NoTokensIffNoMatch | tennis_booking.py:97-101 | `findall` finds nothing exactly when the pattern matches at no position |
| TimeTokens.TokenHasColon | tennis_booking.py:173-175 | a label holding a time token contains a colon |
| TimeTokens.ClockRoundTrip | tennis_booking.py:107-113 | on readings 1 to 12 the 12h-to-24h rule lands in 0..23 and is inverted by the standard 12-hour reading of the day hour |
| TimeTokens.DayHourRoundTrip | tennis_booking.py:107-113 | converting the 12-hour reading of any day hour back gives that hour, so the rule is a bijection onto 0..23 |
| TimeTokens.KnownConversions | tennis_booking.py:107-113 | 12am is 0, 12pm is 12, 1pm is 13, 11pm is 23, 1am is 1 |
| TimeTokens.AnyInRange | tennis_booking.py:103-119 | the loop over tokens answers true exactly when some token converts into [start, end) |
| TimeTokens.IsTimeInRange | tennis_booking.py:79-121 | a label is in range exactly when some token of its lower-cased text converts into [start, end), and never when it has no token |
| TimeTokens.NoMatchNotInRange | tennis_booking.py:100-101 | a label where the pattern matches nowhere is not in range |
| TimeTokens.ExtractHourAgreesWithRange | tennis_booking.py:499-510 | no hour exactly when no token; the hour is the converted first token; an extracted hour in range makes the label in range |
| TimeTokens.RenderRoundTrip | tennis_booking.py:478 | a rendered `H:00am/pm` reading is lower case and scans back to exactly that one token and its 24-hour value |
| SlotFormat.NextHour | tennis_booking.py:459-476 | the hour after a reading is a clock reading whose 24-hour value is one more, modulo 24 |
| SlotFormat.NextHourAsWrittenDiffers | tennis_booking.py:459-476 | the script's next-hour arithmetic agrees with the clock on every reading except 12am and 11pm |
| SlotFormat.FormatRenderedLabel | tennis_booking.py:446-478 | a label that is one rendered reading gets " - " and the following hour appended, and that appended time scans back to the hour after |
| SlotFormat.MidnightLabel | tennis_booking.py:467-473 | "12:00am" is followed by "1:00pm" as written, and by "1:00am" on the clock |
| SlotFormat.ElevenPmLabel | tennis_booking.py:460-466 | "11:00pm" is followed by "12:00pm" (noon) as written, and by "12:00am" on the clock |
| SlotFormat.FormatKeepsLabelAsWritten | tennis_booking.py:446-482 | the script's text always starts with the stripped label and is just that label when it holds a dash or no token; otherwise it is the label, " - " and the script's next hour, which is one hour after the extracted hour on every reading except 12am and 11pm |
| SlotFormat.FormatKeepsLabel | tennis_booking.py:446-482 | the corrected formatting keeps the same label prefix and the same unchanged cases, and the end time it appends is one hour after the extracted hour on every reading |
| SlotFilter.KeepCellRule | tennis_booking.py:149-184 | strategy 1 keeps a cell exactly when it is shown, its class has no unavailable word, its text is not a number and has no "reserved", its label has a token in range, and it is clickable or a `td` |
| SlotFilter.InRangeHasMarker | tennis_booking.py:173-180 | the colon/am/pm marker test never rejects a label that is in range, so it adds nothing to the range test |
| SlotFilter.ScanCellsSpec | tennis_booking.py:146-188 | strategy 1 yields, in page order, the slot of every cell it keeps and nothing else |
| SlotFilter.ScanFallbackSpec | tennis_booking.py:193-222 | strategy 2 yields, in selector order, the slot of every element it keeps and nothing else |
| SlotFilter.ScanCellsHandles | tennis_booking.py:149-184 | the elements of strategy 1's slots are exactly the cells it keeps |
| SlotFilter.ScanCellsEmpty | tennis_booking.py:193 | strategy 1 finds nothing exactly when no cell passes its rule, which is when strategy 2 runs |
| SlotFilter.ScanFallbackEmpty | tennis_booking.py:193-222 | strategy 2 finds nothing exactly when no element passes its rule |
| SlotFilter.DedupHandles | tennis_booking.py:249-258 | de-duplication loses no wrapper and holds each wrapper once |
| SlotFilter.DedupKeepsDistinct | tennis_booking.py:249-258 | a list whose wrappers are all distinct passes de-duplication unchanged |
| SlotFilter.RepeatedElementKeptTwice | tennis_booking.py:195-258 | one page element that two strategy 2 selectors both find comes back as two wrappers, and both slots are kept |
| SlotFilter.DedupFirstOccurrences | tennis_booking.py:249-258 | de-duplication keeps input order and keeps only the first occurrence of each wrapper |
| SlotFilter.AvailableSlotsSpec | tennis_booking.py:140-258 | the slots found hold each wrapper once; when strategy 1 keeps a cell they are, in page order, exactly its cells; none are found exactly when neither strategy keeps an element |
| Consecutive.WithHoursSound | tennis_booking.py:512-517 | the slots kept with hours are input slots whose label yields that hour, and there are no more of them than input slots |
| Consecutive.WithHoursComplete | tennis_booking.py:512-517 | every input slot whose label yields an hour is kept with that hour |
| Consecutive.SortByHourSpec | tennis_booking.py:519-520 | the sort orders by hour, is a permutation, and keeps the input order of slots with equal hours (stable) |
| Consecutive.ScanFromSpec | tennis_booking.py:522-534 | the scan returns the first start of a run of n consecutive hours, finds none for n = 1, and None means there is no run |
| Consecutive.FindConsecutiveIsFirstRun | tennis_booking.py:485-534 | a block found is the earliest run of n in the sorted order; none is found for n = 1 or when fewer than n slots have hours |
| Consecutive.FindConsecutiveRun | tennis_booking.py:513-534 | a block found has exactly n input slots, each with an hour one more than the one before |
| Consecutive.FirstRunExample | tennis_booking.py:519-534 | with hours 14, 15, 17, 18 and n = 2 the block 14-15 is chosen |
| Buttons.ClickableIffNotGreyedOut | tennis_booking.py:295-331 | a court button is clickable exactly when it is enabled and neither its class nor its style says grey |
| Buttons.SelectedGreenIsClickable | tennis_booking.py:320-326 | a selected green button is still judged clickable: the "already selected" rejection can never fire |
| Buttons.BlueStyleRule | tennis_booking.py:662-671 | the blue test is the same without "background-color: blue", which is implied by "blue" |
| Buttons.MarkupCountsAsArrow | tennis_booking.py:675-692 | the arrow test accepts any inner HTML holding '>', so a non-number, non-disabled button with a child element is the blue arrow exactly when it is blue, whatever its text and size |
| Buttons.PickBottomRight | tennis_booking.py:785-802 | every non-empty candidate list has a choice, and it is the bottom-right candidate: nothing lies lower, or level and further right, and ties go to the first |
| Buttons.PickBottomRightAsWritten | tennis_booking.py:785-802 | the script's scan from the (-1, -1) start picks the bottom-right candidate, and picks nothing exactly when no candidate lies after (-1, -1) |
| Buttons.BottomRightUnique | tennis_booking.py:796-800 | at most one candidate is bottom-right |
| Buttons.AsWrittenPickAgrees | tennis_booking.py:785-802 | the script's scan agrees with the intended choice whenever that choice lies after (-1, -1), and finds nothing otherwise |
| Buttons.SentinelMissesButton | tennis_booking.py:786-800 | a single candidate with y < -1, or with y = -1 and x <= -1, is lost by the script's scan but chosen by the intended one |
| Buttons.BlueCandidatesExist | tennis_booking.py:752-766 | the blue arrow list is non-empty exactly when some candidate is a blue arrow |
| Buttons.BookTargetsSpec | tennis_booking.py:752-783 | the targets are candidates: all blue arrows when there is one, otherwise all that mention "book" |
| Buttons.TargetsExist | tennis_booking.py:752-783 | there are targets exactly when some candidate is a blue arrow or mentions "book" |
| Buttons.ClickBookButton | tennis_booking.py:711-836 | the script's Book step: nothing is clicked exactly when no target lies after (-1, -1), so always when no candidate is a blue arrow or mentions "book"; a clicked button is a target after (-1, -1) that no target lies after |
| Buttons.ClickBookButtonIntended | tennis_booking.py:711-836 | with the intended bottom-right choice nothing is clicked exactly when no candidate is a blue arrow or mentions "book"; a clicked button is a target that no target lies after |
| Buttons.SentinelMissesBookButton | tennis_booking.py:786-800 | a lone "Book" button above or left of (-1, -1) is not clicked by the script's Book step, but is by the intended one |
| Courts.NumberedButtons | tennis_booking.py:353-368 | the first strategy yields exactly the shown buttons whose text is a wanted court number, with that number |
| Courts.NumberedButtonsOrder | tennis_booking.py:353-368 | the first strategy's buttons come in page order: they are a subsequence of the page's buttons |
| Courts.FirstShown | tennis_booking.py:382-392 | the button of the first per-court selector that finds a shown one; None exactly when none does |
| Courts.LocatedButtons | tennis_booking.py:370-392 | the second strategy yields, for exactly the wanted courts some selector finds, the first button found |
| Courts.LocatedButtonsOrder | tennis_booking.py:370-392 | the second strategy's courts come in the order asked for: they are a subsequence of the wanted courts |
| Courts.FirstClickable | tennis_booking.py:396-430 | the first candidate judged clickable; None exactly when none is |
| Courts.ClickCourtNumberButton | tennis_booking.py:334-433 | a court is clicked exactly when some candidate is clickable; it is one of the courts looked for, and the court of the first clickable candidate |
| Courts.CourtChoiceRule | tennis_booking.py:351-425 | with a remembered court only that court is clicked; without, one of 6 to 10; never court 0 |
| Courts.SkipsGreyCourt | tennis_booking.py:397-427 | a disabled court 6 is passed over for a clickable court 7 after it |
| Selection.PlanSpec | tennis_booking.py:557-577 | n >= 2 with a block gives that block and requires n; without a block, only the first slot and requires 1; otherwise the whole pool; the "too few slots" check never fires |
| Selection.PanelChooserRespectsCourt | tennis_booking.py:600-608 | the court clicked after a slot is the remembered one when there is one, and one of 6 to 10 otherwise |
| Selection.SelectLoopCount | tennis_booking.py:588-618 | the loop keeps earlier picks as a prefix and never makes more than required |
| Selection.SelectLoopClicked | tennis_booking.py:600-612 | every pick the loop adds is a target slot after which the court click, given the court remembered then, returned the pick's court |
| Selection.SelectLoopProgress | tennis_booking.py:588-618 | when every court click succeeds and enough target slots remain, the loop makes exactly the required number of picks |
| Selection.SelectLoopCourt | tennis_booking.py:600-612 | every pick made is on the first pick's court |
| Selection.SelectLoopOrder | tennis_booking.py:588-612 | the picked slots are target slots in target order, each at most once |
| Selection.SelectFromSpec | tennis_booking.py:551-635 | an empty pool fails with no picks; otherwise success exactly when the required count was reached, never more picks, all on one court among 6 to 10, in order, from the pool |
| Selection.SelectFromClicked | tennis_booking.py:588-618 | every pick of a selection is a target slot whose court click returned the pick's court |
| Selection.SelectFromSucceeds | tennis_booking.py:551-635 | with a non-empty pool and a court click that always succeeds, the selection succeeds with exactly the required number of picks |
| Selection.SelectSlotsSpec | tennis_booking.py:551-635 | the same on the page's own slots: no slot found between 2pm and 9pm means failure with no picks; success exactly when the required count was reached; every pick is a found slot whose court click returned its court |
| Dialogs.FirstUsableSpec | test_buttons.py:76-108 | the search index is the first selector whose element is shown and enabled; None exactly when there is none |
| Dialogs.FindAndClick | test_buttons.py:76-108 | a click is reported exactly when some selector is usable, together with the first usable selector; otherwise (false, None) |
| Dialogs.FirstSelectorWins | test_buttons.py:76-102 | when the first Book selector is usable it is the one reported, whatever the later ones find |
| Dialogs.HandleConfirmationDialog | tennis_booking.py:877-937 | the dialog is handled exactly when one of the Confirm (or Cancel) selectors is usable |
| Retry.RunAttempts | tennis_booking.py:987-1042 | the run completes exactly when some attempt 1..5 selects and books, at the first such attempt; otherwise all five attempts are used |
| Retry.RunFromSpec | tennis_booking.py:987-1042 | from attempt k on: completes exactly when a later attempt selects and books, stopping at the first one |
| Retry.RunFromStep | tennis_booking.py:995-1022 | a failed attempt adds its Select (and Book) steps and the run continues with the next attempt |
| Retry.RunFromStepsInOrder | tennis_booking.py:993-1029 | Book is only tried right after a successful selection of the same attempt, and the dialog only right after Book succeeded |
| Retry.RunFromConfirmLast | tennis_booking.py:1024-1042 | the dialog is the last step of a completed run and never occurs earlier or in a failed run |
| Retry.RestStartsWithSelect | tennis_booking.py:987-993 | every attempt starts with the selection |
| Retry.ConfirmDoesNotMatter | tennis_booking.py:1029-1042 | what the dialog reports changes neither whether the run completes nor after how many attempts |
| Retry.ThirdAttemptExample | tennis_booking.py:987-1042 | two failed selections then a successful one give a completed run at attempt 3 with one Book and one dialog step |
| ButtonTests.RunSingleTest | test_buttons.py:186-216 | Book succeeds exactly when a Book selector is usable, and then Confirm exactly when a Confirm selector is; a failed Book gives the all-false record |
| ButtonTests.BookFailureSkipsConfirm | test_buttons.py:194-204 | after a failed Book the Confirm page is never looked at |
| ButtonTests.RunSingleTestWellFormed | test_buttons.py:186-216 | Confirm succeeds only after Book, and each step has a selector exactly when it succeeded |
| ButtonTests.CountsOrdered | test_buttons.py:225-227 | full successes are at most Book successes, which are at most the number of tests |
| ButtonTests.CountsAppend | test_buttons.py:225-227 | both counts add up over two batches of tests |
| ButtonTests.StatusMark | test_buttons.py:273 | the mark is Done exactly when Book and Confirm succeeded, BookOnly exactly when only Book did, Failed exactly when Book failed |
| ButtonTests.MarksMatchCounts | test_buttons.py:272-274 | Done marks count full successes, Done and BookOnly marks count Book successes, Failed marks count the rest |
| ButtonTests.TallyAdd | test_buttons.py:252 | incrementing a key raises its lookup by one and no other; keys keep insertion order, a new key goes last |
| ButtonTests.AddKeepsDistinct | test_buttons.py:252 | the tally never holds a key twice |
| ButtonTests.TallySpec | test_buttons.py:247-263 | the tally holds each selector once, with the number of successful records that used it |
| ButtonTests.TallyEmpty | test_buttons.py:254 | the tally is empty exactly when no record succeeded with a selector |
| ButtonTests.BestIndex | test_buttons.py:255 | the index of an entry whose count no entry exceeds, with every earlier entry strictly smaller (Python's `max` keeps the first) |
| ButtonTests.BestSelectorSpec | test_buttons.py:247-267 | the best selector's count is its number of uses and no selector was used more; ties go to the first tallied; for test records one is reported exactly when some record is counted |

## Left out

- Browser session setup (`setup_driver` in both scripts) and every Selenium call: finding elements, clicking, scrolling, waiting. Elements and lookups are inputs.
- `print` output and `time.sleep` pacing, the strategy 3 debug listing of `find_available_slots` (tennis_booking.py:224-247), and the listing of dialog buttons in `handle_confirmation_dialog` and the Confirm search. These change no result.
- Exceptions. The model has none. In strategy 1 a cell whose reads raise is skipped; that is modelled as the cell being excluded. In strategy 2 an exception drops the rest of that selector's elements (tennis_booking.py:203-222); the model reads every element of the list. A lookup that raises is modelled as returning None. The `KeyboardInterrupt` and top-level handlers of both `main` functions are not modelled.
- Floating-point success rates and `datetime` timestamps in `test_buttons.py`.
- The test script's `main`, which runs ten tests in a row. Its records are an arbitrary sequence here.
- Unicode. `lower`, `strip`, `isdigit`, `\d` and `\s` are modelled on ASCII only; whitespace is space, tab, line feed, carriage return, U+000B, U+000C and U+001C to U+001F. The arrow characters are kept as literals.
- Retry.RunFrom: the loop takes the three outcomes of each attempt as given. Connecting them to page states through `Selection.SelectSlots`, `Buttons.ClickBookButton` and `Dialogs.HandleConfirmationDialog` is not modelled, and nor is the one-second wait between attempts.
- Selection.SelectLoop: the court panel after the i-th slot click is an input indexed by i. That the page reacts to earlier clicks is not modelled.
- Selection.SelectLoop: the label formatting done for display inside the loop is not modelled. It does not affect the result.
- Courts.ClickCourtNumberButton: `stop_on_first` is always true in the script, so only that branch is modelled. The court list is always 6 to 10.
- Buttons.ClickBookButton: the `test_mode` flag only changes messages. A failing click after the target was chosen (the `except` at tennis_booking.py:831-833) is not modelled.
- Consecutive.FindConsecutive: requires n >= 1. With n = 0 the outer loop reaches `i = len(slots_with_hours)` and the index raises `IndexError` on every input (tennis_booking.py:523-524). The script only calls it with n >= 2.
- SlotFilter.Dedup: de-duplication is on wrapper identity (`id(elem)`). The model has no notion of one page element behind two wrappers, so a page element found by two strategy 2 selectors is kept twice (`SlotFilter.RepeatedElementKeptTwice`).
- Elements.Element: `location` is rounded to whole pixels by Selenium and is an integer here; `size` is kept as a real.
- `preferred_times` is passed to `select_slots` but never used, so it is absent from the model.

## Findings

| source | as written | input that shows it | evidently intended | confidence | as-written member | corrected member |
|---|---|---|---|---|---|---|
| tennis_booking.py:786-800 | the bottom-right scan starts from max_y = max_x = -1, so a candidate with y < -1, or with y = -1 and x <= -1, is never chosen, and the script reports no Book button | a single "Book" button located at y = -5 (`Buttons.SentinelMissesButton`, `Buttons.SentinelMissesBookButton`) | the bottom-right of all candidates, whatever their coordinates | low; negative positions need off-page elements; not executed | Buttons.ClickBookButton | Buttons.ClickBookButtonIntended |
| tennis_booking.py:467-473 | the am branch turns 12am into hour 13 - 12 = 1 with period "pm" | the label "12:00am" is formatted as "12:00am - 1:00pm" (`SlotFormat.MidnightLabel`) | "12:00am - 1:00am" | medium for the arithmetic; the label must still hold an hour between 2pm and 9pm to be selected; not executed | SlotFormat.MidnightLabel | SlotFormat.NextHour |
| tennis_booking.py:460-466 | the pm branch turns 11pm into hour 12 and keeps period "pm" | the label "11:00pm" is formatted as "11:00pm - 12:00pm", i.e. noon (`SlotFormat.ElevenPmLabel`) | "11:00pm - 12:00am" | medium for the arithmetic; the label must still hold an hour between 2pm and 9pm to be selected; not executed | SlotFormat.ElevenPmLabel | SlotFormat.NextHour |

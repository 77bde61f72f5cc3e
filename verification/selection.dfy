/**
 * Selecting the time slots to book: prefer a block of consecutive hours,
 * fall back to a single slot, then click each target slot and a court for
 * it, keeping to the court chosen for the first slot.
 */
module Selection {
  import opened Wrappers
  import opened Seqs
  import opened Elements
  import opened SlotFilter
  import opened Consecutive
  import opened Courts

  /** Slots are only taken between 2:00pm (inclusive) and 9:00pm (exclusive). */
  const RangeStart: int := 14
  const RangeEnd: int := 21

  /** One selected slot and the court clicked for it. */
  datatype Pick = Pick(slot: Slot, court: nat)

  /** The slots to click and how many of them must get a court. */
  datatype Plan = Plan(target: seq<Slot>, required: int)

  /**
   * The result of a selection: `ok` and `count` are what the script returns;
   * `required`, `target` and `picks` record how it got there.
   */
  datatype Outcome = Outcome(ok: bool, count: nat, required: int, target: seq<Slot>, picks: seq<Pick>)

  /**
   * The plan for a non-empty pool: for two or more slots the first
   * consecutive block if there is one, otherwise just the first slot; for
   * fewer, the whole pool.
   */
  function PlanFor(avail: seq<Slot>, numSlots: int): Plan
    requires |avail| > 0
  {
    if numSlots >= 2 then
      match FindConsecutive(avail, numSlots)
      case Some(run) => Plan(run, numSlots)
      case None => Plan(avail[..1], 1)
    else
      Plan(avail, numSlots)
  }

  /**
   * The plan asks for the whole block when one exists, degrades to one slot
   * when it does not, and always has at least as many slots as it requires
   * (so the script's "too few slots" check never fails).
   */
  lemma PlanSpec(avail: seq<Slot>, numSlots: int)
    requires |avail| > 0
    ensures var p := PlanFor(avail, numSlots);
      && |p.target| >= p.required
      && (forall k :: 0 <= k < |p.target| ==> p.target[k] in avail)
      && (numSlots >= 2 && FindConsecutive(avail, numSlots).Some? ==>
            p.required == numSlots && p.target == FindConsecutive(avail, numSlots).value)
      && (numSlots >= 2 && FindConsecutive(avail, numSlots).None? ==>
            p.required == 1 && p.target == [avail[0]])
      && (numSlots < 2 ==> p.required == numSlots && p.target == avail)
  {
    if numSlots >= 2 {
      FindConsecutiveRun(avail, numSlots);
    }
  }

  function SlotOfPick(p: Pick): Slot {
    p.slot
  }

  /** The slots of the picks, in order. */
  function PickedSlots(picks: seq<Pick>): seq<Slot> {
    Map(picks, SlotOfPick)
  }

  /** Every pick is on the same court, one of courts 6 to 10. */
  ghost predicate OneCourt(picks: seq<Pick>) {
    forall k :: 0 <= k < |picks| ==> picks[k].court == picks[0].court && picks[k].court in CourtNumbers
  }

  /**
   * The court picker the loop uses: `choose(i, court)` is the court clicked
   * after the i-th target slot, given the remembered court.
   */
  type Chooser = (nat, Option<nat>) -> Option<nat>

  /** The picker clicks on the remembered court, or one of courts 6 to 10 when there is none. */
  ghost predicate RespectsCourt(choose: Chooser) {
    forall i, court ::
      choose(i, court).Some? ==>
        (court.Some? && court.value in CourtNumbers ==> choose(i, court) == court)
        && (court.None? ==> choose(i, court).value in CourtNumbers)
  }

  /** The script's court picker: the court panel shown after the i-th slot click. */
  function PanelChooser(panels: nat -> CourtPanel): Chooser {
    (i: nat, court: Option<nat>) => ClickCourtNumberButton(panels(i), court)
  }

  /** The script's picker keeps to the remembered court. */
  lemma PanelChooserRespectsCourt(panels: nat -> CourtPanel)
    ensures RespectsCourt(PanelChooser(panels))
  {
    forall i: nat, court: Option<nat> | PanelChooser(panels)(i, court).Some?
      ensures (court.Some? && court.value in CourtNumbers ==> PanelChooser(panels)(i, court) == court)
              && (court.None? ==> PanelChooser(panels)(i, court).value in CourtNumbers)
    {
      CourtChoiceRule(panels(i), court);
    }
  }

  /**
   * The selection loop from the i-th target slot on: stop once `required`
   * picks are made; otherwise click the slot, then a court (the remembered
   * one if any), and on success record the pick and remember the court.
   */
  function SelectLoop(target: seq<Slot>, i: nat, required: int, choose: Chooser,
                      court: Option<nat>, picks: seq<Pick>): seq<Pick>
    requires i <= |target|
    decreases |target| - i
  {
    if i == |target| || |picks| >= required then picks
    else
      match choose(i, court)
      case None => SelectLoop(target, i + 1, required, choose, court, picks)
      case Some(c) =>
        SelectLoop(target, i + 1, required, choose, if court.Some? then court else Some(c), picks + [Pick(target[i], c)])
  }

  /** The loop keeps the picks made so far as a prefix and never makes more picks than required. */
  lemma {:induction false} SelectLoopCount(target: seq<Slot>, i: nat, required: int, choose: Chooser,
                                           court: Option<nat>, picks: seq<Pick>)
    requires i <= |target|
    ensures var r := SelectLoop(target, i, required, choose, court, picks);
      picks <= r && |r| <= (if |picks| >= required then |picks| else required)
    decreases |target| - i
  {
    if i < |target| && |picks| < required {
      var choice := choose(i, court);
      if choice.None? {
        SelectLoopCount(target, i + 1, required, choose, court, picks);
      } else {
        var c := choice.value;
        SelectLoopCount(target, i + 1, required, choose, if court.Some? then court else Some(c), picks + [Pick(target[i], c)]);
      }
    }
  }

  /** The loop keeps every pick on the first pick's court. */
  lemma {:induction false} SelectLoopCourt(target: seq<Slot>, i: nat, required: int, choose: Chooser,
                                           court: Option<nat>, picks: seq<Pick>)
    requires i <= |target|
    requires RespectsCourt(choose)
    requires OneCourt(picks)
    requires court == (if |picks| > 0 then Some(picks[0].court) else None)
    ensures OneCourt(SelectLoop(target, i, required, choose, court, picks))
    decreases |target| - i
  {
    if i < |target| && |picks| < required {
      var choice := choose(i, court);
      if choice.None? {
        SelectLoopCourt(target, i + 1, required, choose, court, picks);
      } else {
        var c := choice.value;
        var next := picks + [Pick(target[i], c)];
        var court' := if court.Some? then court else Some(c);
        assert court' == Some(next[0].court);
        SelectLoopCourt(target, i + 1, required, choose, court', next);
      }
    }
  }

  /**
   * Pick `k` of `r` was made at some target slot `j` from `i` on: the slot
   * is `target[j]` and the picker, given the court remembered before pick `k`
   * (none for the first pick, the first pick's court after it), clicked the
   * pick's court there.
   */
  ghost predicate ClickedAt(target: seq<Slot>, i: nat, choose: Chooser, r: seq<Pick>, k: nat)
    requires k < |r|
  {
    exists j :: i <= j < |target| && r[k].slot == target[j]
                && choose(j, if k == 0 then None else Some(r[0].court)) == Some(r[k].court)
  }

  /** Every pick of `r` from index `from` on was made at some target slot from `i` on. */
  ghost predicate AllClicked(target: seq<Slot>, i: nat, choose: Chooser, r: seq<Pick>, from: nat) {
    forall k :: from <= k < |r| ==> ClickedAt(target, i, choose, r, k)
  }

  /** A pick made from slot `i + 1` on was made from slot `i` on. */
  lemma ClickedEarlier(target: seq<Slot>, i: nat, choose: Chooser, r: seq<Pick>, from: nat)
    requires AllClicked(target, i + 1, choose, r, from)
    ensures AllClicked(target, i, choose, r, from)
  {
    forall k | from <= k < |r|
      ensures ClickedAt(target, i, choose, r, k)
    {
      assert ClickedAt(target, i + 1, choose, r, k);
      var j :| i + 1 <= j < |target| && r[k].slot == target[j]
               && choose(j, if k == 0 then None else Some(r[0].court)) == Some(r[k].court);
    }
  }

  /** Every pick the loop adds is a slot whose court click succeeded. */
  lemma {:induction false} SelectLoopClicked(target: seq<Slot>, i: nat, required: int, choose: Chooser,
                                             court: Option<nat>, picks: seq<Pick>)
    requires i <= |target|
    requires court == (if |picks| > 0 then Some(picks[0].court) else None)
    ensures AllClicked(target, i, choose, SelectLoop(target, i, required, choose, court, picks), |picks|)
    decreases |target| - i
  {
    if i < |target| && |picks| < required {
      var r := SelectLoop(target, i, required, choose, court, picks);
      match choose(i, court)
      case None =>
        SelectLoopClicked(target, i + 1, required, choose, court, picks);
        assert r == SelectLoop(target, i + 1, required, choose, court, picks);
        ClickedEarlier(target, i, choose, r, |picks|);
      case Some(c) =>
        var next := picks + [Pick(target[i], c)];
        var court' := if court.Some? then court else Some(c);
        assert court' == Some(next[0].court);
        SelectLoopClicked(target, i + 1, required, choose, court', next);
        SelectLoopCount(target, i + 1, required, choose, court', next);
        assert r == SelectLoop(target, i + 1, required, choose, court', next);
        ClickedEarlier(target, i, choose, r, |next|);
        assert r[|picks|] == next[|picks|];
        assert |picks| > 0 ==> r[0] == picks[0];
        assert ClickedAt(target, i, choose, r, |picks|);
    }
  }

  /**
   * From slot `i` on, the picker finds a court after every slot, whether
   * or not one of courts 6 to 10 is remembered.
   */
  ghost predicate AlwaysChooses(choose: Chooser, i: nat) {
    forall j: nat, court: Option<nat> ::
      i <= j && (court.None? || court.value in CourtNumbers) ==> choose(j, court).Some?
  }

  /**
   * When every court click succeeds and enough target slots remain, the loop
   * makes exactly the required number of picks.
   */
  lemma {:induction false} SelectLoopProgress(target: seq<Slot>, i: nat, required: int, choose: Chooser,
                                              court: Option<nat>, picks: seq<Pick>)
    requires i <= |target|
    requires RespectsCourt(choose) && AlwaysChooses(choose, i)
    requires court.None? || court.value in CourtNumbers
    requires |target| - i >= required - |picks|
    ensures |SelectLoop(target, i, required, choose, court, picks)| == (if |picks| >= required then |picks| else required)
    decreases |target| - i
  {
    if i < |target| && |picks| < required {
      var c := choose(i, court).value;
      var court' := if court.Some? then court else Some(c);
      SelectLoopProgress(target, i + 1, required, choose, court', picks + [Pick(target[i], c)]);
    }
  }

  /** The loop picks target slots in order, each at most once. */
  lemma {:induction false} SelectLoopOrder(target: seq<Slot>, i: nat, required: int, choose: Chooser,
                                           court: Option<nat>, picks: seq<Pick>)
    requires i <= |target|
    requires IsSubsequence(PickedSlots(picks), target[..i])
    ensures IsSubsequence(PickedSlots(SelectLoop(target, i, required, choose, court, picks)), target)
    decreases |target| - i
  {
    if i == |target| || |picks| >= required {
      SubsequenceOfPrefix(PickedSlots(picks), target, i);
    } else {
      assert target[..i + 1] == target[..i] + [target[i]];
      SubsequenceExtend(PickedSlots(picks), target[..i], target[i]);
      var choice := choose(i, court);
      if choice.None? {
        SelectLoopOrder(target, i + 1, required, choose, court, picks);
      } else {
        var next := picks + [Pick(target[i], choice.value)];
        assert PickedSlots(next) == PickedSlots(picks) + [target[i]];
        SelectLoopOrder(target, i + 1, required, choose, if court.Some? then court else choice, next);
      }
    }
  }

  /** A subsequence of a prefix is a subsequence of the whole. */
  lemma {:induction false} SubsequenceOfPrefix<T>(a: seq<T>, b: seq<T>, i: nat)
    requires i <= |b|
    requires IsSubsequence(a, b[..i])
    ensures IsSubsequence(a, b)
    decreases |b| - i
  {
    if i < |b| {
      assert b[..i + 1] == b[..i] + [b[i]];
      SubsequenceExtend(a, b[..i], b[i]);
      SubsequenceOfPrefix(a, b, i + 1);
    } else {
      assert b[..i] == b;
    }
  }

  /**
   * The selection from a pool of available slots: (false, 0) for an empty
   * pool or too few target slots; otherwise success exactly when the loop
   * made as many picks as required.
   */
  function SelectFrom(avail: seq<Slot>, numSlots: int, panels: nat -> CourtPanel): Outcome {
    if |avail| == 0 then Outcome(false, 0, numSlots, [], [])
    else
      var plan := PlanFor(avail, numSlots);
      if |plan.target| < plan.required then Outcome(false, 0, plan.required, plan.target, [])
      else
        var picks := SelectLoop(plan.target, 0, plan.required, PanelChooser(panels), None, []);
        Outcome(|picks| >= plan.required, |picks|, plan.required, plan.target, picks)
  }

  /** The selection over the slots the page offers between 2pm and 9pm. */
  function SelectSlots(cells: seq<Element>, fallback: seq<seq<Element>>, numSlots: int,
                       panels: nat -> CourtPanel): Outcome {
    SelectFrom(FindAvailableSlots(cells, fallback, RangeStart, RangeEnd), numSlots, panels)
  }

  /**
   * An empty pool fails with no picks. Otherwise the selection succeeds
   * exactly when it picked the required number of slots (none when at most
   * zero are asked for), never picks more, picks target slots in order,
   * each from the pool, and books every pick on one court among 6 to 10.
   */
  lemma SelectFromSpec(avail: seq<Slot>, numSlots: int, panels: nat -> CourtPanel)
    ensures var o := SelectFrom(avail, numSlots, panels);
      && (|avail| == 0 ==> !o.ok && o.count == 0)
      && (|avail| > 0 ==> (o.ok <==> o.count == (if o.required > 0 then o.required else 0)))
      && (|avail| > 0 ==> o.required == PlanFor(avail, numSlots).required && o.target == PlanFor(avail, numSlots).target)
      && o.count == |o.picks|
      && o.count <= (if o.required > 0 then o.required else 0)
      && OneCourt(o.picks)
      && IsSubsequence(PickedSlots(o.picks), o.target)
      && (forall k :: 0 <= k < |o.picks| ==> o.picks[k].slot in avail)
  {
    var o := SelectFrom(avail, numSlots, panels);
    if |avail| > 0 {
      PlanSpec(avail, numSlots);
      var plan := PlanFor(avail, numSlots);
      assert plan.target[..0] == [];
      assert PickedSlots([]) == [];
      PanelChooserRespectsCourt(panels);
      SelectLoopCount(plan.target, 0, plan.required, PanelChooser(panels), None, []);
      SelectLoopCourt(plan.target, 0, plan.required, PanelChooser(panels), None, []);
      SelectLoopOrder(plan.target, 0, plan.required, PanelChooser(panels), None, []);
      SubsequenceMembers(PickedSlots(o.picks), o.target);
      assert forall k :: 0 <= k < |o.picks| ==> o.picks[k].slot in o.target by {
        forall k | 0 <= k < |o.picks|
          ensures o.picks[k].slot in o.target
        {
          assert PickedSlots(o.picks)[k] == o.picks[k].slot;
        }
      }
    }
  }

  /**
   * Every pick of a selection is a target slot after which the court panel
   * offered the pick's court (given the court remembered at that point).
   */
  lemma SelectFromClicked(avail: seq<Slot>, numSlots: int, panels: nat -> CourtPanel)
    ensures var o := SelectFrom(avail, numSlots, panels);
      AllClicked(o.target, 0, PanelChooser(panels), o.picks, 0)
  {
    if |avail| > 0 {
      var plan := PlanFor(avail, numSlots);
      if |plan.target| >= plan.required {
        SelectLoopClicked(plan.target, 0, plan.required, PanelChooser(panels), None, []);
      }
    }
  }

  /**
   * When the pool is not empty and every court panel offers a clickable
   * court, the selection succeeds with exactly the required number of picks.
   */
  lemma SelectFromSucceeds(avail: seq<Slot>, numSlots: int, panels: nat -> CourtPanel)
    requires |avail| > 0
    requires AlwaysChooses(PanelChooser(panels), 0)
    ensures var o := SelectFrom(avail, numSlots, panels);
      o.ok && o.count == (if o.required > 0 then o.required else 0)
  {
    var plan := PlanFor(avail, numSlots);
    PlanSpec(avail, numSlots);
    PanelChooserRespectsCourt(panels);
    SelectLoopProgress(plan.target, 0, plan.required, PanelChooser(panels), None, []);
  }

  /**
   * The same for the page's own slots: the selection fails with no picks when
   * no slot between 2pm and 9pm is found, and otherwise succeeds exactly when
   * the required number was picked; every pick is such a slot, clicked with a
   * court the panel offered.
   */
  lemma SelectSlotsSpec(cells: seq<Element>, fallback: seq<seq<Element>>, numSlots: int, panels: nat -> CourtPanel)
    ensures var avail := FindAvailableSlots(cells, fallback, RangeStart, RangeEnd);
      var o := SelectSlots(cells, fallback, numSlots, panels);
      && (|avail| == 0 ==> !o.ok && o.count == 0)
      && (|avail| > 0 ==> (o.ok <==> o.count == (if o.required > 0 then o.required else 0)))
      && o.count <= (if o.required > 0 then o.required else 0)
      && OneCourt(o.picks)
      && (forall k :: 0 <= k < |o.picks| ==> o.picks[k].slot in avail)
      && AllClicked(o.target, 0, PanelChooser(panels), o.picks, 0)
  {
    var avail := FindAvailableSlots(cells, fallback, RangeStart, RangeEnd);
    SelectFromSpec(avail, numSlots, panels);
    SelectFromClicked(avail, numSlots, panels);
  }
}

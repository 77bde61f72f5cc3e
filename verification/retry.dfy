/**
 * The booking script's top level: up to `MaxRetries` attempts, each
 * selecting slots, then clicking Book, then handling the confirmation
 * dialog; the first attempt that gets past Book ends the run.
 */
module Retry {
  /** The configured number of attempts. */
  const MaxRetries: nat := 5

  /**
   * What one attempt's three steps report: whether the slot selection
   * succeeded, whether a Book button was clicked, and whether the dialog
   * was handled.
   */
  datatype Attempt = Attempt(selected: bool, booked: bool, confirmed: bool)

  /** A step the run performs, tagged with its attempt number. */
  datatype Step = Select(attempt: nat, ok: bool) | Book(attempt: nat, ok: bool) | Confirm(attempt: nat, ok: bool)

  /**
   * The end of a run: `completed` when some attempt got past Book, in which
   * case `attempts` is that attempt's number; `trace` lists every step.
   */
  datatype Run = Run(completed: bool, attempts: nat, trace: seq<Step>)

  /**
   * The attempts from number `k` on; `outcomes[k - 1]` is what attempt `k`
   * reports. Selection failing or Book failing moves on to the next
   * attempt; otherwise the dialog is handled and the run ends, whatever the
   * dialog reports.
   */
  function RunFrom(outcomes: seq<Attempt>, k: nat): Run
    requires 1 <= k
    decreases |outcomes| + 1 - k
  {
    if k > |outcomes| then Run(false, |outcomes|, [])
    else
      var a := outcomes[k - 1];
      if !a.selected then
        var rest := RunFrom(outcomes, k + 1);
        Run(rest.completed, rest.attempts, [Select(k, false)] + rest.trace)
      else if !a.booked then
        var rest := RunFrom(outcomes, k + 1);
        Run(rest.completed, rest.attempts, [Select(k, true), Book(k, false)] + rest.trace)
      else
        Run(true, k, [Select(k, true), Book(k, true), Confirm(k, a.confirmed)])
  }

  /**
   * The whole run, one outcome per attempt: it completes exactly when some
   * attempt gets past Book, and then at the first such attempt.
   */
  function RunAttempts(outcomes: seq<Attempt>): (r: Run)
    requires |outcomes| == MaxRetries
    ensures r.completed <==> exists j :: 1 <= j <= MaxRetries && Succeeds(outcomes, j)
    ensures r.completed ==> 1 <= r.attempts <= MaxRetries && Succeeds(outcomes, r.attempts)
                            && forall j :: 1 <= j < r.attempts ==> !Succeeds(outcomes, j)
    ensures !r.completed ==> r.attempts == MaxRetries
  {
    RunFromSpec(outcomes, 1);
    RunFrom(outcomes, 1)
  }

  /** Attempt `k` (numbered from 1) gets past Book. */
  predicate Succeeds(outcomes: seq<Attempt>, k: nat) {
    1 <= k <= |outcomes| && outcomes[k - 1].selected && outcomes[k - 1].booked
  }

  /**
   * A run from attempt `k` completes exactly when some later attempt
   * succeeds, and then stops at the first such attempt.
   */
  lemma {:induction false} RunFromSpec(outcomes: seq<Attempt>, k: nat)
    requires 1 <= k
    ensures var r := RunFrom(outcomes, k);
      && (r.completed <==> exists j :: k <= j <= |outcomes| && Succeeds(outcomes, j))
      && (r.completed ==> k <= r.attempts && Succeeds(outcomes, r.attempts)
                          && forall j :: k <= j < r.attempts ==> !Succeeds(outcomes, j))
      && (!r.completed ==> r.attempts == |outcomes|)
    decreases |outcomes| + 1 - k
  {
    if k <= |outcomes| && !Succeeds(outcomes, k) {
      RunFromSpec(outcomes, k + 1);
    }
  }

  /** Every Book step follows a successful Select of the same attempt, and so does every Confirm after Book. */
  ghost predicate StepsInOrder(trace: seq<Step>) {
    forall i :: 0 <= i < |trace| ==>
      (trace[i].Book? ==> i > 0 && trace[i - 1] == Select(trace[i].attempt, true))
      && (trace[i].Confirm? ==> i > 0 && trace[i - 1] == Book(trace[i].attempt, true))
  }

  /** The steps attempt `k` adds to the trace when it does not end the run. */
  function FailedSteps(k: nat, a: Attempt): seq<Step> {
    if !a.selected then [Select(k, false)] else [Select(k, true), Book(k, false)]
  }

  /** A run that does not stop at attempt `k` continues the trace after that attempt's steps. */
  lemma RunFromStep(outcomes: seq<Attempt>, k: nat)
    requires 1 <= k <= |outcomes| && !Succeeds(outcomes, k)
    ensures RunFrom(outcomes, k).trace == FailedSteps(k, outcomes[k - 1]) + RunFrom(outcomes, k + 1).trace
    ensures RunFrom(outcomes, k).completed == RunFrom(outcomes, k + 1).completed
  {
  }

  /**
   * Book is never tried in an attempt whose selection failed, and the
   * dialog is only handled right after Book succeeded.
   */
  lemma {:induction false} RunFromStepsInOrder(outcomes: seq<Attempt>, k: nat)
    requires 1 <= k
    ensures StepsInOrder(RunFrom(outcomes, k).trace)
    decreases |outcomes| + 1 - k
  {
    if k <= |outcomes| && !Succeeds(outcomes, k) {
      RunFromStepsInOrder(outcomes, k + 1);
      RunFromStep(outcomes, k);
      RestStartsWithSelect(outcomes, k + 1);
      var head := FailedSteps(k, outcomes[k - 1]);
      var rest := RunFrom(outcomes, k + 1).trace;
      var t := head + rest;
      forall i | 0 <= i < |t|
        ensures (t[i].Book? ==> i > 0 && t[i - 1] == Select(t[i].attempt, true))
             && (t[i].Confirm? ==> i > 0 && t[i - 1] == Book(t[i].attempt, true))
      {
        if i >= |head| {
          assert t[i] == rest[i - |head|];
          if i > |head| {
            assert t[i - 1] == rest[i - 1 - |head|];
          }
        }
      }
    }
  }

  /** The dialog is the last step of a completed run and absent from a failed one. */
  lemma {:induction false} RunFromConfirmLast(outcomes: seq<Attempt>, k: nat)
    requires 1 <= k
    ensures var r := RunFrom(outcomes, k);
      && (r.completed <==> EndsWithConfirm(r.trace))
      && NoEarlyConfirm(r.trace)
    decreases |outcomes| + 1 - k
  {
    if k <= |outcomes| && !Succeeds(outcomes, k) {
      RunFromConfirmLast(outcomes, k + 1);
      RunFromStep(outcomes, k);
      ConfirmAfterFailedSteps(FailedSteps(k, outcomes[k - 1]), RunFrom(outcomes, k + 1).trace);
    }
  }

  /** The trace ends with the dialog step. */
  predicate EndsWithConfirm(trace: seq<Step>) {
    |trace| > 0 && trace[|trace| - 1].Confirm?
  }

  /** No dialog step comes before the last step. */
  ghost predicate NoEarlyConfirm(trace: seq<Step>) {
    forall i :: 0 <= i < |trace| - 1 ==> !trace[i].Confirm?
  }

  /** Steps without a dialog step in front of a trace change neither property. */
  lemma ConfirmAfterFailedSteps(head: seq<Step>, rest: seq<Step>)
    requires forall i :: 0 <= i < |head| ==> !head[i].Confirm?
    requires NoEarlyConfirm(rest)
    ensures EndsWithConfirm(head + rest) <==> EndsWithConfirm(rest)
    ensures NoEarlyConfirm(head + rest)
  {
    var t := head + rest;
    forall i | 0 <= i < |t| - 1
      ensures !t[i].Confirm?
    {
      if i >= |head| {
        assert t[i] == rest[i - |head|];
      }
    }
    if |rest| > 0 {
      assert t[|t| - 1] == rest[|rest| - 1];
    }
  }

  /** A non-empty trace starts with a Select step. */
  lemma RestStartsWithSelect(outcomes: seq<Attempt>, k: nat)
    requires 1 <= k
    ensures |RunFrom(outcomes, k).trace| > 0 ==> RunFrom(outcomes, k).trace[0].Select?
  {
  }

  /**
   * What the dialog reports never changes the run's result: two runs whose
   * attempts agree on Select and Book complete alike, after the same number
   * of attempts.
   */
  lemma {:induction false} ConfirmDoesNotMatter(o1: seq<Attempt>, o2: seq<Attempt>, k: nat)
    requires 1 <= k
    requires |o1| == |o2|
    requires forall i :: 0 <= i < |o1| ==> o1[i].selected == o2[i].selected && o1[i].booked == o2[i].booked
    ensures RunFrom(o1, k).completed == RunFrom(o2, k).completed
    ensures RunFrom(o1, k).attempts == RunFrom(o2, k).attempts
    decreases |o1| + 1 - k
  {
    if k <= |o1| && !Succeeds(o1, k) {
      ConfirmDoesNotMatter(o1, o2, k + 1);
    }
  }

  /**
   * With three attempts where selection fails twice and then succeeds
   * along with Book, the run completes at attempt 3 having tried Book once.
   */
  lemma ThirdAttemptExample(c: bool)
    ensures var outcomes := [Attempt(false, false, false), Attempt(false, false, false), Attempt(true, true, c)];
      RunFrom(outcomes, 1) ==
        Run(true, 3, [Select(1, false), Select(2, false), Select(3, true), Book(3, true), Confirm(3, c)])
  {
    var outcomes := [Attempt(false, false, false), Attempt(false, false, false), Attempt(true, true, c)];
    assert RunFrom(outcomes, 3) == Run(true, 3, [Select(3, true), Book(3, true), Confirm(3, c)]);
    assert RunFrom(outcomes, 2).trace == [Select(2, false)] + RunFrom(outcomes, 3).trace;
  }
}

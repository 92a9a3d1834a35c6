/** What the dynamic sleep algorithm keeps on one table, over any run of its operations. */
module Dsa2Properties {
  import opened CArith
  import opened CircularBuffer
  import opened StatusCodes
  import opened StepTable
  import opened Dsa2

  // One operation

  lemma NoteFailureKeepsTable(t: Table, ddcrc: int, remaining: int)
    requires StepsOrdered(t)
    ensures StepsOrdered(NoteFailure(t, ddcrc, remaining))
    ensures t.loopStep <= NoteFailure(t, ddcrc, remaining).loopStep
    ensures NoteFailure(t, ddcrc, remaining).curStep == t.curStep
  {
    NextRetryStepBounds(STEP_LAST, t.loopStep, remaining);
  }

  /** Whether recording an operation takes the decrement branch. */
  predicate Lowers(c: Config, t: Table, ddcrc: int, tries: int, nullAdjusted: bool, now: int) {
    c.enabled && FinalVerdict(c, Ratcheted(t, nullAdjusted), ddcrc, tries, now) == Lower
  }

  function Ratcheted(t: Table, nullAdjusted: bool): Table {
    if nullAdjusted then t.(nullMaxStep := Max(t.nullMaxStep, t.loopStep)) else t
  }

  /** Recording an operation keeps the steps in order and fails no assert, even if the current
      step is negative; when the algorithm is enabled the next loop starts at the new current
      step, which is not below the floor. */
  lemma RecordFinalKeepsTable(c: Config, t: Table, ddcrc: int, tries: int, nullAdjusted: bool, now: int)
    requires ConfigOk(c) && StepsOrdered(t)
    ensures var r := FinalOutcome(c, t, ddcrc, tries, nullAdjusted, now);
            && r.Done?
            && StepsOrdered(r.table)
            && (c.enabled ==> c.stepFloor <= r.table.curStep == r.table.loopStep)
            && (!c.enabled ==> r.table == t)
  {
  }

  /** Every step change is counted, and a decrement taken because of recent successes is
      counted twice. */
  lemma RecordFinalAccounts(c: Config, t: Table, ddcrc: int, tries: int, nullAdjusted: bool, now: int)
    ensures var r := FinalOutcome(c, t, ddcrc, tries, nullAdjusted, now);
            r.Done? ==>
              r.table.curStep - (r.table.stepsUp - r.table.stepsDown)
              == t.curStep - (t.stepsUp - t.stepsDown)
                 + (if Lowers(c, t, ddcrc, tries, nullAdjusted, now) then 1 else 0)
  {
  }

  /** After a success that needed few tries and saw no null message, the step goes down by
      one or stays, apart from the floor.  It never goes up: a raise is undone because the
      step from before the raise is what is settled on. */
  lemma EasySuccessNeverRaises(c: Config, t: Table, tries: int, nullAdjusted: bool, now: int)
    requires ConfigOk(c) && StepsOrdered(t) && c.enabled && !HardSuccess(t, tries)
    ensures var r := FinalOutcome(c, t, DDCRC_OK, tries, nullAdjusted, now);
            && r.Done?
            && r.table.curStep == Max(c.stepFloor, if Lowers(c, t, DDCRC_OK, tries, nullAdjusted, now)
                                                   then t.curStep - 1 else t.curStep)
  {
  }

  /** A raise after such a success is counted, once up and once down, and leaves the step as
      it was. */
  lemma RaiseIsUndone(c: Config, t: Table, tries: int, nullAdjusted: bool, now: int)
    requires ConfigOk(c) && StepsOrdered(t) && c.enabled && c.stepFloor <= t.curStep
    requires FinalVerdict(c, Ratcheted(t, nullAdjusted), DDCRC_OK, tries, now) == Raise
    ensures var r := FinalOutcome(c, t, DDCRC_OK, tries, nullAdjusted, now);
            && r.Done?
            && r.table.curStep == t.curStep
            && r.table.stepsUp == t.stepsUp + 1 && r.table.stepsDown == t.stepsDown + 1
            && r.table.adjustmentsUp == t.adjustmentsUp + 1 && r.table.adjustmentsDown == t.adjustmentsDown + 1
  {
  }

  /** The next operation starts at a higher step exactly when this one started below the
      floor, or could still go up and met null messages, too many tries, or a failure
      other than "all responses null". */
  lemma RaisedIff(c: Config, t: Table, ddcrc: int, tries: int, nullAdjusted: bool, now: int)
    requires ConfigOk(c) && StepsOrdered(t) && c.enabled
    ensures var r := FinalOutcome(c, t, ddcrc, tries, nullAdjusted, now);
            && r.Done?
            && (r.table.curStep > t.curStep <==>
                t.curStep < c.stepFloor
                || (t.curStep < STEP_LAST
                    && if ddcrc == DDCRC_OK then HardSuccess(t, tries) else ddcrc != DDCRC_ALL_RESPONSES_NULL))
  {
  }

  /** The null message ratchet: recent successes never bring the step below the smaller of
      3 and the highest step at which a null-adjusted loop has succeeded.  Both ratchets
      only ever go up. */
  lemma RatchetsHold(c: Config, t: Table, ddcrc: int, tries: int, nullAdjusted: bool, now: int)
    requires ConfigOk(c) && StepsOrdered(t)
    ensures var r := FinalOutcome(c, t, ddcrc, tries, nullAdjusted, now);
            && r.Done?
            && (Lowers(c, t, ddcrc, tries, nullAdjusted, now) ==> r.table.curStep >= Min(r.table.nullMaxStep, 3))
            && t.nullMaxStep <= r.table.nullMaxStep
            && t.highestFailureStep <= r.table.highestFailureStep
            && (c.enabled && nullAdjusted ==> t.loopStep <= r.table.nullMaxStep)
  {
  }

  // Runs

  datatype TableOp =
    | Note(ddcrc: int, remaining: int)
    | Final(config: Config, status: int, tries: int, nullAdjusted: bool, now: int)

  predicate OpOk(op: TableOp) {
    op.Final? ==> ConfigOk(op.config)
  }

  function Apply(t: Table, op: TableOp): Outcome {
    match op
    case Note(ddcrc, remaining) => Done(NoteFailure(t, ddcrc, remaining))
    case Final(c, status, tries, nullAdjusted, now) => FinalOutcome(c, t, status, tries, nullAdjusted, now)
  }

  predicate IsLowering(t: Table, op: TableOp) {
    op.Final? && Lowers(op.config, t, op.status, op.tries, op.nullAdjusted, op.now)
  }

  datatype RunOutcome = Ran(table: Table, lowerings: nat) | RunAborted(line: nat)

  /** A run of operations, and how many of them took the decrement branch. */
  function Run(t: Table, ops: seq<TableOp>): RunOutcome
    decreases |ops|
  {
    if ops == [] then Ran(t, 0)
    else
      match Apply(t, ops[0])
      case Aborted(line) => RunAborted(line)
      case Done(t1) =>
        var rest := Run(t1, ops[1..]);
        if rest.RunAborted? then rest
        else rest.(lowerings := rest.lowerings + if IsLowering(t, ops[0]) then 1 else 0)
  }

  /** An operation was recorded while the algorithm was enabled. */
  predicate Records(ops: seq<TableOp>) {
    exists k :: 0 <= k < |ops| && ops[k].Final? && ops[k].config.enabled
  }

  /** No run of a table whose steps start in order fails an assert, and they end in order.
      The current step ends in the step table if and only if it started there or an operation
      was recorded: a negative step stays until then. */
  lemma {:induction false} RunIsSafe(t: Table, ops: seq<TableOp>)
    requires StepsOrdered(t) && forall k :: 0 <= k < |ops| ==> OpOk(ops[k])
    ensures Run(t, ops).Ran? && StepsOrdered(Run(t, ops).table)
    ensures TableOk(Run(t, ops).table) <==> TableOk(t) || Records(ops)
    decreases |ops|
  {
    if ops != [] {
      var op := ops[0];
      assert OpOk(op);
      match op {
        case Note(ddcrc, remaining) => NoteFailureKeepsTable(t, ddcrc, remaining);
        case Final(c, status, tries, nullAdjusted, now) =>
          RecordFinalKeepsTable(c, t, status, tries, nullAdjusted, now);
      }
      RunIsSafe(Apply(t, op).table, ops[1..]);
      RecordsSplits(ops);
    }
  }

  lemma RecordsSplits(ops: seq<TableOp>)
    requires ops != []
    ensures Records(ops) <==> (ops[0].Final? && ops[0].config.enabled) || Records(ops[1..])
  {
    if Records(ops[1..]) {
      var k :| 0 <= k < |ops| - 1 && ops[1..][k].Final? && ops[1..][k].config.enabled;
      assert ops[k + 1].Final? && ops[k + 1].config.enabled;
    }
    if Records(ops) {
      var k :| 0 <= k < |ops| && ops[k].Final? && ops[k].config.enabled;
      assert k > 0 ==> ops[1..][k - 1] == ops[k];
    }
  }

  /** Over any run, on any table: the current step is the starting step plus the steps
      counted up, less those counted down, plus one for every decrement taken. */
  lemma {:induction false} RunAccounts(t: Table, ops: seq<TableOp>)
    requires Run(t, ops).Ran?
    ensures var r := Run(t, ops);
            r.table.curStep
            == t.curStep + (r.table.stepsUp - t.stepsUp) - (r.table.stepsDown - t.stepsDown) + r.lowerings
    decreases |ops|
  {
    if ops != [] {
      match ops[0] {
        case Note(_, _) =>
        case Final(c, status, tries, nullAdjusted, now) =>
          RecordFinalAccounts(c, t, status, tries, nullAdjusted, now);
      }
      RunAccounts(Apply(t, ops[0]).table, ops[1..]);
    }
  }

  // Retry loops

  /** A failure noted within a loop, with what the caller passed for the tries that remain. */
  datatype Failure = Failure(status: int, remaining: int)

  function AfterFailures(t: Table, failures: seq<Failure>): Table
    decreases |failures|
  {
    if failures == [] then t
    else
      var n := |failures| - 1;
      NoteFailure(AfterFailures(t, failures[..n]), failures[n].status, failures[n].remaining)
  }

  /** Failures of any loop, whatever the caller passes, keep the steps in order, and bring the
      loop to the last step once 1 or 2 is passed. */
  lemma {:induction false} FailuresClimb(t: Table, failures: seq<Failure>)
    requires StepsOrdered(t)
    ensures var t' := AfterFailures(t, failures);
            && StepsOrdered(t') && t.loopStep <= t'.loopStep && t'.curStep == t.curStep
            && ((exists k :: 0 <= k < |failures| && 1 <= failures[k].remaining <= 2) ==> t'.loopStep == STEP_LAST)
    decreases |failures|
  {
    if failures != [] {
      var n := |failures| - 1;
      var before := AfterFailures(t, failures[..n]);
      FailuresClimb(t, failures[..n]);
      NoteFailureKeepsTable(before, failures[n].status, failures[n].remaining);
      NextRetryStepBounds(STEP_LAST, before.loopStep, failures[n].remaining);
      if k :| 0 <= k < |failures| && 1 <= failures[k].remaining <= 2 {
        assert k < n ==> failures[..n][k] == failures[k];
      }
    }
  }

  /** After a failed loop the next operation starts at the last step if and only if the loop
      climbed to the last step or the one before, or the floor is the last step. */
  lemma FailureEndsAtLastStepIff(c: Config, t: Table, status: int, tries: int, nullAdjusted: bool, now: int)
    requires ConfigOk(c) && StepsOrdered(t) && c.enabled
    requires status != DDCRC_OK && status != DDCRC_ALL_RESPONSES_NULL
    ensures var r := FinalOutcome(c, t, status, tries, nullAdjusted, now);
            && r.Done? && r.table.curStep == r.table.loopStep
            && r.table.curStep == Max(c.stepFloor, Min(t.loopStep + 1, STEP_LAST))
            && (r.table.curStep == STEP_LAST <==> t.loopStep >= STEP_LAST - 1 || c.stepFloor == STEP_LAST)
  {
  }

  /** The failures of a loop of `maxTries` whose caller passes the tries that do remain. */
  function PlainFailures(maxTries: int, statuses: seq<int>): (failures: seq<Failure>)
    ensures |failures| == |statuses|
  {
    seq(|statuses|, k requires 0 <= k < |statuses| => Failure(statuses[k], maxTries - k - 1))
  }

  lemma {:induction false} PlainFailuresSteps(t: Table, maxTries: int, statuses: seq<int>)
    requires StepsOrdered(t)
    ensures AfterFailures(t, PlainFailures(maxTries, statuses)).loopStep
         == LoopStep(STEP_LAST, t.loopStep, maxTries, |statuses|)
    decreases |statuses|
  {
    if statuses != [] {
      var n := |statuses| - 1;
      PlainFailuresSteps(t, maxTries, statuses[..n]);
      assert PlainFailures(maxTries, statuses)[..n] == PlainFailures(maxTries, statuses[..n]);
    }
  }

  /** A loop of two or more tries that all fail, whose caller passes the tries that do remain,
      leaves the next operation starting at the last step.  Were the status of the loop "all
      responses null", the current step would stay where it was, apart from the floor. */
  lemma FailedLoopEndsAtLastStep(c: Config, t: Table, maxTries: int, statuses: seq<int>, status: int,
                                 nullAdjusted: bool, now: int)
    requires ConfigOk(c) && StepsOrdered(t) && c.enabled
    requires maxTries >= 2 && |statuses| == maxTries - 1
    requires status != DDCRC_OK
    ensures var failed := AfterFailures(t, PlainFailures(maxTries, statuses));
            var r := FinalOutcome(c, failed, status, maxTries, nullAdjusted, now);
            && r.Done?
            && r.table.curStep == r.table.loopStep
            && r.table.curStep == if status != DDCRC_ALL_RESPONSES_NULL then STEP_LAST
                                  else Max(c.stepFloor, t.curStep)
  {
    var failures := PlainFailures(maxTries, statuses);
    FailuresClimb(t, failures);
    assert failures[maxTries - 2].remaining == 1;
    if status != DDCRC_ALL_RESPONSES_NULL {
      FailureEndsAtLastStepIff(c, AfterFailures(t, failures), status, maxTries, nullAdjusted, now);
    }
  }

  // How often recent successes are consulted

  /** The table after successes within three tries were recorded, one at each time. */
  function Successes(c: Config, t: Table, times: seq<int>): Table
    decreases |times|
  {
    if times == [] then t
    else Recorded(c, Successes(c, t, times[..|times| - 1]), DDCRC_OK, TARGET_MAX_TRIES, times[|times| - 1])
  }

  /** What an interval has come to after n such successes: it is counted down and begun
      again at 1, but runs on below zero if it was not positive. */
  function Countdown(interval: int, n: nat): int {
    if interval <= 0 || n < interval then interval - n
    else ADJUSTMENT_INTERVAL - (n - interval) % ADJUSTMENT_INTERVAL
  }

  lemma CountdownNext(interval: int, n: nat)
    ensures Countdown(interval, n + 1)
         == if Countdown(interval, n) == 1 then ADJUSTMENT_INTERVAL else Countdown(interval, n) - 1
    ensures Countdown(interval, n) == 1 <==>
              0 < interval <= n + 1 && (n + 1 - interval) % ADJUSTMENT_INTERVAL == 0
  {
  }

  lemma OneMoreSuccess(c: Config, t: Table, time: int)
    requires t.loopNullCt == 0
    ensures var t' := Recorded(c, t, DDCRC_OK, TARGET_MAX_TRIES, time);
            && t'.loopNullCt == 0
            && t'.remainingInterval == if t.remainingInterval == 1 then ADJUSTMENT_INTERVAL else t.remainingInterval - 1
  {
  }

  lemma {:induction false} IntervalCounts(c: Config, t: Table, times: seq<int>)
    requires t.loopNullCt == 0
    ensures var t' := Successes(c, t, times);
            t'.loopNullCt == 0 && t'.remainingInterval == Countdown(t.remainingInterval, |times|)
    decreases |times|
  {
    hide Recorded, Countdown;
    if times != [] {
      var n := |times| - 1;
      IntervalCounts(c, t, times[..n]);
      OneMoreSuccess(c, Successes(c, t, times[..n]), times[n]);
      CountdownNext(t.remainingInterval, n);
    } else {
      CountdownStart(t.remainingInterval);
    }
  }

  lemma CountdownStart(interval: int)
    ensures Countdown(interval, 0) == interval
  {
  }

  /** Among successes within three tries and without null messages, recent successes are
      consulted at the one that ends the interval and at every third after that, or never
      if the interval was not positive, as it can be when read from the file. */
  lemma ConsultedEveryThird(c: Config, t: Table, times: seq<int>)
    requires t.loopNullCt == 0
    ensures Consulted(Successes(c, t, times), DDCRC_OK, TARGET_MAX_TRIES) <==>
              0 < t.remainingInterval <= |times| + 1
              && (|times| + 1 - t.remainingInterval) % ADJUSTMENT_INTERVAL == 0
  {
    hide Successes, Countdown;
    IntervalCounts(c, t, times);
    CountdownNext(t.remainingInterval, |times|);
  }
}

/** The per-bus controller of dynamic sleep algorithm 2.  The functions say what each
    operation makes of a table; the class holds the table and updates it in place. */
module Dsa2 {
  import opened CArith
  import opened CircularBuffer
  import opened Options
  import opened StatusCodes
  import opened StepTable

  const MAX_MAX_TRIES := 15
  const I2C_BUS_MAX := 64
  const MAX_RECENT_VALUES := 100
  const WINDOW := 10
  const LOOK_BACK := 5
  const MIN_DECREMENT_LOOKBACK := 5
  const ADJUSTMENT_INTERVAL := 3
  const TARGET_MAX_TRIES := 3
  const GREATEST_TRIES_LOWER_BOUND := 2
  const AVG_TRIES_LOWER_BOUND_10 := 11

  type Busno = n: int | 0 <= n <= I2C_BUS_MAX

  /** The settings shared by all tables. */
  datatype Config = Config(enabled: bool, initialStep: int, greatestUpper: int, avgUpper10: int, stepFloor: int)

  const DEFAULT_CONFIG := Config(true, 7, 3, 14, 0)

  predicate ConfigOk(c: Config) {
    && 0 <= c.initialStep <= STEP_LAST && 0 <= c.stepFloor <= STEP_LAST
    && 1 <= c.greatestUpper <= MAX_MAX_TRIES && 10 <= c.avgUpper10 <= 10 * MAX_MAX_TRIES
  }

  datatype Flag = FromCache | BusDetected | EdidVerified

  /** A results table as a value; `recent` is the ring, oldest value first. */
  datatype Table = Table(
    busno: int,
    recent: seq<Invocation>,
    curStep: int,
    remainingInterval: int,
    loopStep: int,
    loopNullCt: int,
    initialStep: int,
    initialLookback: int,
    curLookback: int,
    adjustmentsUp: int,
    stepsUp: int,
    adjustmentsDown: int,
    stepsDown: int,
    successCt: int,
    retryableFailureCt: int,
    highestFailureStep: int,
    nullMaxStep: int,
    latestAvg10: int,
    edidCheckByte: int,
    flags: set<Flag>)

  /** What holds of every table at every call boundary, whatever a stats file held. */
  predicate StepsOrdered(t: Table) {
    t.curStep <= t.loopStep <= STEP_LAST && |t.recent| <= MAX_RECENT_VALUES
  }

  /** What the step table needs as well: that no step is negative. */
  predicate TableOk(t: Table) {
    StepsOrdered(t) && t.curStep >= 0
  }

  /** new_results_table(): the retry loop step is left 0 for the caller to set. */
  function NewTable(c: Config, busno: int): Table {
    Table(busno, [], c.initialStep, ADJUSTMENT_INTERVAL, 0, 0, c.initialStep, LOOK_BACK, LOOK_BACK,
          0, 0, 0, 0, 0, 0, -1, -1, 0, 0, {})
  }

  // Recent successes

  function MaxTries(w: seq<Invocation>): int {
    if w == [] then 0 else Max(MaxTries(w[..|w| - 1]), w[|w| - 1].tryct)
  }

  function TotalTries(w: seq<Invocation>): int {
    if w == [] then 0 else TotalTries(w[..|w| - 1]) + w[|w| - 1].tryct
  }

  /** Ten times the average, as C computes it in integers. */
  function Average10(totalTries: int, n: int): int
    requires n > 0
  {
    Quot(totalTries * 10, n)
  }

  predicate TooManyErrors(c: Config, latestTries: int, maxTries: int, avg10: int) {
    latestTries > TARGET_MAX_TRIES || maxTries > c.greatestUpper || avg10 > c.avgUpper10
  }

  predicate TooFewErrors(maxTries: int, avg10: int) {
    maxTries <= GREATEST_TRIES_LOWER_BOUND && avg10 <= AVG_TRIES_LOWER_BOUND_10
  }

  /** What the recent successes call for: a change of step, or none because of the limit
      the change would run into, or none at all. */
  datatype Verdict = Raise | AtCeiling | Lower | AtFloor | Keep

  function Judge(c: Config, curStep: int, nullMaxStep: int, latest: Invocation,
                 maxTries: int, avg10: int, n: int): Verdict
  {
    if TooManyErrors(c, latest.tryct, maxTries, avg10) && curStep < latest.requiredStep then
      if curStep < STEP_LAST then Raise else AtCeiling
    else if n >= MIN_DECREMENT_LOOKBACK && TooFewErrors(maxTries, avg10) && curStep > 0 then
      if curStep > Min(nullMaxStep, 3) then Lower else AtFloor
    else Keep
  }

  /** The verdict on a table whose ring is `ring`. */
  function VerdictOn(c: Config, curStep: int, nullMaxStep: int, ring: seq<Invocation>): Verdict
    requires ring != []
  {
    var w := LastN(ring, WINDOW);
    Judge(c, curStep, nullMaxStep, ring[|ring| - 1], MaxTries(w), Average10(TotalTries(w), |w|), |w|)
  }

  // Operations

  /** dsa2_note_retryable_failure() */
  function NoteFailure(t: Table, ddcrc: int, remaining: int): Table {
    t.(retryableFailureCt := t.retryableFailureCt + 1,
       loopNullCt := if ddcrc == DDCRC_NULL_RESPONSE then t.loopNullCt + 1 else t.loopNullCt,
       loopStep := NextRetryStep(STEP_LAST, t.loopStep, remaining))
  }

  /** A success that calls for a higher step whatever happened before it. */
  predicate HardSuccess(t: Table, tries: int) {
    t.loopNullCt > 0 || tries > TARGET_MAX_TRIES
  }

  /** Recent successes are consulted at the end of an interval, and after any success
      within two tries. */
  predicate Consulted(t: Table, ddcrc: int, tries: int) {
    ddcrc == DDCRC_OK && !HardSuccess(t, tries) && (tries <= 2 || t.remainingInterval == 1)
  }

  /** The ring after one more success. */
  function WithSuccess(t: Table, tries: int, now: int): (r: seq<Invocation>)
    ensures r != [] && |r| <= MAX_RECENT_VALUES
    ensures r[|r| - 1] == Invocation(now, tries, t.loopStep)
  {
    LastN(t.recent + [Invocation(now, tries, t.loopStep)], MAX_RECENT_VALUES)
  }

  /** The verdict that counts: Keep unless recent successes are consulted. */
  function FinalVerdict(c: Config, t: Table, ddcrc: int, tries: int, now: int): Verdict {
    if Consulted(t, ddcrc, tries) then VerdictOn(c, t.curStep, t.nullMaxStep, WithSuccess(t, tries, now)) else Keep
  }

  /** The step to start the next operation with, before it is clamped.  A verdict to raise
      leads to the step from before the raise. */
  function Wanted(t: Table, ddcrc: int, tries: int, verdict: Verdict): int {
    if ddcrc == DDCRC_OK then
      if HardSuccess(t, tries) then Min(t.loopStep + 1, STEP_LAST)
      else if verdict == Lower then t.curStep - 1
      else t.curStep
    else if ddcrc == DDCRC_ALL_RESPONSES_NULL then t.curStep
    else Min(t.loopStep + 1, STEP_LAST)
  }

  function Clamp(c: Config, step: int): int {
    if step < c.stepFloor then c.stepFloor else if step > STEP_LAST then STEP_LAST else step
  }

  function IntervalAfter(t: Table, ddcrc: int, tries: int): int {
    if ddcrc != DDCRC_OK || Consulted(t, ddcrc, tries) then ADJUSTMENT_INTERVAL
    else if HardSuccess(t, tries) then t.remainingInterval
    else t.remainingInterval - 1
  }

  /** How one call of dsa2_record_final() ends; an abort carries the source line of the
      failed assert. */
  datatype Outcome = Done(table: Table) | Aborted(line: nat)

  /** dsa2_record_final(): every field of the table it leaves.  A raise is applied and
      counted before the difference to the clamped step is counted; a decrement is counted
      on its own as well. */
  function FinalOutcome(c: Config, t: Table, ddcrc: int, tries: int, nullAdjusted: bool, now: int): Outcome {
    if !c.enabled then Done(t)
    else if t.loopStep > STEP_LAST then Aborted(930)
    else if t.curStep > t.loopStep then Aborted(931)
    else Done(Recorded(c, if nullAdjusted then t.(nullMaxStep := Max(t.nullMaxStep, t.loopStep)) else t,
                       ddcrc, tries, now))
  }

  function Recorded(c: Config, t: Table, ddcrc: int, tries: int, now: int): Table {
    Settled(if ddcrc == DDCRC_OK then AfterSuccess(c, t, tries, now) else AfterFailure(t, ddcrc),
            Clamp(c, Wanted(t, ddcrc, tries, FinalVerdict(c, t, ddcrc, tries, now))))
  }

  /** The table once a success has been added and recent successes have been consulted. */
  function AfterSuccess(c: Config, t: Table, tries: int, now: int): Table {
    var v := FinalVerdict(c, t, DDCRC_OK, tries, now);
    var raised := if v == Raise then 1 else 0;
    var lowered := if v == Lower then 1 else 0;
    var ring := WithSuccess(t, tries, now);
    var w := LastN(ring, WINDOW);
    t.(recent := ring,
       successCt := t.successCt + 1,
       remainingInterval := IntervalAfter(t, DDCRC_OK, tries),
       curStep := t.curStep + raised,
       adjustmentsUp := t.adjustmentsUp + raised,
       stepsUp := t.stepsUp + raised,
       adjustmentsDown := t.adjustmentsDown + lowered,
       stepsDown := t.stepsDown + lowered,
       curLookback := if v == Lower || v == AtFloor then |w| else t.curLookback,
       latestAvg10 := if Consulted(t, DDCRC_OK, tries) then Average10(TotalTries(w), |w|) else t.latestAvg10)
  }

  function AfterFailure(t: Table, ddcrc: int): Table {
    t.(remainingInterval := ADJUSTMENT_INTERVAL,
       highestFailureStep := if ddcrc == DDCRC_ALL_RESPONSES_NULL then t.highestFailureStep
                             else Max(t.highestFailureStep, t.loopStep))
  }

  /** The table moved to `step`, the difference counted, ready for the next loop. */
  function Settled(t: Table, step: int): Table {
    var delta := step - t.curStep;
    t.(curStep := step,
       loopStep := step,
       loopNullCt := 0,
       adjustmentsUp := t.adjustmentsUp + (if delta > 0 then 1 else 0),
       stepsUp := t.stepsUp + Max(delta, 0),
       adjustmentsDown := t.adjustmentsDown + (if delta < 0 then 1 else 0),
       stepsDown := t.stepsDown + Max(-delta, 0))
  }

  // The table in place

  class ResultsTable {
    const recent: Buffer
    var busno: int
    var curStep: int
    var remainingInterval: int
    var loopStep: int
    var loopNullCt: int
    var initialStep: int
    var initialLookback: int
    var curLookback: int
    var adjustmentsUp: int
    var stepsUp: int
    var adjustmentsDown: int
    var stepsDown: int
    var successCt: int
    var retryableFailureCt: int
    var highestFailureStep: int
    var nullMaxStep: int
    var latestAvg10: int
    var edidCheckByte: int
    var flags: set<Flag>

    ghost predicate Valid()
      reads this, recent
    {
      recent.Valid() && recent.size == MAX_RECENT_VALUES
    }

    ghost function View(): (t: Table)
      requires Valid()
      reads this, recent, recent.values
    {
      Table(busno, recent.Contents(), curStep, remainingInterval, loopStep, loopNullCt, initialStep,
            initialLookback, curLookback, adjustmentsUp, stepsUp, adjustmentsDown, stepsDown, successCt,
            retryableFailureCt, highestFailureStep, nullMaxStep, latestAvg10, edidCheckByte, flags)
    }

    constructor (c: Config, busno: int)
      ensures Valid() && fresh(recent) && fresh(recent.values)
      ensures View() == NewTable(c, busno)
    {
      this.busno := busno;
      initialStep := c.initialStep;
      curStep := c.initialStep;
      curLookback := LOOK_BACK;
      recent := new Buffer(MAX_RECENT_VALUES);
      remainingInterval := ADJUSTMENT_INTERVAL;
      flags := {};
      initialLookback := LOOK_BACK;
      highestFailureStep := -1;
      nullMaxStep := -1;
      loopStep, loopNullCt, latestAvg10, edidCheckByte := 0, 0, 0, 0;
      adjustmentsUp, stepsUp, adjustmentsDown, stepsDown := 0, 0, 0, 0;
      successCt, retryableFailureCt := 0, 0;
    }

    /** Tallies the window of recent successes. */
    method Tally(latest: array<Invocation>, n: int) returns (maxTries: int, totalTries: int)
      requires 0 <= n <= latest.Length
      ensures maxTries == MaxTries(latest[..n]) && totalTries == TotalTries(latest[..n])
    {
      maxTries, totalTries := 0, 0;
      var i := 0;
      while i < n
        invariant 0 <= i <= n
        invariant maxTries == MaxTries(latest[..i]) && totalTries == TotalTries(latest[..i])
      {
        assert latest[..i + 1] == latest[..i] + [latest[i]];
        totalTries := totalTries + latest[i].tryct;
        if latest[i].tryct > maxTries {
          maxTries := latest[i].tryct;
        }
        i := i + 1;
      }
    }

    /** Looks back over the window: how many values it holds, the newest, and the tallies. */
    method LookBack() returns (n: int, mostRecent: Invocation, maxTries: int, totalTries: int)
      requires Valid()
      ensures n == |LastN(recent.Contents(), WINDOW)|
      ensures n > 0 ==> mostRecent == recent.Contents()[recent.ct - 1]
      ensures maxTries == MaxTries(LastN(recent.Contents(), WINDOW))
      ensures totalTries == TotalTries(LastN(recent.Contents(), WINDOW))
    {
      var latest := new Invocation[MAX_RECENT_VALUES](_ => NOT_FOUND);
      n := recent.GetLatest(WINDOW, latest);
      maxTries, totalTries := Tally(latest, n);
      mostRecent := NOT_FOUND;
      if n > 0 {
        mostRecent := latest[n - 1];
        assert mostRecent == latest[..n][n - 1];
      }
    }

    /** The branches of the adjustment; the result is the step to use next. */
    method Weigh(c: Config, n: int, mostRecent: Invocation, maxTries: int, avg10: int)
      returns (nextStep: int, ghost verdict: Verdict)
      modifies this`curStep, this`stepsUp, this`adjustmentsUp, this`stepsDown, this`adjustmentsDown, this`curLookback
      ensures verdict == Judge(c, old(curStep), nullMaxStep, mostRecent, maxTries, avg10, n)
      ensures CountedVerdict(verdict)
      ensures curLookback == if verdict == Lower || verdict == AtFloor then n else old(curLookback)
      ensures nextStep == if verdict == Lower then old(curStep) - 1 else old(curStep)
    {
      nextStep, verdict := curStep, Judge(c, curStep, nullMaxStep, mostRecent, maxTries, avg10, n);
      if TooManyErrors(c, mostRecent.tryct, maxTries, avg10) && curStep < mostRecent.requiredStep {
        if nextStep < STEP_LAST {
          nextStep := curStep;      // the value before the increment
          curStep := curStep + 1;
          stepsUp := stepsUp + 1;
          adjustmentsUp := adjustmentsUp + 1;
        }
      } else if n >= MIN_DECREMENT_LOOKBACK && TooFewErrors(maxTries, avg10) && curStep > 0 {
        var floor := Min(nullMaxStep, 3);
        if nextStep > floor {
          nextStep := curStep - 1;
          stepsDown := stepsDown + 1;
          adjustmentsDown := adjustmentsDown + 1;
        }
        curLookback := n;
      }
    }

    /** A verdict's own effect on the step and the counters. */
    twostate predicate CountedVerdict(verdict: Verdict)
      reads this
    {
      && curStep == old(curStep) + (if verdict == Raise then 1 else 0)
      && stepsUp == old(stepsUp) + (if verdict == Raise then 1 else 0)
      && adjustmentsUp == old(adjustmentsUp) + (if verdict == Raise then 1 else 0)
      && stepsDown == old(stepsDown) + (if verdict == Lower then 1 else 0)
      && adjustmentsDown == old(adjustmentsDown) + (if verdict == Lower then 1 else 0)
    }

    /** Returns the step to use next.  Called only after a success has been added, so the
        three asserts hold. */
    method AdjustForRecentSuccesses(c: Config) returns (nextStep: int, ghost verdict: Verdict)
      requires Valid() && recent.ct > 0 && recent.Contents()[recent.ct - 1].requiredStep <= STEP_LAST
      requires curStep <= STEP_LAST
      modifies this`curStep, this`stepsUp, this`adjustmentsUp, this`stepsDown, this`adjustmentsDown,
               this`curLookback, this`latestAvg10
      ensures verdict == VerdictOn(c, old(curStep), nullMaxStep, recent.Contents())
      ensures CountedVerdict(verdict)
      ensures Looked(verdict, LastN(recent.Contents(), WINDOW))
      ensures nextStep == if verdict == Lower then old(curStep) - 1 else old(curStep)
    {
      var n, mostRecent, maxTries, totalTries := LookBack();
      assert n > 0;
      assert mostRecent.requiredStep <= STEP_LAST;
      latestAvg10 := Average10(totalTries, n);
      nextStep, verdict := Weigh(c, n, mostRecent, maxTries, latestAvg10);
      assert nextStep <= STEP_LAST;
    }

    /** What consulting the window `w` leaves for the reports. */
    twostate predicate Looked(verdict: Verdict, w: seq<Invocation>)
      requires w != []
      reads this
    {
      && curLookback == (if verdict == Lower || verdict == AtFloor then |w| else old(curLookback))
      && latestAvg10 == Average10(TotalTries(w), |w|)
    }

    /** The part of dsa2_reset_multiplier() for one table. */
    method Rewind(step: int)
      requires Valid()
      modifies `curStep, `loopStep, `adjustmentsDown, `adjustmentsUp, `stepsUp, `stepsDown,
               `successCt, `retryableFailureCt
      ensures Valid()
      ensures View() == old(View()).(curStep := step, loopStep := step, adjustmentsDown := 0, adjustmentsUp := 0,
                                     stepsUp := 0, stepsDown := 0, successCt := 0, retryableFailureCt := 0)
    {
      hide Buffer.Contents, Buffer.Valid;
      ghost var before := View();
      curStep := step;
      loopStep := step;
      adjustmentsDown := 0;
      adjustmentsUp := 0;
      stepsUp := 0;
      stepsDown := 0;
      successCt := 0;
      retryableFailureCt := 0;
      assert recent.Contents() == before.recent;
    }

    /** dsa2_get_adjusted_sleep_mult(), None where it would read outside the array of steps. */
    method AdjustedMultiplier() returns (multiplier: Option<real>)
      ensures multiplier.Some? <==> 0 <= loopStep <= STEP_LAST
      ensures multiplier.Some? ==> StepFor(multiplier.value, 0) == loopStep
    {
      multiplier := None;
      if 0 <= loopStep < |STEPS| {
        MultiplierOfStep(loopStep, 0);
        multiplier := Some(STEPS[loopStep] as real / 100.0);
      }
    }

    method NoteRetryableFailure(ddcrc: int, remaining: int)
      requires Valid()
      modifies this
      ensures Valid() && busno == old(busno) && View() == NoteFailure(old(View()), ddcrc, remaining)
    {
      retryableFailureCt := retryableFailureCt + 1;
      if ddcrc == DDCRC_NULL_RESPONSE {
        loopNullCt := loopNullCt + 1;
      }
      loopStep := NextRetryStep(STEP_LAST, loopStep, remaining);
      assert recent.Contents() == old(recent.Contents());
    }

    method KeepSuccess(tries: int, now: int)
      requires Valid()
      modifies this`successCt, recent, recent.values
      ensures Valid() && recent.ct > 0
      ensures recent.Contents() == WithSuccess(old(View()), tries, now)
      ensures successCt == old(successCt) + 1
    {
      successCt := successCt + 1;
      recent.Add(Invocation(now, tries, loopStep));
    }

    /** The success side of RecordFinal: the step wanted next. */
    method OnSuccess(c: Config, tries: int, now: int) returns (next: int, ghost verdict: Verdict)
      requires Valid() && curStep <= loopStep <= STEP_LAST
      modifies this`curStep, this`stepsUp, this`adjustmentsUp, this`stepsDown, this`adjustmentsDown,
               this`curLookback, this`latestAvg10, this`remainingInterval, this`successCt, recent, recent.values
      ensures Valid()
      ensures verdict == FinalVerdict(c, old(View()), DDCRC_OK, tries, now)
      ensures next == Wanted(old(View()), DDCRC_OK, tries, verdict)
      ensures recent.Contents() == WithSuccess(old(View()), tries, now)
      ensures successCt == old(successCt) + 1
      ensures remainingInterval == IntervalAfter(old(View()), DDCRC_OK, tries)
      ensures CountedVerdict(verdict)
      ensures if Consulted(old(View()), DDCRC_OK, tries) then Looked(verdict, LastN(recent.Contents(), WINDOW))
              else curLookback == old(curLookback) && latestAvg10 == old(latestAvg10)
    {
      next, verdict := curStep, Keep;
      KeepSuccess(tries, now);
      if loopNullCt > 0 {
        next := Min(loopStep + 1, STEP_LAST);
      } else if tries > TARGET_MAX_TRIES {
        next := Min(loopStep + 1, STEP_LAST);
      } else if tries > 2 {
        remainingInterval := remainingInterval - 1;
        if remainingInterval == 0 {
          next, verdict := AdjustForRecentSuccesses(c);
          remainingInterval := ADJUSTMENT_INTERVAL;
        }
      } else {
        next, verdict := AdjustForRecentSuccesses(c);
        remainingInterval := ADJUSTMENT_INTERVAL;
      }
    }

    /** The failure side of RecordFinal: the step wanted next. */
    method OnFailure(ddcrc: int) returns (next: int)
      requires ddcrc != DDCRC_OK
      modifies this`highestFailureStep, this`remainingInterval
      ensures next == if ddcrc == DDCRC_ALL_RESPONSES_NULL then curStep else Min(loopStep + 1, STEP_LAST)
      ensures highestFailureStep == if ddcrc == DDCRC_ALL_RESPONSES_NULL then old(highestFailureStep)
                                    else Max(old(highestFailureStep), loopStep)
      ensures remainingInterval == ADJUSTMENT_INTERVAL
    {
      next := curStep;
      if ddcrc != DDCRC_ALL_RESPONSES_NULL {
        highestFailureStep := Max(highestFailureStep, loopStep);
        next := Min(loopStep + 1, STEP_LAST);
      }
      remainingInterval := ADJUSTMENT_INTERVAL;
    }

    /** The end of RecordFinal: clamps the step, counts the change and starts a new loop. */
    method Settle(c: Config, wanted: int)
      modifies this`curStep, this`loopStep, this`loopNullCt,
               this`stepsUp, this`adjustmentsUp, this`stepsDown, this`adjustmentsDown
      ensures curStep == loopStep == Clamp(c, wanted) && loopNullCt == 0
      ensures var delta := curStep - old(curStep);
              && adjustmentsUp == old(adjustmentsUp) + (if delta > 0 then 1 else 0)
              && stepsUp == old(stepsUp) + Max(delta, 0)
              && adjustmentsDown == old(adjustmentsDown) + (if delta < 0 then 1 else 0)
              && stepsDown == old(stepsDown) + Max(-delta, 0)
    {
      var next := wanted;
      if next < c.stepFloor {
        next := c.stepFloor;
      } else if next > STEP_LAST {
        next := STEP_LAST;
      }
      var delta := next - curStep;
      if delta < 0 {
        adjustmentsDown := adjustmentsDown + 1;
        stepsDown := stepsDown - delta;
      } else if delta > 0 {
        adjustmentsUp := adjustmentsUp + 1;
        stepsUp := stepsUp + delta;
      }
      curStep := next;
      loopStep := curStep;
      loopNullCt := 0;
    }

    method SettleTable(c: Config, wanted: int)
      requires Valid()
      modifies this`curStep, this`loopStep, this`loopNullCt,
               this`stepsUp, this`adjustmentsUp, this`stepsDown, this`adjustmentsDown
      ensures View() == Settled(old(View()), Clamp(c, wanted))
    {
      Settle(c, wanted);
    }

    /** RecordFinal for a table whose steps are in order. */
    method Conclude(c: Config, ddcrc: int, tries: int, now: int) returns (next: int)
      requires Valid() && curStep <= loopStep <= STEP_LAST
      modifies this, recent, recent.values
      ensures Valid()
      ensures next == Wanted(old(View()), ddcrc, tries, FinalVerdict(c, old(View()), ddcrc, tries, now))
      ensures View() == if ddcrc == DDCRC_OK then AfterSuccess(c, old(View()), tries, now)
                        else AfterFailure(old(View()), ddcrc)
    {
      ghost var verdict;
      if ddcrc == DDCRC_OK {
        next, verdict := OnSuccess(c, tries, now);
      } else {
        next := OnFailure(ddcrc);
        assert recent.Contents() == old(recent.Contents());
      }
    }

    /** Ends with failed == 0, or with the line of the assert that failed. */
    method RecordFinal(c: Config, ddcrc: int, tries: int, nullAdjusted: bool, now: int) returns (failed: nat)
      requires Valid()
      modifies this, recent, recent.values
      ensures Valid() && busno == old(busno)
      ensures failed == 0 ==> FinalOutcome(c, old(View()), ddcrc, tries, nullAdjusted, now) == Done(View())
      ensures failed != 0 ==> FinalOutcome(c, old(View()), ddcrc, tries, nullAdjusted, now) == Aborted(failed)
    {
      failed := 0;
      if c.enabled {
        if nullAdjusted {
          nullMaxStep := Max(nullMaxStep, loopStep);
        }
        assert recent.Contents() == old(recent.Contents());
        if loopStep > STEP_LAST {
          failed := 930;
        } else if curStep > loopStep {
          failed := 931;
        } else {
          var next := Conclude(c, ddcrc, tries, now);
          SettleTable(c, next);
        }
      }
    }
  }
}

/** Sleep steps, and how a retry loop climbs them. */
module StepTable {
  import opened CArith

  /** Sleep multipliers, times 100. */
  const STEPS: seq<int> := [0, 5, 10, 20, 30, 50, 70, 100, 130, 160, 200]
  const STEP_LAST: int := |STEPS| - 1

  /** C's conversion of a floating point value to an integer. */
  function Truncate(x: real): int {
    if x >= 0.0 then x.Floor else -((-x).Floor)
  }

  /** The step used after `prevStep` fails with `remaining` tries left, in a table
      whose last step is `last`. */
  function NextRetryStep(last: int, prevStep: int, remaining: int): int {
    if remaining > 0 then
      var remainingSteps := last - prevStep;
      // The test for more than one remaining try overrides the test for more than two.
      var fadj := if remaining > 1 then remainingSteps as real / (remaining - 1) as real
                  else remainingSteps as real / remaining as real;
      var fadj2 := if fadj > 0.75 && fadj < 1.0 then 1.0 else fadj;
      Min(prevStep + Truncate(fadj2), last)
    else prevStep
  }

  /** For a step inside the table: the failed step is followed by a step that is no
      lower, at most the last, and the last once at most two tries remain.  The climb
      spreads what is left evenly over one try fewer than remain, except that more
      than three quarters of a step counts as a whole one. */
  lemma NextRetryStepBounds(last: int, prev: int, remaining: int)
    requires prev <= last
    ensures prev <= NextRetryStep(last, prev, remaining) <= last
    ensures 0 < remaining <= 2 ==> NextRetryStep(last, prev, remaining) == last
    ensures remaining > 1 && last - prev >= remaining - 1 ==>
              NextRetryStep(last, prev, remaining) == prev + (last - prev) / (remaining - 1)
    ensures remaining > 1 && last - prev < remaining - 1 ==>
              NextRetryStep(last, prev, remaining)
              == if 4 * (last - prev) > 3 * (remaining - 1) then prev + 1 else prev
  {
    if remaining > 0 {
      var rs := last - prev;
      var d := if remaining > 1 then remaining - 1 else 1;
      Share(rs, d);
    }
  }

  /** The real quotient of a climb, located between its integer neighbours. */
  lemma Share(rs: nat, d: nat)
    requires d > 0
    ensures var f := rs as real / d as real;
            && f >= 0.0
            && f.Floor == rs / d
            && rs / d <= rs
            && (f < 1.0 <==> rs < d)
            && (f > 0.75 <==> 4 * rs > 3 * d)
  {
    ShareOf(rs as real / d as real, rs, d);
  }

  lemma ShareOf(f: real, rs: nat, d: nat)
    requires d > 0 && f * d as real == rs as real
    ensures f >= 0.0 && f.Floor == rs / d && rs / d <= rs
    ensures f < 1.0 <==> rs < d
    ensures f > 0.75 <==> 4 * rs > 3 * d
  {
    AtLeast(f, rs, d, 0.0);
    AtLeast(f, rs, d, 1.0);
    AtMost(f, rs, d, 0.75);
    QuotientBounds(rs, d, rs / d);
    AtLeast(f, rs, d, (rs / d) as real);
    AtLeast(f, rs, d, (rs / d + 1) as real);
  }

  lemma AtLeast(f: real, rs: nat, d: nat, y: real)
    requires d > 0 && f * d as real == rs as real
    ensures y <= f <==> y * d as real <= rs as real
  {
    Cancel(y, f, d as real);
  }

  lemma AtMost(f: real, rs: nat, d: nat, y: real)
    requires d > 0 && f * d as real == rs as real
    ensures f <= y <==> rs as real <= y * d as real
  {
    Cancel(f, y, d as real);
  }

  lemma QuotientBounds(rs: nat, d: nat, q: nat)
    requires d > 0 && q == rs / d
    ensures q as real * d as real <= rs as real < (q + 1) as real * d as real
    ensures q <= rs
  {
    assert rs == q * d + rs % d;
    assert (q * d) as real == q as real * d as real;
    assert ((q + 1) * d) as real == (q + 1) as real * d as real;
    assert (q + 1) * d == q * d + d;
    Grow(q, d);
  }

  lemma Cancel(x: real, y: real, d: real)
    requires d > 0.0
    ensures x <= y <==> x * d <= y * d
    ensures x < y <==> x * d < y * d
  {
    if x < y {
      assert (y - x) * d > 0.0;
    } else {
      assert (x - y) * d >= 0.0;
      if x > y {
        assert (x - y) * d > 0.0;
      }
    }
  }

  lemma Grow(q: nat, d: nat)
    requires d > 0
    ensures q <= q * d
  {
  }

  /** A higher failed step is never followed by a lower step. */
  lemma NextRetryStepMonotone(last: int, p: int, q: int, remaining: int)
    requires p <= q <= last
    ensures NextRetryStep(last, p, remaining) <= NextRetryStep(last, q, remaining)
    decreases q - p
  {
    if p < q {
      NextRetryStepMonotone(last, p + 1, q, remaining);
      if remaining > 0 {
        NextStepMonotone(last, p, remaining);
      }
    }
  }

  lemma NextStepMonotone(last: int, p: int, remaining: int)
    requires p < last && remaining > 0
    ensures NextRetryStep(last, p, remaining) <= NextRetryStep(last, p + 1, remaining)
  {
    hide NextRetryStep;
    NextRetryStepBounds(last, p, remaining);
    NextRetryStepBounds(last, p + 1, remaining);
    if remaining > 1 && last - p > remaining - 1 {
      QuotientStep(last - p, remaining - 1);
    }
  }

  lemma QuotientStep(a: nat, d: nat)
    requires d > 0 && a > 0
    ensures a / d <= (a - 1) / d + 1
  {
    var k := (a - 1) / d + 1;
    assert a - 1 == ((a - 1) / d) * d + (a - 1) % d;
    assert k * d == ((a - 1) / d) * d + d;
    assert a == (a / d) * d + a % d;
    CancelInt(a / d, k, d);
  }

  lemma CancelInt(x: int, y: int, d: nat)
    requires d > 0
    ensures x <= y <==> x * d <= y * d
  {
    if x <= y {
      assert (y - x) * d >= 0;
    } else {
      assert (x - y - 1) * d >= 0;
    }
  }

  /** The loop step after `failures` tries of a loop of `maxTries` have failed. */
  function LoopStep(last: int, start: int, maxTries: int, failures: nat): int
    decreases failures
  {
    if failures == 0 then start
    else NextRetryStep(last, LoopStep(last, start, maxTries, failures - 1), maxTries - failures)
  }

  /** Within one loop the step never decreases and never exceeds the last step. */
  lemma {:induction false} LoopStepGrows(last: int, start: int, maxTries: int, i: nat, j: nat)
    requires start <= last && i <= j
    ensures LoopStep(last, start, maxTries, i) <= LoopStep(last, start, maxTries, j) <= last
    ensures start <= LoopStep(last, start, maxTries, i)
    decreases j
  {
    if i < j {
      LoopStepGrows(last, start, maxTries, i, j - 1);
      NextRetryStepBounds(last, LoopStep(last, start, maxTries, j - 1), maxTries - j);
    } else if i > 0 {
      LoopStepGrows(last, start, maxTries, i - 1, i - 1);
      NextRetryStepBounds(last, LoopStep(last, start, maxTries, i - 1), maxTries - i);
    }
  }

  /** A loop that has at most two tries left, having failed at least once, is at the last step. */
  lemma LoopReachesLast(last: int, start: int, maxTries: int, failures: nat)
    requires start <= last && maxTries >= 2
    requires 0 < failures < maxTries && maxTries - failures <= 2
    ensures LoopStep(last, start, maxTries, failures) == last
  {
    LoopStepGrows(last, start, maxTries, failures - 1, failures - 1);
    NextRetryStepBounds(last, LoopStep(last, start, maxTries, failures - 1), maxTries - failures);
  }

  /** Starting a loop at a higher step never gives a lower step later in it. */
  lemma {:induction false} LoopStepMonotone(last: int, start: int, higher: int, maxTries: int, failures: nat)
    requires start <= higher <= last
    ensures LoopStep(last, start, maxTries, failures) <= LoopStep(last, higher, maxTries, failures)
    decreases failures
  {
    if failures > 0 {
      LoopStepMonotone(last, start, higher, maxTries, failures - 1);
      LoopStepGrows(last, higher, maxTries, failures - 1, failures - 1);
      NextRetryStepMonotone(last, LoopStep(last, start, maxTries, failures - 1),
                            LoopStep(last, higher, maxTries, failures - 1), maxTries - failures);
    }
  }

  /** The step a multiplier stands for: the first at or above the floor that is no
      shorter than the multiplier, or the last step when there is none. */
  method MultiplierToStep(multiplier: real, floor: int) returns (step: int)
    requires 0 <= floor <= STEP_LAST
    ensures step == StepFor(multiplier, floor)
  {
    var imult := Truncate(multiplier * 100.0);
    var ndx := floor;
    while ndx <= STEP_LAST
      invariant floor <= ndx <= STEP_LAST + 1
      invariant forall k :: floor <= k < ndx ==> STEPS[k] < imult
    {
      if STEPS[ndx] >= imult {
        break;
      }
      ndx := ndx + 1;
    }
    step := if ndx > STEP_LAST then STEP_LAST else ndx;
    StepForIsFirst(multiplier, floor, step);
  }

  function StepFor(multiplier: real, floor: int): (step: int)
    requires 0 <= floor <= STEP_LAST
    ensures floor <= step <= STEP_LAST
    ensures step < STEP_LAST ==> STEPS[step] >= Truncate(multiplier * 100.0)
    ensures forall k :: floor <= k < step ==> STEPS[k] < Truncate(multiplier * 100.0)
    decreases STEP_LAST - floor
  {
    if floor == STEP_LAST || STEPS[floor] >= Truncate(multiplier * 100.0) then floor
    else StepFor(multiplier, floor + 1)
  }

  lemma {:induction false} StepForIsFirst(multiplier: real, floor: int, step: int)
    requires 0 <= floor <= step <= STEP_LAST
    requires step < STEP_LAST ==> STEPS[step] >= Truncate(multiplier * 100.0)
    requires forall k :: floor <= k < step ==> STEPS[k] < Truncate(multiplier * 100.0)
    ensures step == StepFor(multiplier, floor)
    decreases step - floor
  {
    if floor < step {
      StepForIsFirst(multiplier, floor + 1, step);
    }
  }

  /** A step converted to its multiplier and back is the same step, so the table is
      strictly increasing, provided the step is not below the floor. */
  lemma MultiplierOfStep(step: int, floor: int)
    requires 0 <= floor <= step <= STEP_LAST
    ensures StepFor(STEPS[step] as real / 100.0, floor) == step
  {
    var m := STEPS[step] as real / 100.0;
    assert m * 100.0 == STEPS[step] as real;
    assert Truncate(m * 100.0) == STEPS[step];
    StepForIsFirst(m, floor, step);
  }
}

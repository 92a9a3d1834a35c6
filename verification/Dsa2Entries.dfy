/** What recording an operation makes of a table, in terms of the tries that its entries took. */
module Dsa2Entries {
  import opened CArith
  import opened CircularBuffer
  import opened Dsa2
  import opened Dsa2Properties
  import opened StatusCodes
  import opened StepTable

  /** All successes of a table, the new one last. */
  function Entries(t: Table, tries: int, now: int): seq<Invocation> {
    t.recent + [Invocation(now, tries, t.loopStep)]
  }

  /** The last n elements, or all of them. */
  function Last<T>(s: seq<T>, n: nat): seq<T> {
    if |s| <= n then s else s[|s| - n..]
  }

  function SumOfTries(w: seq<Invocation>): int {
    if w == [] then 0 else w[0].tryct + SumOfTries(w[1..])
  }

  /** Five or more entries, none above two tries, fewer than 1.2 tries on average. */
  predicate FewTries(w: seq<Invocation>) {
    |w| >= 5 && (forall k :: 0 <= k < |w| ==> w[k].tryct <= 2) && 10 * SumOfTries(w) < 12 * |w|
  }

  /** An entry above the bound on tries, or an average above the bound on that. */
  predicate ManyTries(c: Config, w: seq<Invocation>) {
    (exists k :: 0 <= k < |w| && w[k].tryct > c.greatestUpper) || 10 * SumOfTries(w) >= (c.avgUpper10 + 1) * |w|
  }

  // The tallies

  lemma {:induction false} TotalAppend(w: seq<Invocation>, x: Invocation)
    ensures SumOfTries(w + [x]) == SumOfTries(w) + x.tryct
    decreases |w|
  {
    if w == [] {
      assert w + [x] == [x] && [x][1..] == [];
    } else {
      assert (w + [x])[1..] == w[1..] + [x];
      TotalAppend(w[1..], x);
    }
  }

  lemma {:induction false} TotalIsSum(w: seq<Invocation>)
    ensures TotalTries(w) == SumOfTries(w)
    decreases |w|
  {
    if w != [] {
      var n := |w| - 1;
      TotalIsSum(w[..n]);
      TotalAppend(w[..n], w[n]);
      assert w[..n] + [w[n]] == w;
    }
  }

  lemma {:induction false} MaxAtMost(w: seq<Invocation>, bound: int)
    requires bound >= 0
    ensures MaxTries(w) <= bound <==> forall k :: 0 <= k < |w| ==> w[k].tryct <= bound
    decreases |w|
  {
    if w != [] {
      MaxAtMost(w[..|w| - 1], bound);
    }
  }

  /** The truncated average in tenths, compared without division. */
  lemma AverageAtMost(total: int, n: int, tenths: int)
    requires n > 0 && tenths >= 0
    ensures Average10(total, n) <= tenths <==> 10 * total < (tenths + 1) * n
  {
    if total >= 0 {
      QuotientAtMost(10 * total, n, tenths);
    } else {
      assert (-total * 10) / n >= 0;
      assert (tenths + 1) * n > 0;
    }
  }

  lemma QuotientAtMost(a: nat, n: nat, q: nat)
    requires n > 0
    ensures a / n <= q <==> a < (q + 1) * n
  {
    assert a == (a / n) * n + a % n;
    if a / n <= q {
      assert (q - a / n) * n >= 0;
    } else {
      assert (a / n - q - 1) * n >= 0;
    }
  }

  lemma WindowIsLast(t: Table, tries: int, now: int)
    ensures LastN(WithSuccess(t, tries, now), WINDOW) == Last(Entries(t, tries, now), 10)
    ensures WithSuccess(t, tries, now) == Last(Entries(t, tries, now), 100)
  {
  }

  // A success

  /** A success after which recent ones are consulted. */
  predicate IsEasy(t: Table, tries: int) {
    t.loopNullCt <= 0 && (tries <= 2 || (tries == 3 && t.remainingInterval == 1))
  }

  function Ratchet(t: Table, nullAdjusted: bool): int {
    if nullAdjusted && t.loopStep > t.nullMaxStep then t.loopStep else t.nullMaxStep
  }

  /** Recent successes call for a higher step. */
  predicate CallsForRaise(c: Config, t: Table, w: seq<Invocation>) {
    ManyTries(c, w) && t.curStep < t.loopStep
  }

  /** Recent successes call for a lower step. */
  predicate CallsForLower(c: Config, t: Table, nullAdjusted: bool, w: seq<Invocation>) {
    && !CallsForRaise(c, t, w) && FewTries(w)
    && t.curStep > 0 && (t.curStep > 3 || t.curStep > Ratchet(t, nullAdjusted))
  }

  lemma FewTriesAre(w: seq<Invocation>)
    requires w != []
    ensures FewTries(w) <==> |w| >= 5 && MaxTries(w) <= 2 && Average10(TotalTries(w), |w|) <= 11
  {
    hide MaxTries, TotalTries, Average10, SumOfTries;
    TotalIsSum(w);
    MaxAtMost(w, 2);
    AverageAtMost(TotalTries(w), |w|, 11);
  }

  lemma ManyTriesAre(c: Config, w: seq<Invocation>)
    requires ConfigOk(c) && w != []
    ensures ManyTries(c, w) <==> MaxTries(w) > c.greatestUpper || Average10(TotalTries(w), |w|) > c.avgUpper10
  {
    hide MaxTries, TotalTries, Average10, SumOfTries;
    TotalIsSum(w);
    MaxAtMost(w, c.greatestUpper);
    AverageAtMost(TotalTries(w), |w|, c.avgUpper10);
  }

  lemma VerdictOnEntries(c: Config, t: Table, tries: int, nullAdjusted: bool, now: int)
    requires ConfigOk(c) && StepsOrdered(t) && IsEasy(t, tries)
    ensures var v := FinalVerdict(c, Ratcheted(t, nullAdjusted), DDCRC_OK, tries, now);
            var w := Last(Entries(t, tries, now), 10);
            && (v == Raise <==> CallsForRaise(c, t, w)) && (v == Lower <==> CallsForLower(c, t, nullAdjusted, w))
            && (v == Lower || v == AtFloor <==> !CallsForRaise(c, t, w) && FewTries(w) && t.curStep > 0)
  {
    hide MaxTries, TotalTries, Average10, SumOfTries, FewTries, ManyTries, LastN, WithSuccess;
    var t' := Ratcheted(t, nullAdjusted);
    var w := Last(Entries(t, tries, now), 10);
    WindowIsLast(t', tries, now);
    FewTriesAre(w);
    ManyTriesAre(c, w);
  }

  /** A success leaves, in terms of the entries alone: a table whose ring has the new entry;
      a step that is up by one, from that of the loop, after a null response or more than three
      tries, that is down by one if recent successes call for it, and that is else what it was,
      apart from the floor; and, counted, the raise that they call for. */
  lemma SuccessOnEntries(c: Config, t: Table, tries: int, nullAdjusted: bool, now: int)
    requires ConfigOk(c) && StepsOrdered(t) && c.enabled
    ensures var r := FinalOutcome(c, t, DDCRC_OK, tries, nullAdjusted, now);
            var w := Last(Entries(t, tries, now), 10);
            && r.Done?
            && r.table.recent == Last(Entries(t, tries, now), 100)
            && r.table.successCt == t.successCt + 1
            && r.table.loopStep == r.table.curStep && r.table.loopNullCt == 0
            && r.table.curStep
               == Max(c.stepFloor, if t.loopNullCt > 0 || tries > 3 then Min(t.loopStep + 1, 10)
                                   else if IsEasy(t, tries) && CallsForLower(c, t, nullAdjusted, w) then t.curStep - 1
                                   else t.curStep)
            && (IsEasy(t, tries) && c.stepFloor <= t.curStep ==>
                  r.table.stepsUp == t.stepsUp + if CallsForRaise(c, t, w) then 1 else 0)
            && r.table.remainingInterval
               == if t.loopNullCt > 0 || tries > 3 then t.remainingInterval
                  else if IsEasy(t, tries) then 3 else t.remainingInterval - 1
  {
    hide MaxTries, TotalTries, Average10, SumOfTries, LastN, WithSuccess, FewTries, ManyTries, Judge,
         VerdictOn, FinalVerdict;
    WindowIsLast(Ratcheted(t, nullAdjusted), tries, now);
    if IsEasy(t, tries) {
      VerdictOnEntries(c, t, tries, nullAdjusted, now);
    } else {
      NotConsulted(c, Ratcheted(t, nullAdjusted), DDCRC_OK, tries, now);
    }
  }

  /** The other fields after a success.  A raise that recent successes call for is counted up and
      a lowering down, and then the difference to the step that the table is left with, which
      undoes the raise and counts the lowering again; look back and average are those of the
      entries consulted; nothing else changes but the ratchet. */
  lemma SuccessCounts(c: Config, t: Table, tries: int, nullAdjusted: bool, now: int)
    requires ConfigOk(c) && StepsOrdered(t) && c.enabled
    ensures var r := FinalOutcome(c, t, DDCRC_OK, tries, nullAdjusted, now);
            var w := Last(Entries(t, tries, now), 10);
            var up := if IsEasy(t, tries) && CallsForRaise(c, t, w) then 1 else 0;
            var down := if IsEasy(t, tries) && CallsForLower(c, t, nullAdjusted, w) then 1 else 0;
            && r.Done?
            && var d := r.table.curStep - (t.curStep + up);
            && r.table.stepsUp == t.stepsUp + up + Max(d, 0)
            && r.table.adjustmentsUp == t.adjustmentsUp + up + (if d > 0 then 1 else 0)
            && r.table.stepsDown == t.stepsDown + down + Max(-d, 0)
            && r.table.adjustmentsDown == t.adjustmentsDown + down + (if d < 0 then 1 else 0)
            && (r.table.curLookback
                == if IsEasy(t, tries) && !CallsForRaise(c, t, w) && FewTries(w) && t.curStep > 0 then |w|
                   else t.curLookback)
            && (if IsEasy(t, tries) then IsAverage10(r.table.latestAvg10, w) else r.table.latestAvg10 == t.latestAvg10)
            && r.table.nullMaxStep == Ratchet(t, nullAdjusted)
            && r.table.highestFailureStep == t.highestFailureStep && r.table.busno == t.busno
            && r.table.initialStep == t.initialStep && r.table.initialLookback == t.initialLookback
            && r.table.retryableFailureCt == t.retryableFailureCt
            && r.table.edidCheckByte == t.edidCheckByte && r.table.flags == t.flags
  {
    hide MaxTries, TotalTries, Average10, SumOfTries, LastN, WithSuccess, FewTries, ManyTries, Judge, VerdictOn,
         FinalVerdict, IsAverage10;
    var w := Last(Entries(t, tries, now), 10);
    WindowIsLast(Ratcheted(t, nullAdjusted), tries, now);
    AverageIs(w);
    if IsEasy(t, tries) {
      VerdictOnEntries(c, t, tries, nullAdjusted, now);
    } else {
      NotConsulted(c, Ratcheted(t, nullAdjusted), DDCRC_OK, tries, now);
    }
  }

  /** Ten times the average number of tries, without its fraction. */
  predicate IsAverage10(a: int, w: seq<Invocation>) {
    if SumOfTries(w) >= 0 then a * |w| <= 10 * SumOfTries(w) < (a + 1) * |w|
    else a * |w| >= 10 * SumOfTries(w) > (a - 1) * |w|
  }

  lemma AverageIs(w: seq<Invocation>)
    requires w != []
    ensures IsAverage10(Average10(TotalTries(w), |w|), w)
  {
    TotalIsSum(w);
    hide SumOfTries, TotalTries;
    QuotientIs(SumOfTries(w) * 10, |w|);
  }

  lemma QuotientIs(x: int, n: nat)
    requires n > 0
    ensures var q := Quot(x, n); if x >= 0 then q * n <= x < (q + 1) * n else q * n >= x > (q - 1) * n
  {
    if x >= 0 {
      DivisionIs(x, n);
    } else {
      DivisionIs(-x, n);
    }
  }

  lemma DivisionIs(a: int, n: int)
    requires a >= 0 && n > 0
    ensures (a / n) * n <= a < (a / n + 1) * n
    ensures -(a / n) * n >= -a > (-(a / n) - 1) * n
  {
    var q := a / n;
    assert a == q * n + a % n;
    assert (q + 1) * n == q * n + n;
    assert -q * n == -(q * n);
    assert (-q - 1) * n == -(q * n) - n;
  }

  lemma NotConsulted(c: Config, t: Table, status: int, tries: int, now: int)
    ensures !Consulted(t, status, tries) ==> FinalVerdict(c, t, status, tries, now) == Keep
  {
  }

  /** With the loop at the current step above the floor, an easy success lowers the step by one
      if and only if the last ten entries hold five or more, of two tries at most and of fewer
      than 1.2 on average, and the step is above 0 and above 3 or the ratchet; it never counts a
      raise. */
  lemma LoweredIff(c: Config, t: Table, tries: int, nullAdjusted: bool, now: int)
    requires ConfigOk(c) && StepsOrdered(t) && c.enabled && IsEasy(t, tries)
    requires t.loopStep == t.curStep > c.stepFloor
    ensures var r := FinalOutcome(c, t, DDCRC_OK, tries, nullAdjusted, now);
            var w := Last(Entries(t, tries, now), 10);
            && r.Done? && r.table.stepsUp == t.stepsUp
            && (r.table.curStep == t.curStep - 1 <==>
                  && |w| >= 5 && (forall k :: 0 <= k < |w| ==> w[k].tryct <= 2) && 10 * SumOfTries(w) < 12 * |w|
                  && t.curStep > 0 && (t.curStep > 3 || t.curStep > Ratchet(t, nullAdjusted)))
            && (r.table.curStep == t.curStep || r.table.curStep == t.curStep - 1)
  {
    SuccessOnEntries(c, t, tries, nullAdjusted, now);
  }

  // A failure

  /** A failure leaves the ring, and what is known of successes, as they were; it notes the
      highest step of a failed loop, begins a new interval, and goes one step above the loop. */
  lemma FailureOnEntries(c: Config, t: Table, status: int, tries: int, nullAdjusted: bool, now: int)
    requires ConfigOk(c) && StepsOrdered(t) && c.enabled
    requires status != DDCRC_OK && status != DDCRC_ALL_RESPONSES_NULL
    ensures var r := FinalOutcome(c, t, status, tries, nullAdjusted, now);
            && r.Done?
            && r.table.recent == t.recent && r.table.successCt == t.successCt
            && r.table.curStep == r.table.loopStep == Max(c.stepFloor, Min(t.loopStep + 1, 10))
            && r.table.highestFailureStep == Max(t.highestFailureStep, t.loopStep)
            && r.table.nullMaxStep == Ratchet(t, nullAdjusted)
            && r.table.remainingInterval == 3 && r.table.loopNullCt == 0
            && var d := r.table.curStep - t.curStep;
            && r.table.stepsUp == t.stepsUp + Max(d, 0) && r.table.stepsDown == t.stepsDown + Max(-d, 0)
            && r.table.adjustmentsUp == t.adjustmentsUp + (if d > 0 then 1 else 0)
            && r.table.adjustmentsDown == t.adjustmentsDown + (if d < 0 then 1 else 0)
            && r.table.curLookback == t.curLookback && r.table.latestAvg10 == t.latestAvg10
  {
  }

  function NullsAmong(failures: seq<Failure>): nat {
    if failures == [] then 0 else (if failures[0].status == -3002 then 1 else 0) + NullsAmong(failures[1..])
  }

  lemma {:induction false} NullsAppend(failures: seq<Failure>, f: Failure)
    ensures NullsAmong(failures + [f]) == NullsAmong(failures) + if f.status == -3002 then 1 else 0
    decreases |failures|
  {
    if failures == [] {
      assert failures + [f] == [f] && [f][1..] == [];
    } else {
      assert (failures + [f])[1..] == failures[1..] + [f];
      NullsAppend(failures[1..], f);
    }
  }

  /** The failures noted in a loop are counted, the null responses among them on their own, and
      nothing but the loop step changes besides. */
  lemma {:induction false} FailuresAreCounted(t: Table, failures: seq<Failure>)
    ensures var t' := AfterFailures(t, failures);
            && t'.loopNullCt == t.loopNullCt + NullsAmong(failures)
            && t' == t.(loopNullCt := t'.loopNullCt, loopStep := t'.loopStep,
                        retryableFailureCt := t.retryableFailureCt + |failures|)
    decreases |failures|
  {
    if failures != [] {
      var n := |failures| - 1;
      FailuresAreCounted(t, failures[..n]);
      NullsAppend(failures[..n], failures[n]);
      assert failures[..n] + [failures[n]] == failures;
    }
  }

  /** So a success after a loop in which a null response was noted always raises the step. */
  lemma NullInLoopRaises(c: Config, t: Table, failures: seq<Failure>, tries: int, nullAdjusted: bool, now: int)
    requires ConfigOk(c) && StepsOrdered(t) && c.enabled && t.loopNullCt >= 0
    requires exists k :: 0 <= k < |failures| && failures[k].status == -3002
    ensures var loop := AfterFailures(t, failures);
            var r := FinalOutcome(c, loop, DDCRC_OK, tries, nullAdjusted, now);
            r.Done? && r.table.curStep == Max(c.stepFloor, Min(loop.loopStep + 1, 10))
  {
    hide FinalOutcome, AfterFailures;
    FailuresAreCounted(t, failures);
    FailuresClimb(t, failures);
    SomeNull(failures);
    SuccessOnEntries(c, AfterFailures(t, failures), tries, nullAdjusted, now);
  }

  lemma {:induction false} SomeNull(failures: seq<Failure>)
    requires exists k :: 0 <= k < |failures| && failures[k].status == -3002
    ensures NullsAmong(failures) > 0
    decreases |failures|
  {
    var k :| 0 <= k < |failures| && failures[k].status == -3002;
    if k > 0 {
      assert failures[1..][k - 1] == failures[k];
      SomeNull(failures[1..]);
    }
  }
}

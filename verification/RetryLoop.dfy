/** The try loop that drives the dynamic sleep algorithm. */
module RetryLoop {
  import opened CArith
  import opened CircularBuffer
  import opened Dsa2
  import opened Dsa2Entries
  import opened Dsa2Properties
  import opened StatusCodes
  import opened StepTable

  const EIO := 5
  const ENXIO := 6
  const EBADF := 9
  const EBUSY := 16

  const NULL_RESPONSE_MAX := 3

  datatype Expected = Value | TableRead | Capabilities

  /** What is read, from a display that may use null responses for unsupported features.  Only
      a capabilities read sets the capabilities flag. */
  datatype Request = Request(maxTries: nat, expected: Expected, usesNull: bool, testing: bool, allZeroOk: bool)

  /** A display is not under test once it is known to use null responses. */
  predicate RequestOk(q: Request) {
    q.maxTries >= 1 && !(q.testing && q.usesNull)
  }

  /** How a try goes; whether the bus is gone is looked at after two kinds of failure. */
  datatype Try = Try(rc: int, busGone: bool)

  /** A null response that may mean that the feature is unsupported. */
  predicate CountedNull(q: Request, rc: int) {
    rc == DDCRC_NULL_RESPONSE && !q.testing && ((q.expected.Value? && q.usesNull) || q.expected.TableRead?)
  }

  // The loop

  datatype Loop = Loop(tries: nat, rc: int, retryable: bool, nulls: nat, zeros: nat)

  const BEGIN := Loop(0, -999, true, 0, 0)

  predicate GoesOn(q: Request, l: Loop) {
    l.tries < q.maxTries && l.rc < 0 && l.retryable
  }

  function AfterTry(q: Request, l: Loop, rc: int): Loop {
    var nulls := if CountedNull(q, rc) then l.nulls + 1 else l.nulls;
    var retryable :=
      if rc >= 0 then l.retryable
      else if rc == DDCRC_NULL_RESPONSE then
        if CountedNull(q, rc) then nulls <= NULL_RESPONSE_MAX else q.testing || l.retryable
      else if rc == DDCRC_READ_ALL_ZERO then !q.allZeroOk
      else rc !in {-EIO, -EBADF, -ENXIO, -EBUSY};
    Loop(l.tries + 1, rc, retryable, nulls, if rc == DDCRC_READ_ALL_ZERO then l.zeros + 1 else l.zeros)
  }

  /** What is passed for the tries that remain: a counted null response is given three tries. */
  function Passed(q: Request, tries: nat, rc: int): int {
    if CountedNull(q, rc) then NULL_RESPONSE_MAX - 1 - tries else q.maxTries - 1 - tries
  }

  predicate IsNoted(q: Request, l: Loop, rc: int) {
    rc != 0 && AfterTry(q, l, rc).retryable && q.maxTries - 1 - l.tries > 0
  }

  function Noted(q: Request, l: Loop, t: Table, rc: int): Table {
    if IsNoted(q, l, rc) then NoteFailure(t, rc, Passed(q, l.tries, rc)) else t
  }

  datatype End = Ended(loop: Loop, table: Table) | Broken(table: Table)

  predicate Breaks(t: Try) {
    (t.rc == -EIO || t.rc == -ENXIO) && t.busGone
  }

  function Finish(q: Request, try: nat -> Try, l: Loop, t: Table): End
    decreases if l.tries < q.maxTries then q.maxTries - l.tries else 0
  {
    if !GoesOn(q, l) then Ended(l, t)
    else if Breaks(try(l.tries)) then Broken(t)
    else Finish(q, try, AfterTry(q, l, try(l.tries).rc), Noted(q, l, t, try(l.tries).rc))
  }

  /** Every response was null and that may mean unsupported. */
  predicate AllNull(q: Request, l: Loop) {
    (q.usesNull || q.expected.TableRead?) && !q.expected.Capabilities? && l.nulls == l.tries
  }

  /** The table after the whole operation.  If the bus is gone nothing is recorded. */
  function WriteRead(c: Config, q: Request, try: nat -> Try, t: Table, nullAdjusted: bool, now: int): Outcome {
    match Finish(q, try, BEGIN, t)
    case Broken(t') => Done(t')
    case Ended(l, t') => FinalOutcome(c, t', l.rc, if AllNull(q, l) then 1 else l.tries, nullAdjusted, now)
  }

  /** The status that the operation returns. */
  function Returned(q: Request, l: Loop): int {
    if l.rc >= 0 then l.rc
    else if l.retryable then DDCRC_RETRIES
    else if l.zeros == q.maxTries then DDCRC_ALL_TRIES_ZERO
    else if AllNull(q, l) then DDCRC_DETERMINED_UNSUPPORTED
    else if l.nulls > NULL_RESPONSE_MAX then DDCRC_ALL_RESPONSES_NULL
    else l.rc
  }

  /** ddc_write_read_with_retry(), as far as it drives the table: `failed` is the line of the
      assert that failed, or 0; `rc` is what is returned unless the bus is gone. */
  method WriteReadWithRetry(c: Config, q: Request, try: nat -> Try, table: ResultsTable, nullAdjusted: bool, now: int)
    returns (rc: int, gone: bool, failed: nat)
    requires RequestOk(q) && table.Valid()
    modifies table, table.recent, table.recent.values
    ensures table.Valid()
    ensures gone <==> Finish(q, try, BEGIN, old(table.View())).Broken?
    ensures !gone ==> rc == Returned(q, Finish(q, try, BEGIN, old(table.View())).loop)
    ensures failed == 0 ==> WriteRead(c, q, try, old(table.View()), nullAdjusted, now) == Done(table.View())
    ensures failed != 0 ==> WriteRead(c, q, try, old(table.View()), nullAdjusted, now) == Aborted(failed)
  {
    hide NoteFailure, FinalOutcome;
    rc, gone, failed := 0, false, 0;
    ghost var end := Finish(q, try, BEGIN, table.View());
    var tries, psc, retryable, nulls, zeros := 0, -999, true, 0, 0;
    while tries < q.maxTries && psc < 0 && retryable
      invariant table.Valid()
      invariant Finish(q, try, Loop(tries, psc, retryable, nulls, zeros), table.View()) == end
      decreases q.maxTries - tries
    {
      var outcome := try(tries);
      psc := outcome.rc;
      var counted := false;
      if psc < 0 {
        if psc == DDCRC_NULL_RESPONSE {
          if q.testing {
            retryable := true;
          } else if (q.expected.Value? && q.usesNull) || q.expected.TableRead? {
            counted := true;
            nulls := nulls + 1;
            retryable := nulls <= NULL_RESPONSE_MAX;
          }
        } else if psc == DDCRC_READ_ALL_ZERO {
          retryable := !q.allZeroOk;
          zeros := zeros + 1;
        } else {
          retryable := psc !in {-EIO, -EBADF, -ENXIO, -EBUSY};
        }
        if (psc == -EIO || psc == -ENXIO) && outcome.busGone {
          gone := true;
          return;
        }
      }
      var remaining := q.maxTries - 1 - tries;
      if psc != 0 && retryable && remaining > 0 {
        table.NoteRetryableFailure(psc, if counted then NULL_RESPONSE_MAX - 1 - tries else remaining);
      }
      tries := tries + 1;
    }
    var l := Loop(tries, psc, retryable, nulls, zeros);
    failed := table.RecordFinal(c, psc, if AllNull(q, l) then 1 else tries, nullAdjusted, now);
    rc := Returned(q, l);
  }

  // What the loop does to the table

  lemma NotedKeepsTable(q: Request, l: Loop, t: Table, rc: int)
    requires StepsOrdered(t)
    ensures var t' := Noted(q, l, t, rc);
            && StepsOrdered(t') && t.loopStep <= t'.loopStep && t'.curStep == t.curStep
            && (IsNoted(q, l, rc) && 1 <= Passed(q, l.tries, rc) <= 2 ==> t'.loopStep == STEP_LAST)
  {
    NoteFailureKeepsTable(t, rc, Passed(q, l.tries, rc));
    NextRetryStepBounds(STEP_LAST, t.loopStep, Passed(q, l.tries, rc));
  }

  lemma {:induction false} FinishKeepsTable(q: Request, try: nat -> Try, l: Loop, t: Table)
    requires StepsOrdered(t)
    ensures var t' := Finish(q, try, l, t).table;
            StepsOrdered(t') && t.loopStep <= t'.loopStep && t'.curStep == t.curStep
    decreases if l.tries < q.maxTries then q.maxTries - l.tries else 0
  {
    hide Noted, AfterTry;
    if GoesOn(q, l) && !Breaks(try(l.tries)) {
      var rc := try(l.tries).rc;
      NotedKeepsTable(q, l, t, rc);
      OneMoreTry(q, l, rc);
      FinishKeepsTable(q, try, AfterTry(q, l, rc), Noted(q, l, t, rc));
    }
  }

  lemma OneMoreTry(q: Request, l: Loop, rc: int)
    ensures AfterTry(q, l, rc).tries == l.tries + 1 && AfterTry(q, l, rc).rc == rc
  {
  }

  /** Whatever happens, the operation fails no assert and leaves the steps in order; a bus that
      is gone leaves the climbed loop step to the next operation. */
  lemma WriteReadIsSafe(c: Config, q: Request, try: nat -> Try, t: Table, nullAdjusted: bool, now: int)
    requires ConfigOk(c) && StepsOrdered(t)
    ensures var r := WriteRead(c, q, try, t, nullAdjusted, now);
            && r.Done? && StepsOrdered(r.table)
            && (Finish(q, try, BEGIN, t).Broken? ==> r.table.curStep == t.curStep && r.table.loopStep >= t.loopStep)
  {
    FinishKeepsTable(q, try, BEGIN, t);
    var end := Finish(q, try, BEGIN, t);
    if end.Ended? {
      RecordFinalKeepsTable(c, end.table, end.loop.rc, if AllNull(q, end.loop) then 1 else end.loop.tries,
                            nullAdjusted, now);
    }
  }

  /** How many of the first n tries got a counted null response. */
  function NullsIn(q: Request, try: nat -> Try, n: nat): (nulls: nat)
    ensures nulls <= n
  {
    if n == 0 then 0 else NullsIn(q, try, n - 1) + if CountedNull(q, try(n - 1).rc) then 1 else 0
  }

  /** The loop has made its tries in order. */
  predicate Follows(q: Request, try: nat -> Try, l: Loop) {
    && (if l.tries == 0 then l == BEGIN else l.rc == try(l.tries - 1).rc)
    && l.nulls == NullsIn(q, try, l.tries) && l.nulls + l.zeros <= l.tries
    && (l.nulls > 0 ==> !q.expected.Capabilities? && (q.usesNull || q.expected.TableRead?))
    && (l.nulls > NULL_RESPONSE_MAX ==> l.rc == DDCRC_NULL_RESPONSE && !l.retryable)
  }

  lemma {:induction false} FinishFollows(q: Request, try: nat -> Try, l: Loop, t: Table)
    requires Follows(q, try, l) && l.tries <= q.maxTries
    ensures var end := Finish(q, try, l, t);
            end.Ended? ==> Follows(q, try, end.loop) && end.loop.tries <= q.maxTries && !GoesOn(q, end.loop)
    decreases q.maxTries - l.tries
  {
    if GoesOn(q, l) && !Breaks(try(l.tries)) {
      var rc := try(l.tries).rc;
      FinishFollows(q, try, AfterTry(q, l, rc), Noted(q, l, t, rc));
    }
  }

  // Operations that fail

  /** What the table records is the status of the last try.  So unless a try ends with "all
      responses null" that status is never recorded, and after a failure the next operation
      starts at the last step if and only if the loop climbed to it or to the one before, or
      the floor is the last step. */
  lemma FailedOperationIff(c: Config, q: Request, try: nat -> Try, t: Table, nullAdjusted: bool, now: int)
    requires RequestOk(q) && ConfigOk(c) && c.enabled && StepsOrdered(t)
    requires forall k :: try(k).rc != DDCRC_ALL_RESPONSES_NULL
    requires var end := Finish(q, try, BEGIN, t); end.Ended? && end.loop.rc < 0
    ensures var end := Finish(q, try, BEGIN, t);
            var r := WriteRead(c, q, try, t, nullAdjusted, now);
            && end.loop.tries > 0 && end.loop.rc == try(end.loop.tries - 1).rc
            && r.Done? && r.table.curStep == r.table.loopStep
            && (r.table.curStep == STEP_LAST <==> end.table.loopStep >= STEP_LAST - 1 || c.stepFloor == STEP_LAST)
  {
    FinishKeepsTable(q, try, BEGIN, t);
    FinishFollows(q, try, BEGIN, t);
    var end := Finish(q, try, BEGIN, t);
    FailureEndsAtLastStepIff(c, end.table, end.loop.rc, if AllNull(q, end.loop) then 1 else end.loop.tries,
                             nullAdjusted, now);
  }

  /** A loop that makes all its tries passes 1 at the last but one, unless that one got a
      counted null response; then what it passes is 1 or 2 only in a loop of two or three. */
  lemma {:induction false} FullLoopClimbs(q: Request, try: nat -> Try, l: Loop, t: Table)
    requires StepsOrdered(t) && l.tries + 2 <= q.maxTries
    requires var end := Finish(q, try, l, t); end.Ended? && end.loop.rc < 0 && end.loop.tries == q.maxTries
    requires CountedNull(q, try(q.maxTries - 2).rc) ==> q.maxTries <= 3
    ensures Finish(q, try, l, t).table.loopStep == STEP_LAST
    decreases q.maxTries - l.tries
  {
    var rc := try(l.tries).rc;
    var l', t' := AfterTry(q, l, rc), Noted(q, l, t, rc);
    NotedKeepsTable(q, l, t, rc);
    FinishKeepsTable(q, try, l', t');
    if l'.tries + 2 <= q.maxTries {
      FullLoopClimbs(q, try, l', t');
    }
  }

  /** A failed operation of two or more tries that makes all its tries leaves the next one at the
      last step, unless it is of four or more and its last but one try got a counted null response. */
  lemma FullLoopEndsAtLastStep(c: Config, q: Request, try: nat -> Try, t: Table, nullAdjusted: bool, now: int)
    requires RequestOk(q) && ConfigOk(c) && c.enabled && StepsOrdered(t) && q.maxTries >= 2
    requires forall k :: try(k).rc != DDCRC_ALL_RESPONSES_NULL
    requires var end := Finish(q, try, BEGIN, t); end.Ended? && end.loop.rc < 0 && end.loop.tries == q.maxTries
    requires CountedNull(q, try(q.maxTries - 2).rc) ==> q.maxTries <= 3
    ensures var r := WriteRead(c, q, try, t, nullAdjusted, now);
            r.Done? && r.table.curStep == r.table.loopStep == STEP_LAST
  {
    FullLoopClimbs(q, try, BEGIN, t);
    FailedOperationIff(c, q, try, t, nullAdjusted, now);
  }

  // Null responses

  lemma {:induction false} NotAllNull(q: Request, try: nat -> Try, n: nat)
    ensures NullsIn(q, try, n) < n <==> exists k :: 0 <= k < n && !CountedNull(q, try(k).rc)
  {
    if n > 0 {
      NotAllNull(q, try, n - 1);
    }
  }

  /** "All responses null" is returned exactly when more than three responses were null and
      some response was not. */
  lemma AllNullIsReturnedIff(q: Request, try: nat -> Try, t: Table)
    requires RequestOk(q) && forall k :: try(k).rc != DDCRC_ALL_RESPONSES_NULL
    requires Finish(q, try, BEGIN, t).Ended?
    ensures var l := Finish(q, try, BEGIN, t).loop;
            Returned(q, l) == DDCRC_ALL_RESPONSES_NULL <==>
              NullsIn(q, try, l.tries) > NULL_RESPONSE_MAX
              && exists k :: 0 <= k < l.tries && !CountedNull(q, try(k).rc)
  {
    FinishFollows(q, try, BEGIN, t);
    NotAllNull(q, try, Finish(q, try, BEGIN, t).loop.tries);
  }

  /** A loop that has got nothing but counted null responses. */
  predicate OnlyNulls(l: Loop) {
    && l.nulls == l.tries <= NULL_RESPONSE_MAX + 1 && l.zeros == 0
    && (l.tries == 0 ==> l == BEGIN) && (l.tries > 0 ==> l.rc == DDCRC_NULL_RESPONSE)
    && (l.retryable <==> l.nulls <= NULL_RESPONSE_MAX)
  }

  lemma {:induction false} NullsFinish(q: Request, try: nat -> Try, l: Loop, t: Table)
    requires RequestOk(q) && CountedNull(q, DDCRC_NULL_RESPONSE) && StepsOrdered(t)
    requires OnlyNulls(l) && l.tries <= q.maxTries && forall k :: try(k).rc == DDCRC_NULL_RESPONSE
    requires l.tries > 0 && q.maxTries >= 2 ==> t.loopStep == STEP_LAST
    ensures var end := Finish(q, try, l, t);
            && end.Ended? && OnlyNulls(end.loop) && StepsOrdered(end.table)
            && end.loop.tries == Min(q.maxTries, NULL_RESPONSE_MAX + 1)
            && (q.maxTries >= 2 ==> end.table.loopStep == STEP_LAST)
    decreases q.maxTries - l.tries
  {
    if GoesOn(q, l) {
      NotedKeepsTable(q, l, t, DDCRC_NULL_RESPONSE);
      NullsFinish(q, try, AfterTry(q, l, DDCRC_NULL_RESPONSE), Noted(q, l, t, DDCRC_NULL_RESPONSE));
    }
  }

  /** A table read, or a read of a display that uses null responses, whose responses are all
      null ends after four tries at most.  It is recorded as one try with a null response,
      which leaves the next operation at the last step if it was allowed two tries, and it
      returns that the feature is unsupported, or that its tries ran out if allowed three. */
  lemma AllNullOperation(c: Config, q: Request, try: nat -> Try, t: Table, nullAdjusted: bool, now: int)
    requires RequestOk(q) && CountedNull(q, DDCRC_NULL_RESPONSE) && StepsOrdered(t) && ConfigOk(c) && c.enabled
    requires forall k :: try(k).rc == DDCRC_NULL_RESPONSE
    ensures var end := Finish(q, try, BEGIN, t);
            var r := WriteRead(c, q, try, t, nullAdjusted, now);
            && end.Ended? && r == FinalOutcome(c, end.table, DDCRC_NULL_RESPONSE, 1, nullAdjusted, now)
            && r.Done? && (q.maxTries >= 2 ==> r.table.curStep == r.table.loopStep == STEP_LAST)
            && Returned(q, end.loop)
               == if q.maxTries <= NULL_RESPONSE_MAX then DDCRC_RETRIES else DDCRC_DETERMINED_UNSUPPORTED
  {
    NullsFinish(q, try, BEGIN, t);
    FailedOperationIff(c, q, try, t, nullAdjusted, now);
  }

  const TABLE_READ := Request(10, TableRead, false, false, false)

  /** Six bad responses, three null ones, one bad one. */
  function SixBadThreeNull(k: nat): Try {
    Try(if 6 <= k <= 8 then DDCRC_NULL_RESPONSE else DDCRC_DDC_DATA, false)
  }

  const MIXED_STEPS: seq<int> := [0, 1, 2, 3, 4, 5, 6, 6, 6, 6, 6]

  function MixedLoop(i: nat): Loop {
    if i == 0 then BEGIN
    else Loop(i, SixBadThreeNull(i - 1).rc, true, if i <= 6 then 0 else if i <= 9 then i - 6 else 3, 0)
  }

  lemma MixedTry(t: Table, i: nat)
    requires StepsOrdered(t) && i < 10 && t.loopStep == MIXED_STEPS[i]
    ensures var l, rc := MixedLoop(i), SixBadThreeNull(i).rc;
            && GoesOn(TABLE_READ, l) && AfterTry(TABLE_READ, l, rc) == MixedLoop(i + 1)
            && var t' := Noted(TABLE_READ, l, t, rc);
            StepsOrdered(t') && t'.loopStep == MIXED_STEPS[i + 1] && t'.curStep == t.curStep
  {
    var rc := SixBadThreeNull(i).rc;
    NextRetryStepBounds(STEP_LAST, t.loopStep, Passed(TABLE_READ, i, rc));
    NotedKeepsTable(TABLE_READ, MixedLoop(i), t, rc);
  }

  lemma {:induction false} MixedFinish(t: Table, i: nat)
    requires StepsOrdered(t) && i <= 10 && t.loopStep == MIXED_STEPS[i]
    ensures var end := Finish(TABLE_READ, SixBadThreeNull, MixedLoop(i), t);
            && end.Ended? && end.loop == MixedLoop(10)
            && StepsOrdered(end.table) && end.table.loopStep == 6 && end.table.curStep == t.curStep
    decreases 10 - i
  {
    hide GoesOn, AfterTry, Noted, MixedLoop;
    if i < 10 {
      MixedTry(t, i);
      MixedTries(i);
      MixedFinish(Noted(TABLE_READ, MixedLoop(i), t, SixBadThreeNull(i).rc), i + 1);
    } else {
      MixedEnd();
    }
  }

  lemma MixedTries(i: nat)
    ensures MixedLoop(i).tries == i
  {
  }

  lemma MixedEnd()
    ensures !GoesOn(TABLE_READ, MixedLoop(10))
  {
  }

  /** The exception is real.  A table read of ten tries from step 0 that fails every time, with
      null responses seventh to ninth, passes 9 to 4 and then -4 to -6, and leaves the next
      operation at step 7. */
  lemma MixedNullsStayBelow(c: Config, t: Table, nullAdjusted: bool, now: int)
    requires ConfigOk(c) && c.enabled && c.stepFloor <= 7
    requires StepsOrdered(t) && t.curStep == t.loopStep == 0
    ensures forall k :: 0 <= k < 9 ==> Passed(TABLE_READ, k, SixBadThreeNull(k).rc) == if k < 6 then 9 - k else 2 - k
    ensures var r := WriteRead(c, TABLE_READ, SixBadThreeNull, t, nullAdjusted, now);
            r.Done? && r.table.curStep == 7
  {
    MixedFinish(t, 0);
    var end := Finish(TABLE_READ, SixBadThreeNull, BEGIN, t);
    FailureEndsAtLastStepIff(c, end.table, DDCRC_DDC_DATA, 10, nullAdjusted, now);
  }

  // The tries made, and what is returned for them

  /** A failed try after which another is made if any is left. */
  predicate Continues(q: Request, try: nat -> Try, k: nat) {
    && try(k).rc < 0 && try(k).rc !in {-5, -6, -9, -16}
    && !(try(k).rc == -3006 && q.allZeroOk)
    && NullsIn(q, try, k + 1) <= 3
  }

  /** The loop has gone on after each try but the last, and knows whether it may after that. */
  predicate Progressed(q: Request, try: nat -> Try, l: Loop) {
    && Follows(q, try, l)
    && (forall k: nat :: k + 1 < l.tries ==> Continues(q, try, k) && !Breaks(try(k)))
    && (l.tries > 0 ==>
          && (l.retryable <==> l.rc >= 0 || Continues(q, try, l.tries - 1))
          && !Breaks(try(l.tries - 1)))
  }

  lemma NextProgress(q: Request, try: nat -> Try, l: Loop)
    requires Progressed(q, try, l) && GoesOn(q, l) && !Breaks(try(l.tries))
    ensures Progressed(q, try, AfterTry(q, l, try(l.tries).rc))
  {
    var l' := AfterTry(q, l, try(l.tries).rc);
    assert l.tries > 0 ==> Continues(q, try, l.tries - 1);
    assert NullsIn(q, try, l.tries) <= 3;
    assert NullsIn(q, try, l.tries + 1) == l'.nulls;
  }

  lemma {:induction false} FinishProgresses(q: Request, try: nat -> Try, l: Loop, t: Table)
    requires RequestOk(q) && Progressed(q, try, l) && l.tries <= q.maxTries
    ensures var end := Finish(q, try, l, t);
            if end.Ended? then Progressed(q, try, end.loop) && 0 < end.loop.tries <= q.maxTries && !GoesOn(q, end.loop)
            else exists k: nat :: k < q.maxTries && Breaks(try(k)) && forall j: nat :: j < k ==> Continues(q, try, j)
    decreases q.maxTries - l.tries
  {
    hide Progressed, AfterTry, Noted;
    if !GoesOn(q, l) {
      assert l.tries > 0 by { NotAtBegin(q, try, l); }
    } else if Breaks(try(l.tries)) {
      AllContinued(q, try, l);
      assert forall j: nat :: j < l.tries ==> Continues(q, try, j);
    } else {
      NextProgress(q, try, l);
      OneMoreTry(q, l, try(l.tries).rc);
      FinishProgresses(q, try, AfterTry(q, l, try(l.tries).rc), Noted(q, l, t, try(l.tries).rc));
    }
  }

  lemma NotAtBegin(q: Request, try: nat -> Try, l: Loop)
    requires RequestOk(q) && Progressed(q, try, l) && !GoesOn(q, l)
    ensures l.tries > 0
  {
  }

  lemma AllContinued(q: Request, try: nat -> Try, l: Loop)
    requires Progressed(q, try, l) && GoesOn(q, l)
    ensures forall j: nat :: j < l.tries ==> Continues(q, try, j)
  {
  }

  /** How many tries are made: up to the first that succeeds, fails for good, has its all-zero
      response accepted or brings a fourth counted null response, or all that are allowed; the
      operation ends early if the bus is gone after one of them. */
  lemma TriesMade(q: Request, try: nat -> Try, t: Table)
    requires RequestOk(q)
    ensures var end := Finish(q, try, BEGIN, t);
            if end.Ended? then
              var n := end.loop.tries;
              && 0 < n <= q.maxTries && end.loop.rc == try(n - 1).rc
              && (forall k: nat :: k < n - 1 ==> Continues(q, try, k))
              && (n < q.maxTries ==> !Continues(q, try, n - 1))
              && (forall k: nat :: k < n ==> !(try(k).busGone && try(k).rc in {-5, -6}))
            else exists k: nat :: k < q.maxTries && try(k).busGone && try(k).rc in {-5, -6}
                                  && forall j: nat :: j < k ==> Continues(q, try, j)
  {
    FinishProgresses(q, try, BEGIN, t);
  }

  /** The status that is returned for n tries made. */
  ghost function StatusFor(q: Request, try: nat -> Try, n: nat): int
    requires n > 0
  {
    var rc := try(n - 1).rc;
    if rc >= 0 then rc
    else if Continues(q, try, n - 1) then -3007
    else if rc == -3006 && q.maxTries == 1 then -3004
    else if CountedNull(q, rc) then if forall k: nat :: k < n ==> CountedNull(q, try(k).rc) then -3012 else -3011
    else rc
  }

  /** How many of the first n tries got an all-zero response. */
  function ZerosIn(try: nat -> Try, n: nat): (zeros: nat)
    ensures zeros <= n
  {
    if n == 0 then 0 else ZerosIn(try, n - 1) + if try(n - 1).rc == DDCRC_READ_ALL_ZERO then 1 else 0
  }

  lemma {:induction false} FinishCountsZeros(q: Request, try: nat -> Try, l: Loop, t: Table)
    requires l.zeros == ZerosIn(try, l.tries)
    ensures var end := Finish(q, try, l, t); end.Ended? ==> end.loop.zeros == ZerosIn(try, end.loop.tries)
    decreases if l.tries < q.maxTries then q.maxTries - l.tries else 0
  {
    if GoesOn(q, l) && !Breaks(try(l.tries)) {
      FinishCountsZeros(q, try, AfterTry(q, l, try(l.tries).rc), Noted(q, l, t, try(l.tries).rc));
    }
  }

  lemma {:induction false} AllZeros(try: nat -> Try, n: nat)
    requires ZerosIn(try, n) == n
    ensures forall k: nat :: k < n ==> try(k).rc == DDCRC_READ_ALL_ZERO
  {
    if n > 0 {
      AllZeros(try, n - 1);
    }
  }

  /** What the operation returns, from the request and the tries alone.  It is a success exactly
      if the last try made was, and then the status of that.  Otherwise it is that the tries ran
      out, if the last one made would have been followed by another; that all tries were zero,
      only of a single accepted one; that the feature is unsupported or all responses were null,
      after a fourth null response; and else the status of the last try. */
  lemma ReturnedIs(q: Request, try: nat -> Try, t: Table)
    requires RequestOk(q) && Finish(q, try, BEGIN, t).Ended?
    ensures var l := Finish(q, try, BEGIN, t).loop;
            && l.tries > 0 && Returned(q, l) == StatusFor(q, try, l.tries)
            && (Returned(q, l) >= 0 <==> try(l.tries - 1).rc >= 0)
  {
    hide Finish;
    FinishProgresses(q, try, BEGIN, t);
    FinishCountsZeros(q, try, BEGIN, t);
    var l := Finish(q, try, BEGIN, t).loop;
    NotAllNull(q, try, l.tries);
    if l.rc < 0 && !l.retryable && l.zeros == q.maxTries {
      ZerosEndAtOnce(q, try, l);
    }
  }

  /** An all-zero response is followed by another try unless it is accepted, so accepted ones do
      not add up. */
  lemma ZerosEndAtOnce(q: Request, try: nat -> Try, l: Loop)
    requires Progressed(q, try, l) && l.tries > 0 && l.rc < 0 && !l.retryable && ZerosIn(try, l.tries) == l.tries
    ensures l.tries == 1 && q.allZeroOk && l.rc == DDCRC_READ_ALL_ZERO
  {
    AllZeros(try, l.tries);
    NoNulls(q, try, l.tries);
    assert !Continues(q, try, l.tries - 1);
  }

  /** A failure for good on a bus that is still there is returned as it is; tries that all fail
      otherwise, with no counted null response and no accepted all-zero one, run out. */
  lemma FailureIsReturned(q: Request, try: nat -> Try, t: Table)
    requires RequestOk(q) && Finish(q, try, BEGIN, t).Ended?
    ensures var l := Finish(q, try, BEGIN, t).loop;
            && l.tries > 0
            && (try(l.tries - 1).rc in {-5, -6, -9, -16} ==> Returned(q, l) == try(l.tries - 1).rc)
            && ((forall k: nat :: k < q.maxTries ==>
                   && try(k).rc < 0 && try(k).rc !in {-5, -6, -9, -16}
                   && !CountedNull(q, try(k).rc) && !(try(k).rc == -3006 && q.allZeroOk)) ==>
                  l.tries == q.maxTries && Returned(q, l) == -3007)
  {
    hide Finish;
    TriesMade(q, try, t);
    ReturnedIs(q, try, t);
    var n := Finish(q, try, BEGIN, t).loop.tries;
    if forall k: nat :: k < q.maxTries ==> !CountedNull(q, try(k).rc) {
      NoNulls(q, try, n);
    }
  }

  lemma {:induction false} NoNulls(q: Request, try: nat -> Try, n: nat)
    requires forall k: nat :: k < n ==> !CountedNull(q, try(k).rc)
    ensures NullsIn(q, try, n) == 0
  {
    if n > 0 {
      NoNulls(q, try, n - 1);
    }
  }

  // What the table is told

  /** A status is 0 or the code of an error. */
  ghost predicate NeverPositive(try: nat -> Try) {
    forall k :: try(k).rc <= 0
  }

  /** The failures of the first n tries, with what is passed for each. */
  function Notes(q: Request, try: nat -> Try, n: nat): (notes: seq<Failure>)
    ensures |notes| == n
  {
    if n == 0 then []
    else
      var rc := try(n - 1).rc;
      Notes(q, try, n - 1) + [Failure(rc, if CountedNull(q, rc) then 3 - n else q.maxTries - n)]
  }

  /** The table has been told of every try that was followed, or is to be followed, by another. */
  predicate Told(q: Request, try: nat -> Try, start: Table, l: Loop, t: Table) {
    t == AfterFailures(start, Notes(q, try, if l.tries > 0 && !GoesOn(q, l) then l.tries - 1 else l.tries))
  }

  lemma {:induction false} FinishNotes(q: Request, try: nat -> Try, start: Table, l: Loop, t: Table)
    requires RequestOk(q) && NeverPositive(try) && Progressed(q, try, l) && l.tries <= q.maxTries
    requires Told(q, try, start, l, t)
    ensures var end := Finish(q, try, l, t);
            end.Ended? ==> end.loop.tries > 0 && end.table == AfterFailures(start, Notes(q, try, end.loop.tries - 1))
    decreases q.maxTries - l.tries
  {
    hide AfterFailures, Notes, Progressed, AfterTry, Noted, NeverPositive;
    if !GoesOn(q, l) {
      NotAtBegin(q, try, l);
    } else if !Breaks(try(l.tries)) {
      var rc := try(l.tries).rc;
      OneMoreTry(q, l, rc);
      NextProgress(q, try, l);
      NextTold(q, try, start, l, t);
      FinishNotes(q, try, start, AfterTry(q, l, rc), Noted(q, l, t, rc));
    }
  }

  lemma NextTold(q: Request, try: nat -> Try, start: Table, l: Loop, t: Table)
    requires RequestOk(q) && NeverPositive(try) && Progressed(q, try, l) && GoesOn(q, l) && !Breaks(try(l.tries))
    requires Told(q, try, start, l, t)
    ensures var rc := try(l.tries).rc; Told(q, try, start, AfterTry(q, l, rc), Noted(q, l, t, rc))
  {
    hide NoteFailure, Progressed, NeverPositive, Notes, Passed, IsNoted, AfterTry;
    OneMoreTry(q, l, try(l.tries).rc);
    NoteNext(q, try, l);
  }

  lemma NoteNext(q: Request, try: nat -> Try, l: Loop)
    requires RequestOk(q) && NeverPositive(try) && Progressed(q, try, l) && GoesOn(q, l) && !Breaks(try(l.tries))
    ensures var rc := try(l.tries).rc;
            && (IsNoted(q, l, rc) <==> GoesOn(q, AfterTry(q, l, rc)))
            && Notes(q, try, l.tries + 1) == Notes(q, try, l.tries) + [Failure(rc, Passed(q, l.tries, rc))]
            && Notes(q, try, l.tries + 1)[..l.tries] == Notes(q, try, l.tries)
  {
  }

  /** The table is told of every failed try but the last one made, in order, with the tries that
      remain, or for a counted null response with 2 less those made before. */
  lemma TableIsTold(q: Request, try: nat -> Try, t: Table)
    requires RequestOk(q) && NeverPositive(try) && Finish(q, try, BEGIN, t).Ended?
    ensures var end := Finish(q, try, BEGIN, t);
            end.loop.tries > 0 && end.table == AfterFailures(t, Notes(q, try, end.loop.tries - 1))
  {
    FinishNotes(q, try, t, BEGIN, t);
  }

  /** A success is recorded with the number of tries that it took. */
  lemma SuccessIsRecorded(c: Config, q: Request, try: nat -> Try, t: Table, nullAdjusted: bool, now: int)
    requires RequestOk(q) && ConfigOk(c) && c.enabled && StepsOrdered(t)
    requires var end := Finish(q, try, BEGIN, t); end.Ended? && end.loop.rc == 0
    ensures var end := Finish(q, try, BEGIN, t);
            var r := WriteRead(c, q, try, t, nullAdjusted, now);
            && end.loop.tries > 0
            && r == FinalOutcome(c, end.table, 0, end.loop.tries, nullAdjusted, now)
            && r.Done? && r.table.successCt == end.table.successCt + 1
            && |r.table.recent| > 0
            && r.table.recent[|r.table.recent| - 1] == Invocation(now, end.loop.tries, end.table.loopStep)
  {
    hide Finish;
    FinishProgresses(q, try, BEGIN, t);
    FinishKeepsTable(q, try, BEGIN, t);
    var end := Finish(q, try, BEGIN, t);
    NotAllNull(q, try, end.loop.tries);
    SuccessOnEntries(c, end.table, end.loop.tries, nullAdjusted, now);
  }
}

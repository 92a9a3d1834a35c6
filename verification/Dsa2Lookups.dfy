/** What a caller gets: which table it is handed for the monitor on a bus, and what a reset or a
    new setting makes of the tables. */
module Dsa2Lookups {
  import opened CircularBuffer
  import opened Dsa2
  import opened Dsa2World
  import opened Options
  import opened StatsFile
  import opened StepTable
  import opened Text

  /** A table that has recorded nothing, and begins with a step. */
  predicate IsFresh(t: Table, busno: int, step: int, checkByte: int) {
    && t.busno == busno && t.edidCheckByte == checkByte && t.flags == {BusDetected}
    && t.recent == [] && t.initialStep == t.curStep == t.loopStep == step
    && t.remainingInterval == 3 && t.initialLookback == t.curLookback == 5
    && t.loopNullCt == 0 && t.nullMaxStep == t.highestFailureStep == -1 && t.latestAvg10 == 0
    && t.adjustmentsUp == t.adjustmentsDown == t.stepsUp == t.stepsDown == 0
    && t.successCt == t.retryableFailureCt == 0
  }

  /** A table saved for another monitor: it came from the file, was not compared with the monitor
      on its bus yet, and has another check byte. */
  predicate Foreign(t: Table, checkByte: int) {
    FromCache in t.flags && EdidVerified !in t.flags && t.edidCheckByte != checkByte
  }

  /** A slot that is empty or holds the table of another monitor gives a fresh table at the initial
      step if one is to be created, and else none.  Any other gives its table, marked as detected
      and, if it came from the file, as verified.  The slot holds afterwards what it gave. */
  lemma LookupGives(c: Config, bank: Bank, busno: Busno, create: bool, checkByte: int)
    ensures var slot := bank[busno];
            var given := Lookup(c, bank, busno, create, checkByte)[busno];
            if slot.None? || Foreign(slot.value, checkByte) then
              if create then given.Some? && IsFresh(given.value, busno, c.initialStep, checkByte) else given.None?
            else
              && given.Some? && given.value == slot.value.(flags := given.value.flags)
              && given.value.flags
                 == slot.value.flags + {BusDetected} + if FromCache in slot.value.flags then {EdidVerified} else {}
    ensures forall i :: 0 <= i < |bank| && i != busno ==> Lookup(c, bank, busno, create, checkByte)[i] == bank[i]
  {
    var slot := bank[busno];
    if slot.Some? && FromCache in slot.value.flags && EdidVerified in slot.value.flags {
      assert slot.value.flags + {BusDetected} + {EdidVerified} == slot.value.flags + {BusDetected};
    }
  }

  /** A reset table is fresh, and begins with the first step from the floor on that is as long as
      the multiplier, or the last one; a negative multiplier stands for 1. */
  lemma ResetGives(c: Config, bank: Bank, busno: Busno, multiplier: real, checkByte: int)
    requires ConfigOk(c)
    ensures var slot := ResetTable(c, bank, busno, multiplier, checkByte)[busno];
            && slot.Some? && IsFresh(slot.value, busno, slot.value.curStep, checkByte)
            && IsStepOf(slot.value.curStep, if multiplier < 0.0 then 1.0 else multiplier, c.stepFloor)
    ensures forall i :: 0 <= i < |bank| && i != busno ==>
              ResetTable(c, bank, busno, multiplier, checkByte)[i] == bank[i]
  {
    StepIsNearest(if multiplier < 0.0 then 1.0 else multiplier, c.stepFloor);
  }

  /** The first step from the floor on that is as long as the multiplier, in whole hundredths. */
  predicate IsStepOf(step: int, multiplier: real, floor: int)
    requires 0 <= floor
  {
    && floor <= step <= 10
    && (step < 10 ==> multiplier * 100.0 < (STEPS[step] + 1) as real)
    && (forall k :: floor <= k < step ==> (STEPS[k] + 1) as real <= multiplier * 100.0)
  }

  /** The steps are as long as their multipliers, which grow. */
  lemma StepIsNearest(multiplier: real, floor: int)
    requires 0 <= floor <= 10
    ensures IsStepOf(StepFor(multiplier, floor), multiplier, floor)
  {
    var step, x := StepFor(multiplier, floor), multiplier * 100.0;
    forall k | floor <= k <= step && k <= 10
      ensures STEPS[k] >= Truncate(x) <==> x < (STEPS[k] + 1) as real
    {
      StepIsLonger(x, k);
    }
    hide StepFor, Truncate, STEPS;
  }

  lemma StepIsLonger(x: real, k: int)
    requires 0 <= k <= 10
    ensures STEPS[k] >= Truncate(x) <==> x < (STEPS[k] + 1) as real
  {
    assert STEPS[k] >= 0;
    hide Truncate, STEPS;
    TruncateAtMost(x, STEPS[k]);
  }

  lemma TruncateAtMost(x: real, n: nat)
    ensures Truncate(x) <= n <==> x < (n + 1) as real
  {
  }

  /** A new multiplier is the initial step of later tables, and every table but that of the last
      bus goes to it: its steps and counters are set, its ring and ratchets kept. */
  lemma RewindGives(w: World, multiplier: real)
    requires ConfigOk(w.config)
    ensures var r := Step(w, ResetMultiplier(multiplier));
            && r.Next? && IsStepOf(r.world.config.initialStep, multiplier, w.config.stepFloor)
            && r.world.config == w.config.(initialStep := r.world.config.initialStep)
            && |r.world.bank| == |w.bank| == 65 && r.world.bank[64] == w.bank[64]
            && forall i :: 0 <= i < 64 ==>
                 && (r.world.bank[i].Some? <==> w.bank[i].Some?)
                 && (w.bank[i].Some? ==> IsRewound(w.bank[i].value, r.world.bank[i].value, r.world.config.initialStep))
  {
    StepIsNearest(multiplier, w.config.stepFloor);
  }

  predicate IsRewound(t: Table, t': Table, step: int) {
    && t'.curStep == t'.loopStep == step
    && t'.adjustmentsUp == t'.adjustmentsDown == t'.stepsUp == t'.stepsDown == 0
    && t'.successCt == t'.retryableFailureCt == 0
    && t'.recent == t.recent && t'.busno == t.busno && t'.initialStep == t.initialStep
    && t'.remainingInterval == t.remainingInterval && t'.loopNullCt == t.loopNullCt
    && t'.nullMaxStep == t.nullMaxStep && t'.highestFailureStep == t.highestFailureStep
    && t'.edidCheckByte == t.edidCheckByte && t'.flags == t.flags
    && t'.initialLookback == t.initialLookback && t'.curLookback == t.curLookback && t'.latestAvg10 == t.latestAvg10
  }

  /** A setting within its bounds is taken and one outside them is not; no table changes. */
  lemma SettingsTake(w: World, multiplier: real, tries: int, average: real)
    requires ConfigOk(w.config)
    ensures var r := Step(w, SetFloor(multiplier));
            && r.Next? && r.world == w.(config := w.config.(stepFloor := r.world.config.stepFloor))
            && IsStepOf(r.world.config.stepFloor, multiplier, w.config.stepFloor)
    ensures Step(w, SetGreatestTries(tries))
            == Next(if tries < 1 || tries > 15 then w else w.(config := w.config.(greatestUpper := tries)))
    ensures var r := Step(w, SetAverageTries(average));
            && r.Next? && r.world == w.(config := w.config.(avgUpper10 := r.world.config.avgUpper10))
            && var a := r.world.config.avgUpper10;
            if average < 1.0 || average > 15.0 then a == w.config.avgUpper10
            else a as real <= 10.0 * average < (a + 1) as real
  {
    StepIsNearest(multiplier, w.config.stepFloor);
  }

  // The monitor on a bus

  /** Every lookup and reset of the first n steps finds this check byte on the bus. */
  predicate MonitorIs(ops: seq<WorldOp>, n: nat, busno: Busno, checkByte: int)
    requires n <= |ops|
  {
    forall k :: 0 <= k < n ==>
      && (ops[k].Look? && ops[k].busno == busno ==> ops[k].checkByte == checkByte)
      && (ops[k].Reset? && ops[k].busno == busno ==> ops[k].checkByte == checkByte)
  }

  predicate OwnOrUnverified(slot: Option<Table>, checkByte: int) {
    slot.Some? ==> slot.value.edidCheckByte == checkByte || Unverified(slot.value)
  }

  lemma RowIsUnverified(c: Config, format: int, line: string)
    ensures var row := ReadLine(c, format, line); row.Row? ==> Unverified(row.table)
  {
  }

  lemma RestoreLeavesUnverified(c: Config, bank: Bank, file: FileRead, busno: Busno)
    requires FileFits(c, file)
    ensures var slot := Restore(c, bank, file).bank[busno];
            slot.Some? && slot != bank[busno] ==> Unverified(slot.value)
  {
    if Accepted(c, file) {
      var rows := Rows(c, file);
      InstalledSlot(bank, rows, busno);
      if LastRow(rows, busno).Some? {
        var k := LastRow(rows, busno).value;
        RowIsLine(c, Format(file.lines[0]).value, file.lines[1..], k);
        RowIsUnverified(c, Format(file.lines[0]).value, file.lines[1..][k]);
      }
    }
  }

  lemma StepKeepsOwner(w: World, op: WorldOp, busno: Busno, checkByte: int)
    requires Allowed(w, op) && OwnOrUnverified(w.bank[busno], checkByte)
    requires (op.Look? || op.Reset?) && op.busno == busno ==> op.checkByte == checkByte
    ensures Step(w, op).Next? ==> OwnOrUnverified(Step(w, op).world.bank[busno], checkByte)
  {
    hide StepFor, NoteFailure, FinalOutcome;
    match op
    case RestoreFrom(file) => RestoreLeavesUnverified(w.config, w.bank, file, busno);
    case OnTable(b, change) => ChangeKeepsOwner(w.config, w.bank[b].value, change);
    case _ =>
  }

  lemma ChangeKeepsOwner(c: Config, t: Table, change: TableChange)
    ensures var r := Changed(c, t, change);
            r.Done? ==> r.table.edidCheckByte == t.edidCheckByte && r.table.flags == t.flags
  {
  }

  lemma {:induction false} SlotIsOwnOrUnverified(ws: seq<World>, ops: seq<WorldOp>, n: nat, busno: Busno,
                                                 checkByte: int)
    requires IsHistory(ws, ops) && n < |ws| && MonitorIs(ops, n, busno, checkByte)
    ensures OwnOrUnverified(ws[n].bank[busno], checkByte)
  {
    hide Step, OwnOrUnverified;
    if n > 0 {
      SlotIsOwnOrUnverified(ws, ops, n - 1, busno, checkByte);
      assert Allowed(ws[n - 1], ops[n - 1]) && Step(ws[n - 1], ops[n - 1]) == Next(ws[n]);
      StepKeepsOwner(ws[n - 1], ops[n - 1], busno, checkByte);
    } else {
      EmptySlotIsOwn(busno, checkByte);
    }
  }

  lemma EmptySlotIsOwn(busno: Busno, checkByte: int)
    ensures OwnOrUnverified(START.bank[busno], checkByte)
  {
  }

  /** In every history, whatever files are read and whenever: while the monitor on a bus stays the
      same, the table that a lookup of the bus gives is one made or saved for that monitor, and
      recording what happens on it keeps it so. */
  lemma GivenTableIsTheMonitors(ws: seq<World>, ops: seq<WorldOp>, n: nat, busno: Busno, checkByte: int)
    requires IsHistory(ws, ops) && n < |ops| && MonitorIs(ops, n + 1, busno, checkByte)
    requires ops[n].Look? && ops[n].busno == busno
    ensures var slot := ws[n + 1].bank[busno];
            && (ops[n].create ==> slot.Some?)
            && (slot.Some? ==> slot.value.edidCheckByte == checkByte && !Unverified(slot.value))
  {
    SlotIsOwnOrUnverified(ws, ops, n + 1, busno, checkByte);
    var op := ops[n];
    assert Step(ws[n], op) == Next(ws[n + 1]);
    LookupVerifies(ws[n].config, ws[n].bank, busno, op.create, checkByte);
  }
}

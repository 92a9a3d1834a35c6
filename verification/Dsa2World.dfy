/** All the tables and settings of the dynamic sleep algorithm, and every way they change. */
module Dsa2World {
  import opened CircularBuffer
  import opened StatusCodes
  import opened StepTable
  import opened Dsa2
  import opened Options
  import opened Text
  import opened StatsFile
  import Dsa2Properties

  // Finding, creating and resetting tables

  /** A table for a bus as it is created on demand. */
  function FreshTable(c: Config, busno: Busno, step: int, checkByte: int): Table {
    NewTable(c, busno).(initialStep := step, curStep := step, loopStep := step, flags := {BusDetected},
                        edidCheckByte := checkByte)
  }

  /** Whether a table that was read from the file has yet to be compared with its monitor. */
  predicate Unverified(t: Table) {
    FromCache in t.flags && EdidVerified !in t.flags
  }

  /** dsa2_get_results_table_by_busno(): a cached table is discarded, once, if the check
      byte of the monitor on the bus is not the one it was saved with. */
  function Lookup(c: Config, bank: Bank, busno: Busno, create: bool, checkByte: int): Bank {
    bank[busno := LookedUp(c, bank[busno], busno, create, checkByte)]
  }

  function LookedUp(c: Config, slot: Option<Table>, busno: Busno, create: bool, checkByte: int): Option<Table> {
    var found := Found(slot, checkByte);
    if found.None? && create then Some(FreshTable(c, busno, c.initialStep, checkByte)) else found
  }

  function Found(slot: Option<Table>, checkByte: int): Option<Table> {
    if slot.None? then None
    else if !Unverified(slot.value) then Some(slot.value.(flags := slot.value.flags + {BusDetected}))
    else if checkByte != slot.value.edidCheckByte then None
    else Some(slot.value.(flags := slot.value.flags + {BusDetected, EdidVerified}))
  }

  /** dsa2_reset_results_table(); a negative multiplier stands for 1. */
  function ResetTable(c: Config, bank: Bank, busno: Busno, multiplier: real, checkByte: int): Bank
    requires ConfigOk(c)
  {
    var step := StepFor(if multiplier >= 0.0 then multiplier else 1.0, c.stepFloor);
    bank[busno := Some(FreshTable(c, busno, step, checkByte))]
  }

  function Rewound(t: Table, step: int): Table {
    t.(curStep := step, loopStep := step, adjustmentsDown := 0, adjustmentsUp := 0, stepsUp := 0, stepsDown := 0,
       successCt := 0, retryableFailureCt := 0)
  }

  /** The tables after dsa2_reset_multiplier(); the last bus number is passed over. */
  function RewindAll(bank: Bank, step: int): Bank {
    seq(I2C_BUS_MAX + 1, i requires 0 <= i < I2C_BUS_MAX + 1 =>
      if i < I2C_BUS_MAX && bank[i].Some? then Some(Rewound(bank[i].value, step)) else bank[i])
  }

  // The world and its steps

  datatype World = World(config: Config, bank: Bank)

  const START: World := World(DEFAULT_CONFIG, EmptyBank())

  datatype WorldOp =
    | Look(busno: Busno, create: bool, checkByte: int)
    | Reset(busno: Busno, multiplier: real, checkByte: int)
    | ResetMultiplier(multiplier: real)
    | RestoreFrom(file: FileRead)
    | OnTable(busno: Busno, change: TableChange)
    | Enable(on: bool)
    | SetFloor(multiplier: real)
    | SetGreatestTries(tries: int)
    | SetAverageTries(average: real)

  datatype TableChange =
    | Note(ddcrc: int, remaining: int)
    | Final(status: int, tries: int, nullAdjusted: bool, now: int)

  function Rows(c: Config, file: FileRead): seq<Row> {
    if file.Lines? && file.lines != [] && Format(file.lines[0]).Some?
    then ReadLines(c, Format(file.lines[0]).value, file.lines[1..]) else []
  }

  /** What callers do: they record operations on tables they were given, and the file names
      buses that exist. */
  predicate Allowed(w: World, op: WorldOp) {
    match op
    case RestoreFrom(file) => FileFits(w.config, file)
    case OnTable(busno, _) => w.bank[busno].Some?
    case ResetMultiplier(_) => ConfigOk(w.config)
    case Reset(_, _, _) => ConfigOk(w.config)
    case SetFloor(_) => ConfigOk(w.config)
    case _ => true
  }

  datatype StepResult = Next(world: World) | AssertFailed(line: nat)

  function Changed(c: Config, t: Table, change: TableChange): Outcome {
    match change
    case Note(ddcrc, remaining) => Done(NoteFailure(t, ddcrc, remaining))
    case Final(status, tries, nullAdjusted, now) => FinalOutcome(c, t, status, tries, nullAdjusted, now)
  }

  function ChangeTable(w: World, busno: Busno, change: TableChange): StepResult
    requires w.bank[busno].Some?
  {
    var r := Changed(w.config, w.bank[busno].value, change);
    if r.Done? then Next(w.(bank := w.bank[busno := Some(r.table)])) else AssertFailed(r.line)
  }

  function Step(w: World, op: WorldOp): StepResult
    requires Allowed(w, op)
  {
    match op
    case Look(busno, create, checkByte) => Next(w.(bank := Lookup(w.config, w.bank, busno, create, checkByte)))
    case Reset(busno, multiplier, checkByte) =>
      Next(w.(bank := ResetTable(w.config, w.bank, busno, multiplier, checkByte)))
    case ResetMultiplier(multiplier) =>
      Next(World(w.config.(initialStep := StepFor(multiplier, w.config.stepFloor)),
                 RewindAll(w.bank, StepFor(multiplier, w.config.stepFloor))))
    case RestoreFrom(file) => Next(w.(bank := Restore(w.config, w.bank, file).bank))
    case OnTable(busno, change) => ChangeTable(w, busno, change)
    case Enable(on) => Next(w.(config := w.config.(enabled := on)))
    case SetFloor(multiplier) => Next(w.(config := w.config.(stepFloor := StepFor(multiplier, w.config.stepFloor))))
    case SetGreatestTries(tries) =>
      Next(if 1 <= tries <= MAX_MAX_TRIES then w.(config := w.config.(greatestUpper := tries)) else w)
    case SetAverageTries(average) =>
      Next(if 1.0 <= average <= MAX_MAX_TRIES as real
           then w.(config := w.config.(avgUpper10 := Truncate(average * 10.0))) else w)
  }

  // What every reachable world satisfies, whatever the files hold

  predicate SlotOk(i: int, slot: Option<Table>) {
    slot.Some? ==> StepsOrdered(slot.value) && slot.value.busno == i
  }

  predicate WorldOk(w: World) {
    ConfigOk(w.config) && forall i :: 0 <= i < |w.bank| ==> SlotOk(i, w.bank[i])
  }

  lemma {:induction false} InstallKeepsSlots(bank: Bank, rows: seq<Row>)
    requires BusnosFit(rows)
    requires forall k :: 0 <= k < |rows| ==> RowOk(rows[k])
    requires forall i :: 0 <= i < |bank| ==> SlotOk(i, bank[i])
    ensures forall i :: 0 <= i < |bank| ==> SlotOk(i, Install(bank, rows)[i])
    decreases |rows|
  {
    if rows != [] {
      InstallKeepsSlots(bank, rows[..|rows| - 1]);
      assert RowOk(rows[|rows| - 1]);
    }
  }

  predicate RowOk(row: Row) {
    row.Row? ==> StepsOrdered(row.table)
  }

  lemma {:induction false} RowsAreOrdered(c: Config, format: int, lines: seq<string>)
    ensures forall k :: 0 <= k < |lines| ==> RowOk(ReadLines(c, format, lines)[k])
    decreases |lines|
  {
    if lines != [] {
      var n := |lines| - 1;
      RowsAreOrdered(c, format, lines[..n]);
      RowSays(c, format, lines[n]);
    }
  }

  lemma RestoreKeepsSlots(c: Config, bank: Bank, file: FileRead)
    requires FileFits(c, file)
    requires forall i :: 0 <= i < |bank| ==> SlotOk(i, bank[i])
    ensures forall i :: 0 <= i < |bank| ==> SlotOk(i, Restore(c, bank, file).bank[i])
  {
    if file.Lines? && file.lines != [] && Format(file.lines[0]).Some? {
      RowsAreOrdered(c, Format(file.lines[0]).value, file.lines[1..]);
      InstallKeepsSlots(bank, Rows(c, file));
    }
  }

  /** From a world in order, whatever happens next fails no assert and leaves the world in order. */
  lemma StepIsSafe(w: World, op: WorldOp)
    requires WorldOk(w) && Allowed(w, op)
    ensures Step(w, op).Next? && WorldOk(Step(w, op).world)
  {
    match op
    case RestoreFrom(file) => RestoreKeepsSlots(w.config, w.bank, file);
    case OnTable(busno, change) =>
      assert SlotOk(busno, w.bank[busno]);
      ChangeIsSafe(w.config, w.bank[busno].value, change);
    case _ =>
  }

  lemma ChangeIsSafe(c: Config, t: Table, change: TableChange)
    requires ConfigOk(c) && StepsOrdered(t)
    ensures Changed(c, t, change).Done? && StepsOrdered(Changed(c, t, change).table)
    ensures Changed(c, t, change).table.busno == t.busno
    ensures TableOk(t) ==> TableOk(Changed(c, t, change).table)
  {
    match change
    case Note(ddcrc, remaining) => Dsa2Properties.NoteFailureKeepsTable(t, ddcrc, remaining);
    case Final(status, tries, nullAdjusted, now) =>
      Dsa2Properties.RecordFinalKeepsTable(c, t, status, tries, nullAdjusted, now);
  }

  /** `ws` are the worlds that `ops` lead through from the start. */
  predicate IsHistory(ws: seq<World>, ops: seq<WorldOp>) {
    && |ws| == |ops| + 1 && ws[0] == START
    && forall k :: 0 <= k < |ops| ==> Allowed(ws[k], ops[k]) && Step(ws[k], ops[k]) == Next(ws[k + 1])
  }

  /** In every world of every history, with files that hold any steps and any rings, every
      table has current step <= retry loop step <= last step, and no next step can fail an assert. */
  lemma {:induction false} EveryHistoryIsSafe(ws: seq<World>, ops: seq<WorldOp>, n: nat)
    requires IsHistory(ws, ops) && n < |ws|
    ensures WorldOk(ws[n])
    ensures forall op | Allowed(ws[n], op) :: Step(ws[n], op).Next?
  {
    if n > 0 {
      EveryHistoryIsSafe(ws, ops, n - 1);
      StepIsSafe(ws[n - 1], ops[n - 1]);
    }
    forall op | Allowed(ws[n], op) ensures Step(ws[n], op).Next? {
      StepIsSafe(ws[n], op);
    }
  }

  // A raise that happens

  /** A table is created for a bus, and the first try of a loop of four fails. */
  const ONE_FAILURE: seq<WorldOp> := [Look(1, true, 0), OnTable(1, Note(DDCRC_DDC_DATA, 3))]

  lemma OneFailureLeaves(w1: World, w2: World)
    requires IsHistory([START, w1, w2], ONE_FAILURE)
    ensures w2.config == DEFAULT_CONFIG && w2.bank[1].Some?
    ensures var t := w2.bank[1].value;
            t.curStep == 7 && t.loopStep == 8 && t.recent == [] && t.loopNullCt == 0 && t.stepsUp == t.stepsDown == 0
  {
    var ws := [START, w1, w2];
    assert Step(ws[0], ONE_FAILURE[0]) == Next(ws[1]) && Step(ws[1], ONE_FAILURE[1]) == Next(ws[2]);
    NextRetryStepBounds(STEP_LAST, 7, 3);
  }

  lemma TalliesOfOne(x: Invocation)
    requires x.tryct >= 0
    ensures MaxTries([x]) == TotalTries([x]) == x.tryct
  {
    assert [x][..0] == [];
  }

  /** If the second try succeeds, the verdict is to raise the step from 7 to 8, and the step
      stays 7: the code does reach the raise that is undone. */
  lemma RaiseIsReached(w1: World, w2: World, now: int)
    requires IsHistory([START, w1, w2], ONE_FAILURE)
    ensures w2.config.enabled && w2.bank[1].Some?
    ensures var t := w2.bank[1].value;
            && t.curStep == 7 && FinalVerdict(w2.config, t, DDCRC_OK, 2, now) == Raise
            && var r := FinalOutcome(w2.config, t, DDCRC_OK, 2, false, now);
            r.Done? && r.table.curStep == 7 && r.table.stepsUp == 1 && r.table.stepsDown == 1
  {
    hide IsHistory, MaxTries, TotalTries;
    OneFailureLeaves(w1, w2);
    var t := w2.bank[1].value;
    var ring := WithSuccess(t, 2, now);
    assert ring == [Invocation(now, 2, 8)] == LastN(ring, WINDOW);
    TalliesOfOne(ring[0]);
    Dsa2Properties.RaiseIsUndone(w2.config, t, 2, false, now);
  }

  /** There is such a history. */
  lemma OneFailureHappens() returns (w1: World, w2: World)
    ensures IsHistory([START, w1, w2], ONE_FAILURE)
  {
    w1 := Step(START, ONE_FAILURE[0]).world;
    w2 := Step(w1, ONE_FAILURE[1]).world;
  }

  // Negative steps

  predicate IsTableLine(line: string) {
    line != "" && line[0] != '#' && line[0] != '*'
  }

  function BusIn(line: string): int {
    var pieces := Split(line);
    if |pieces| > 0 then NameToBusno(pieces[0]) else -1
  }

  /** The step that a line gives, 0 if it gives none. */
  function StepIn(line: string): int {
    var pieces := Split(line);
    if |pieces| > 2 && StrToInt(pieces[2]).Some? then StrToInt(pieces[2]).value else 0
  }

  /** A cached table is in order whatever step the file gives, and in the step table exactly
      when that step is not negative. */
  lemma CachedTableOkIff(c: Config, busno: int, edid: int, step: int, interval: int, ring: seq<Invocation>)
    requires |ring| <= MAX_RECENT_VALUES
    ensures StepsOrdered(CachedTable(c, busno, edid, step, interval, ring))
    ensures TableOk(CachedTable(c, busno, edid, step, interval, ring)) <==> step >= 0
  {
  }

  /** What a line says shows in the table read from it: it is in order, and in the step table
      if and only if the step that the line gives is not negative. */
  lemma RowSays(c: Config, format: int, line: string)
    ensures var row := ReadLine(c, format, line);
            && (row.Skipped? <==> !IsTableLine(line))
            && (row.Row? ==>
                  row.table.busno == BusIn(line) && StepsOrdered(row.table)
                  && row.table.loopStep == row.table.curStep
                  && (TableOk(row.table) <==> StepIn(line) >= 0))
  {
  }

  lemma {:induction false} RowIsLine(c: Config, format: int, lines: seq<string>, k: nat)
    requires k < |lines|
    ensures ReadLines(c, format, lines)[k] == ReadLine(c, format, lines[k])
    decreases |lines|
  {
    if k < |lines| - 1 {
      RowIsLine(c, format, lines[..|lines| - 1], k);
    }
  }

  /** The position of the last row for a bus. */
  function LastRow(rows: seq<Row>, busno: int): (r: Option<nat>)
    ensures r.Some? ==> r.value < |rows| && rows[r.value].Row? && rows[r.value].table.busno == busno
    ensures forall k :: 0 <= k < |rows| && (r.None? || k > r.value) && rows[k].Row? ==> rows[k].table.busno != busno
  {
    if rows == [] then None
    else
      var n := |rows| - 1;
      if rows[n].Row? && rows[n].table.busno == busno then Some(n) else LastRow(rows[..n], busno)
  }

  /** A slot holds the table of the last row for its bus, or what it held before. */
  lemma {:induction false} InstalledSlot(bank: Bank, rows: seq<Row>, busno: Busno)
    requires BusnosFit(rows)
    ensures Install(bank, rows)[busno]
         == match LastRow(rows, busno) case Some(k) => Some(rows[k].table) case None => bank[busno]
    decreases |rows|
  {
    if rows != [] {
      InstalledSlot(bank, rows[..|rows| - 1], busno);
    }
  }

  /** How reading a file ends.  Without a file, or with an empty one, nothing changes; nor does it
      if the file cannot be read or its first line declares no known format, but that is
      reported.  Otherwise a single invalid line is reported and empties all tables. */
  lemma RestoreGives(c: Config, bank: Bank, file: FileRead)
    requires FileFits(c, file)
    ensures var r := Restore(c, bank, file);
            if file.Lines? && file.lines != [] && Format(file.lines[0]).Some? then
              var invalid := exists k :: 0 < k < |file.lines|
                                         && ReadLine(c, Format(file.lines[0]).value, file.lines[k]) == Invalid;
              && (r.ok <==> !invalid)
              && (invalid ==> forall i :: 0 <= i < |r.bank| ==> r.bank[i].None?)
            else r.bank == bank && (r.ok <==> file == NotFound || file == Lines([]))
  {
    if file.Lines? && file.lines != [] && Format(file.lines[0]).Some? {
      InvalidIff(c, Format(file.lines[0]).value, file.lines);
    }
  }

  lemma InvalidIff(c: Config, format: int, lines: seq<string>)
    requires lines != []
    ensures Invalid in ReadLines(c, format, lines[1..]) <==>
              exists k :: 0 < k < |lines| && ReadLine(c, format, lines[k]) == Invalid
  {
    hide ReadLine;
    var rows := ReadLines(c, format, lines[1..]);
    forall k | 0 < k < |lines| ensures rows[k - 1] == ReadLine(c, format, lines[k]) {
      RowIsLine(c, format, lines[1..], k - 1);
    }
    if Invalid in rows {
      var k :| 0 <= k < |rows| && rows[k] == Invalid;
      assert ReadLine(c, format, lines[k + 1]) == Invalid;
    }
  }

  predicate InRange(bank: Bank) {
    forall i :: 0 <= i < |bank| && bank[i].Some? ==> TableOk(bank[i].value)
  }

  /** A file with nothing wrong in it, which is the only kind that installs tables. */
  predicate Accepted(c: Config, file: FileRead) {
    file.Lines? && file.lines != [] && Format(file.lines[0]).Some? && Invalid !in Rows(c, file)
  }

  /** Line k is the last one for its bus. */
  predicate LastForBus(lines: seq<string>, k: nat)
    requires k < |lines|
  {
    && IsTableLine(lines[k])
    && forall j :: k < j < |lines| && IsTableLine(lines[j]) ==> BusIn(lines[j]) != BusIn(lines[k])
  }

  /** The last line for each bus gives a step that is not negative. */
  predicate LastStepsNotNegative(lines: seq<string>) {
    forall k :: 0 <= k < |lines| && LastForBus(lines, k) ==> StepIn(lines[k]) >= 0
  }

  /** The line behind a row that is not invalid. */
  lemma LineOfRow(c: Config, file: FileRead, k: nat)
    requires Accepted(c, file) && k < |Rows(c, file)|
    ensures var row, line := Rows(c, file)[k], file.lines[1..][k];
            && (row.Row? <==> IsTableLine(line))
            && (row.Row? ==>
                  row.table.busno == BusIn(line) && StepsOrdered(row.table)
                  && row.table.loopStep == row.table.curStep
                  && (TableOk(row.table) <==> StepIn(line) >= 0))
  {
    var format := Format(file.lines[0]).value;
    RowIsLine(c, format, file.lines[1..], k);
    RowSays(c, format, file.lines[1..][k]);
    assert Rows(c, file)[k] in Rows(c, file);
  }

  lemma LastRowIsLastLine(c: Config, file: FileRead, k: nat)
    requires Accepted(c, file) && k < |Rows(c, file)|
    ensures LastForBus(file.lines[1..], k) <==>
              Rows(c, file)[k].Row? && LastRow(Rows(c, file), Rows(c, file)[k].table.busno) == Some(k)
  {
    forall j: nat | j < |Rows(c, file)|
      ensures Rows(c, file)[j].Row? <==> IsTableLine(file.lines[1..][j])
      ensures Rows(c, file)[j].Row? ==> Rows(c, file)[j].table.busno == BusIn(file.lines[1..][j])
    {
      LineOfRow(c, file, j);
    }
  }

  /** The slot of a bus after an accepted file that names it last in line k. */
  lemma SlotOfLastLine(c: Config, bank: Bank, file: FileRead, k: nat)
    requires FileFits(c, file) && Accepted(c, file) && k < |file.lines| - 1 && LastForBus(file.lines[1..], k)
    ensures var line := file.lines[1..][k];
            && 0 <= BusIn(line) <= I2C_BUS_MAX
            && var slot := Restore(c, bank, file).bank[BusIn(line)];
            && slot.Some? && StepsOrdered(slot.value) && slot.value.loopStep == slot.value.curStep
            && (TableOk(slot.value) <==> StepIn(line) >= 0)
  {
    LastRowIsLastLine(c, file, k);
    LineOfRow(c, file, k);
    InstalledSlot(bank, Rows(c, file), BusIn(file.lines[1..][k]));
  }

  /** A file read into tables that are in the step table leaves them there if and only if it
      has an invalid line, so that nothing is left, or the last line for each bus gives a step
      that is not negative. */
  lemma RestoreInRangeIff(c: Config, bank: Bank, file: FileRead)
    requires FileFits(c, file) && InRange(bank)
    ensures InRange(Restore(c, bank, file).bank) <==> (Accepted(c, file) ==> LastStepsNotNegative(file.lines[1..]))
  {
    if Accepted(c, file) {
      var rows := Rows(c, file);
      forall k | 0 <= k < |file.lines| - 1 && LastForBus(file.lines[1..], k)
        ensures var line := file.lines[1..][k];
                && 0 <= BusIn(line) <= I2C_BUS_MAX
                && var slot := Restore(c, bank, file).bank[BusIn(line)];
                slot.Some? && (TableOk(slot.value) <==> StepIn(line) >= 0)
      {
        SlotOfLastLine(c, bank, file, k);
      }
      forall i | 0 <= i <= I2C_BUS_MAX
        ensures match LastRow(rows, i)
                case Some(k) => LastForBus(file.lines[1..], k) && BusIn(file.lines[1..][k]) == i
                case None => Restore(c, bank, file).bank[i] == bank[i]
      {
        InstalledSlot(bank, rows, i);
        if LastRow(rows, i).Some? {
          LastRowIsLastLine(c, file, LastRow(rows, i).value);
          LineOfRow(c, file, LastRow(rows, i).value);
        }
      }
    }
  }

  /** A step that gives no negative step to a table: anything but reading a file with nothing
      wrong in it that gives one last for a bus. */
  predicate GivesNoNegativeStep(w: World, op: WorldOp) {
    op.RestoreFrom? && Accepted(w.config, op.file) ==> LastStepsNotNegative(op.file.lines[1..])
  }

  lemma StepKeepsRange(w: World, op: WorldOp)
    requires WorldOk(w) && Allowed(w, op) && InRange(w.bank)
    ensures Step(w, op).Next?
    ensures InRange(Step(w, op).world.bank) <==> GivesNoNegativeStep(w, op)
  {
    StepIsSafe(w, op);
    match op
    case RestoreFrom(file) => RestoreInRangeIff(w.config, w.bank, file);
    case OnTable(busno, change) => ChangeIsSafe(w.config, w.bank[busno].value, change);
    case _ =>
  }

  /** Every table of the worlds of a history up to the n-th has 0 <= current step <= retry loop
      step <= last step if and only if no step up to there gave a table a negative step. */
  lemma {:induction false} HistoryInRangeIff(ws: seq<World>, ops: seq<WorldOp>, n: nat)
    requires IsHistory(ws, ops) && n < |ws|
    ensures (forall m :: 0 <= m <= n ==> InRange(ws[m].bank)) <==>
              (forall k :: 0 <= k < n ==> GivesNoNegativeStep(ws[k], ops[k]))
  {
    hide InRange, GivesNoNegativeStep, WorldOk, Step;
    if n == 0 {
      StartInRange(ws, ops);
    } else {
      HistoryInRangeIff(ws, ops, n - 1);
      if InRange(ws[n - 1].bank) {
        NextInRange(ws, ops, n - 1);
      }
    }
  }

  lemma StartInRange(ws: seq<World>, ops: seq<WorldOp>)
    requires IsHistory(ws, ops)
    ensures InRange(ws[0].bank)
  {
  }

  lemma NextInRange(ws: seq<World>, ops: seq<WorldOp>, k: nat)
    requires IsHistory(ws, ops) && k < |ops| && InRange(ws[k].bank)
    ensures InRange(ws[k + 1].bank) <==> GivesNoNegativeStep(ws[k], ops[k])
  {
    hide InRange, GivesNoNegativeStep, WorldOk, Step;
    EveryHistoryIsSafe(ws, ops, k);
    assert Allowed(ws[k], ops[k]) && Step(ws[k], ops[k]) == Next(ws[k + 1]);
    StepKeepsRange(ws[k], ops[k]);
  }

  /** A negative step that a file gives last for a bus is the bus's retry loop step after the
      file was read: the source would read its multiplier from before the array of steps. */
  lemma NegativeStepReadsOutside(c: Config, bank: Bank, file: FileRead, k: nat)
    requires FileFits(c, file) && Accepted(c, file) && k < |file.lines| - 1
    requires LastForBus(file.lines[1..], k) && StepIn(file.lines[1..][k]) < 0
    ensures var busno := BusIn(file.lines[1..][k]);
            && 0 <= busno <= I2C_BUS_MAX
            && var slot := Restore(c, bank, file).bank[busno];
            slot.Some? && slot.value.loopStep < 0
  {
    SlotOfLastLine(c, bank, file, k);
  }

  /** Such a file is what saving a table with a negative step writes. */
  lemma NegativeStepIsAccepted(c: Config, t: Table, old': Bank, bank: Bank, busno: nat)
    requires busno < I2C_BUS_MAX && BankOk(bank) && bank[busno] == Some(t) && t.curStep < 0
    ensures FileFits(c, Lines(Save(bank))) && Restore(c, old', Lines(Save(bank))).ok
    ensures var slot := Restore(c, old', Lines(Save(bank))).bank[busno];
            slot.Some? && slot.value.loopStep == t.curStep
  {
    SaveThenRestore(c, old', bank);
  }

  /** A table given to a caller is the cached one only if its check byte has been compared
      with the monitor's, and a cached table is given up only if they differ. */
  lemma LookupVerifies(c: Config, bank: Bank, busno: Busno, create: bool, checkByte: int)
    ensures var slot := Lookup(c, bank, busno, create, checkByte)[busno];
            && (slot.Some? ==> !Unverified(slot.value) && BusDetected in slot.value.flags)
            && (create ==> slot.Some?)
            && (bank[busno].Some?
                && !(Unverified(bank[busno].value) && checkByte != bank[busno].value.edidCheckByte) ==>
                  slot.Some? && slot.value.(flags := {}) == bank[busno].value.(flags := {}))
    ensures forall i :: 0 <= i < |bank| && i != busno ==> Lookup(c, bank, busno, create, checkByte)[i] == bank[i]
    ensures Lookup(c, Lookup(c, bank, busno, create, checkByte), busno, create, checkByte)
            == Lookup(c, bank, busno, create, checkByte)
  {
    var once := Lookup(c, bank, busno, create, checkByte);
    var twice := Lookup(c, once, busno, create, checkByte);
    assert once[busno].Some? ==> once[busno].value.flags + {BusDetected} == once[busno].value.flags;
    assert twice[busno] == once[busno];
    assert twice == once;
  }
}

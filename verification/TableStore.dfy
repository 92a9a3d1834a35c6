/** The array of tables, saved to and restored from lines of text in place. */
module TableStore {
  import opened CircularBuffer
  import opened StepTable
  import opened Dsa2
  import opened Options
  import opened Text
  import opened StatsFile
  import opened Dsa2World

  /** The objects that tables are made of. */
  ghost function Footprint(ts: seq<ResultsTable?>): set<object> {
    (set t: ResultsTable? | t in ts && t != null :: t as object)
    + (set t: ResultsTable? | t in ts && t != null :: t.recent as object)
    + (set t: ResultsTable? | t in ts && t != null :: t.recent.values as object)
  }

  ghost function ViewOf(t: ResultsTable?): Option<Table>
    requires t != null ==> t.Valid()
    reads t, if t == null then {} else {t.recent as object, t.recent.values}
  {
    if t == null then None else Some(t.View())
  }

  /** No two tables share a ring. */
  ghost predicate RingsDistinct(ts: seq<ResultsTable?>) {
    forall i, j :: 0 <= i < j < |ts| && ts[i] != null && ts[j] != null ==> RingsDiffer(ts[i], ts[j])
  }

  ghost predicate RingsDiffer(t: ResultsTable, u: ResultsTable) {
    t.recent != u.recent && t.recent.values != u.recent.values
  }

  ghost predicate AllTablesValid(ts: seq<ResultsTable?>)
    reads Footprint(ts)
  {
    forall i :: 0 <= i < |ts| && ts[i] != null ==> ts[i] in ts && ts[i].Valid() && ts[i].busno == i
  }

  ghost function Views(ts: seq<ResultsTable?>): (b: seq<Option<Table>>)
    requires AllTablesValid(ts)
    reads Footprint(ts)
    ensures |b| == |ts| && forall i :: 0 <= i < |ts| ==> b[i] == ViewOf(ts[i])
  {
    if ts == [] then []
    else
      var n := |ts| - 1;
      assert Footprint(ts[..n]) <= Footprint(ts);
      Views(ts[..n]) + [ViewOf(ts[n])]
  }

  function WithRow(bank: Bank, row: Row): Bank
    requires row.Row? ==> 0 <= row.table.busno <= I2C_BUS_MAX
  {
    if row.Row? then bank[row.table.busno := Some(row.table)] else bank
  }

  lemma InstallNone(bank: Bank)
    ensures Install(bank, []) == bank
  {
  }

  lemma InstallOneMore(bank: Bank, rows: seq<Row>, k: nat)
    requires k < |rows| && BusnosFit(rows)
    ensures Install(bank, rows[..k + 1]) == WithRow(Install(bank, rows[..k]), rows[k])
    ensures Invalid in rows[..k + 1] <==> Invalid in rows[..k] || rows[k].Invalid?
  {
    assert rows[..k + 1] == rows[..k] + [rows[k]];
    assert rows[..k + 1][..k] == rows[..k];
  }

  lemma FieldsNotEmpty(t: Table)
    requires Printable(t)
    ensures Fields(t) != []
  {
  }

  lemma OneMorePrinted(s: seq<Invocation>, k: nat)
    requires k < |s|
    ensures PrintInvocations(s[..k + 1]) == PrintInvocations(s[..k]) + [PrintInvocation(s[k])]
  {
    hide PrintInvocation;
  }

  /** The text of a table with one more of its invocations. */
  lemma PrintOneMore(t: Table, k: nat)
    requires Printable(t) && k < |t.recent|
    ensures Join(Fields(t) + PrintInvocations(t.recent[..k + 1]))
            == Join(Fields(t) + PrintInvocations(t.recent[..k])) + " " + PrintInvocation(t.recent[k])
  {
    hide PrintInvocation, PrintInvocations, Fields, Join, Printable;
    var before := Fields(t) + PrintInvocations(t.recent[..k]);
    FieldsNotEmpty(t);
    OneMorePrinted(t.recent, k);
    assert Fields(t) + PrintInvocations(t.recent[..k + 1]) == before + [PrintInvocation(t.recent[k])];
    JoinAppend(before, PrintInvocation(t.recent[k]));
  }

  lemma ParseOneMore<T>(parse: string -> Option<T>, pieces: seq<string>, k: nat)
    requires k < |pieces|
    ensures var front, last := ParseAll(parse, pieces[..k]), parse(pieces[k]);
            ParseAll(parse, pieces[..k + 1])
            == if front.Some? && last.Some? then Some(front.value + [last.value]) else None
  {
    assert pieces[..k + 1][..k] == pieces[..k];
  }

  class Store {
    const tables: array<ResultsTable?>

    ghost predicate Valid()
      reads tables, Footprint(tables[..])
    {
      tables.Length == I2C_BUS_MAX + 1 && RingsDistinct(tables[..]) && AllTablesValid(tables[..])
    }

    ghost function View(): (b: Bank)
      requires Valid()
      reads tables, Footprint(tables[..])
    {
      Views(tables[..])
    }

    constructor ()
      ensures Valid() && fresh(tables) && View() == EmptyBank()
    {
      tables := new ResultsTable?[I2C_BUS_MAX + 1](_ => null);
    }

    /** Notes that the bus was detected and verifies a cached table; false if its check byte
        is not the monitor's. */
    method Verify(t: ResultsTable, checkByte: int) returns (keep: bool)
      requires t.Valid()
      modifies t`flags
      ensures t.Valid() && t.busno == old(t.busno)
      ensures keep == Found(Some(old(t.View())), checkByte).Some?
      ensures keep ==> t.View() == Found(Some(old(t.View())), checkByte).value
    {
      keep := true;
      t.flags := t.flags + {BusDetected};
      if FromCache in t.flags && EdidVerified !in t.flags {
        if checkByte != t.edidCheckByte {
          keep := false;
        } else {
          t.flags := t.flags + {EdidVerified};
        }
      }
      assert t.recent.Contents() == old(t.recent.Contents());
    }

    /** dsa2_get_results_table_by_busno(), given the check byte of the monitor on the bus. */
    method GetTable(c: Config, busno: Busno, create: bool, checkByte: int) returns (t: ResultsTable?)
      requires Valid()
      modifies tables, if tables[busno] == null then {} else {tables[busno]}
      ensures Valid() && t == tables[busno]
      ensures View() == Lookup(c, old(View()), busno, create, checkByte)
    {
      hide Buffer.Contents, Buffer.Valid, LookedUp;
      t := Look(tables[busno], c, busno, create, checkByte);
      forall i | 0 <= i < tables.Length && i != busno ensures ViewOf(tables[i]) == old(ViewOf(tables[i])) {
      }
      assert Valid();
      SetSlot(busno, t);
    }

    /** Puts a table in a slot, or empties it. */
    method SetSlot(busno: Busno, t: ResultsTable?)
      requires Valid() && (t != null ==> t.Valid() && t.busno == busno)
      requires t != null ==> forall i :: 0 <= i < tables.Length && i != busno && tables[i] != null ==>
                               RingsDiffer(t, tables[i])
      modifies tables
      ensures Valid() && tables[busno] == t && View() == old(View())[busno := ViewOf(t)]
    {
      hide Buffer.Contents, Buffer.Valid;
      ghost var ts := tables[..];
      tables[busno] := t;
      assert tables[..] == ts[busno := t];
      forall i | 0 <= i < |ts| ensures ViewOf(tables[i]) == if i == busno then ViewOf(t) else old(ViewOf(tables[i])) {
      }
    }

    /** The table to keep in a slot that holds t. */
    method Look(t: ResultsTable?, c: Config, busno: Busno, create: bool, checkByte: int) returns (r: ResultsTable?)
      requires t != null ==> t.Valid() && t.busno == busno
      modifies if t == null then {} else {t}
      ensures t != null ==> t.Valid() && t.busno == busno
      ensures r != null ==> r.Valid() && r.busno == busno
      ensures r != null && r != t ==> fresh(r) && fresh(r.recent) && fresh(r.recent.values)
      ensures ViewOf(r) == LookedUp(c, old(ViewOf(t)), busno, create, checkByte)
    {
      r := t;
      if t != null {
        var keep := Verify(t, checkByte);
        if !keep {
          r := null;
        }
      }
      if r == null && create {
        r := CreateTable(c, busno, c.initialStep, checkByte);
      }
    }

    method CreateTable(c: Config, busno: Busno, step: int, checkByte: int) returns (t: ResultsTable)
      ensures t.Valid() && fresh(t) && fresh(t.recent) && fresh(t.recent.values)
      ensures t.View() == FreshTable(c, busno, step, checkByte)
    {
      t := new ResultsTable(c, busno);
      t.initialStep := step;
      t.curStep := step;
      t.loopStep := step;
      t.flags := {BusDetected};
      t.edidCheckByte := checkByte;
    }

    /** Notes a failure, or records an operation, on the table of one bus: only the slot of that
        bus changes.  `failed` is the line of the assert that failed, or 0. */
    method ChangeOn(c: Config, busno: Busno, change: TableChange) returns (failed: nat)
      requires Valid() && tables[busno] != null
      modifies tables[busno], tables[busno].recent, tables[busno].recent.values
      ensures Valid() && tables[..] == old(tables[..])
      ensures forall i :: 0 <= i < tables.Length && i != busno ==> View()[i] == old(View())[i]
      ensures ChangeTable(World(c, old(View())), busno, change)
           == if failed == 0 then Next(World(c, View())) else AssertFailed(failed)
    {
      hide Buffer.Contents, Buffer.Valid, FinalOutcome, NoteFailure;
      var t := tables[busno];
      failed := 0;
      match change
      case Note(ddcrc, remaining) => t.NoteRetryableFailure(ddcrc, remaining);
      case Final(status, tries, nullAdjusted, now) => failed := t.RecordFinal(c, status, tries, nullAdjusted, now);
      forall i | 0 <= i < tables.Length && i != busno ensures ViewOf(tables[i]) == old(ViewOf(tables[i])) {
      }
      assert failed == 0 ==> View() == old(View())[busno := Some(t.View())];
    }

    /** dsa2_reset_multiplier() on the tables; the global initial step becomes `step`. */
    method RewindTables(step: int)
      requires Valid()
      modifies set t: ResultsTable? | t in tables[..] && t != null
      ensures Valid() && View() == RewindAll(old(View()), step)
    {
      var ndx := 0;
      while ndx < I2C_BUS_MAX
        invariant 0 <= ndx <= I2C_BUS_MAX && Valid()
        invariant forall i :: 0 <= i < tables.Length ==>
                    ViewOf(tables[i]) == if i < ndx && tables[i] != null then Some(Rewound(old(tables[i].View()), step))
                                         else old(ViewOf(tables[i]))
      {
        if tables[ndx] != null {
          tables[ndx].Rewind(step);
        }
        ndx := ndx + 1;
      }
    }

    /** The text of one table. */
    method PrintLine(t: ResultsTable) returns (line: string)
      requires t.Valid() && Printable(t.View())
      ensures line == PrintTable(t.View())
    {
      ghost var view := t.View();
      line := Join(["i2c-" + PrintInt(t.busno), PrintHexByte(t.edidCheckByte), PrintInt(t.curStep),
                    PrintInt(t.remainingInterval), PrintInt(t.curLookback)]);
      assert Fields(view) + PrintInvocations(view.recent[..0]) == Fields(view);
      var k := 0;
      while k < t.recent.ct
        invariant 0 <= k <= t.recent.ct
        invariant line == Join(Fields(view) + PrintInvocations(view.recent[..k]))
      {
        var si := t.recent.GetLogical(k);
        PrintOneMore(view, k);
        line := line + " " + PrintInvocation(si);
        k := k + 1;
      }
      assert view.recent[..k] == view.recent;
    }

    method SaveStats() returns (lines: seq<string>)
      requires Valid() && PrintableBank(View())
      ensures lines == Save(View())
    {
      ghost var bank := View();
      var rest := COMMENTS;
      var ndx := 0;
      while ndx < I2C_BUS_MAX
        invariant 0 <= ndx <= I2C_BUS_MAX && Valid() && View() == bank
        invariant rest == LinesAfterFormat(bank, ndx)
      {
        var t := tables[ndx];
        assert bank[ndx] == ViewOf(tables[..][ndx]);
        if t != null {
          assert t in tables[..];
          var line := PrintLine(t);
          rest := rest + [line];
        }
        ndx := ndx + 1;
      }
      lines := ["FORMAT 2"] + rest;
    }

    /** Adds the invocations that the pieces stand for, up to the first invalid one. */
    method AddInvocations(ring: Buffer, pieces: seq<string>, parse: string -> Option<Invocation>) returns (ok: bool)
      requires ring.Valid() && ring.size == MAX_RECENT_VALUES && ring.Contents() == []
      modifies ring, ring.values
      ensures ring.Valid()
      ensures ok == ParseAll(parse, pieces).Some?
      ensures ok ==> ring.Contents() == LastN(ParseAll(parse, pieces).value, MAX_RECENT_VALUES)
    {
      ok := true;
      ghost var added := [];
      var k := 0;
      while k < |pieces|
        invariant 0 <= k <= |pieces| && ring.Valid()
        invariant ParseAll(parse, pieces[..k]) == if ok then Some(added) else None
        invariant ok ==> ring.Contents() == LastN(added, MAX_RECENT_VALUES)
      {
        ParseOneMore(parse, pieces, k);
        if ok {
          var si := parse(pieces[k]);
          ok := si.Some?;
          if ok {
            LastNAppend(added, si.value, MAX_RECENT_VALUES);
            ring.Add(si.value);
            added := added + [si.value];
          }
        }
        k := k + 1;
      }
      assert pieces[..k] == pieces;
    }

    /** Sets the fields that a table line gives. */
    method Fill(c: Config, t: ResultsTable, edid: int, step: int, interval: int)
      requires t.Valid()
      modifies t
      ensures t.Valid()
      ensures old(t.View()) == NewTable(c, old(t.busno)).(recent := old(t.View()).recent) ==>
                t.View() == CachedTable(c, old(t.busno), edid, step, interval, old(t.View()).recent)
    {
      hide Buffer.Contents, Buffer.Valid;
      ghost var before := t.View();
      t.edidCheckByte := edid;
      t.curStep := if step > STEP_LAST then STEP_LAST else step;
      t.remainingInterval := interval;
      t.loopStep := t.curStep;
      t.initialStep := t.curStep;
      t.flags := {FromCache};
      assert t.recent.Contents() == before.recent;
    }

    /** Reads the pieces of one table line into a new table; `ok` tells whether they are valid. */
    method ReadPieces(c: Config, format: int, pieces: seq<string>) returns (t: ResultsTable, ok: bool)
      requires |pieces| >= MinPieces(format)
      ensures ok == ReadTable(c, format, pieces).Some?
      ensures t.Valid() && fresh(t) && fresh(t.recent) && fresh(t.recent.values)
      ensures ok ==> t.View() == ReadTable(c, format, pieces).value
    {
      var busno := NameToBusno(pieces[0]);
      var edid := OneByteHex(pieces[1]);
      var step := StrToInt(pieces[2]);
      var interval := StrToInt(pieces[if format == 2 then 3 else 4]);
      ok := busno >= 0 && edid.Some? && step.Some? && interval.Some?
            && (format == 2 || (StrToInt(pieces[3]).Some? && StrToInt(pieces[5]).Some? && StrToInt(pieces[6]).Some?));
      t := new ResultsTable(c, busno);
      if ok {
        ok := AddInvocations(t.recent, pieces[MinPieces(format)..], ParseInvocation);
        if ok {
          Fill(c, t, edid.value, step.value, interval.value);
        }
      }
    }

    /** Reads one line; a valid table line replaces the table of its bus. */
    method RestoreLine(c: Config, format: int, line: string) returns (valid: bool)
      requires Valid()
      requires var row := ReadLine(c, format, line); row.Row? ==> 0 <= row.table.busno <= I2C_BUS_MAX
      modifies tables
      ensures Valid()
      ensures valid == !ReadLine(c, format, line).Invalid?
      ensures View() == WithRow(old(View()), ReadLine(c, format, line))
    {
      valid := true;
      if line != "" && line[0] != '#' && line[0] != '*' {
        ghost var before := View();
        var t;
        t, valid := ReadTableLine(c, format, line);
        assert Valid() && View() == before;
        if valid {
          SetSlot(t.busno, t);
        }
      }
    }

    method ReadTableLine(c: Config, format: int, line: string) returns (t: ResultsTable?, valid: bool)
      ensures valid == ParseTable(c, format, line).Some?
      ensures t != null ==> t.Valid() && fresh(t) && fresh(t.recent) && fresh(t.recent.values)
      ensures valid ==> t != null && t.View() == ParseTable(c, format, line).value
    {
      var pieces := Split(line);
      t, valid := null, |pieces| >= MinPieces(format);
      if valid {
        t, valid := ReadPieces(c, format, pieces);
      }
    }

    /** Reads the lines after the format line; after an invalid one everything is emptied
        at the end. */
    method RestoreLines(c: Config, format: int, lines: seq<string>) returns (ok: bool)
      requires Valid() && BusnosFit(ReadLines(c, format, lines))
      modifies tables
      ensures Valid()
      ensures Restored(View(), ok) == StatsFile.RestoreLines(old(View()), ReadLines(c, format, lines))
    {
      hide ReadLine, ReadLines, Install, Views, AllTablesValid;
      ghost var before := View();
      ghost var rows := ReadLines(c, format, lines);
      assert rows[..0] == [];
      InstallNone(before);
      ok := true;
      var k := 0;
      while k < |lines|
        invariant 0 <= k <= |lines| && Valid()
        invariant ok == (Invalid !in rows[..k])
        invariant View() == Install(before, rows[..k])
      {
        RowIsLine(c, format, lines, k);
        InstallOneMore(before, rows, k);
        var valid := RestoreLine(c, format, lines[k]);
        ok := ok && valid;
        k := k + 1;
      }
      assert rows[..k] == rows;
      if !ok {
        EmptyAll();
      }
    }

    method EmptyAll()
      requires Valid()
      modifies tables
      ensures Valid() && View() == EmptyBank()
    {
      var i := 0;
      while i <= I2C_BUS_MAX
        invariant 0 <= i <= I2C_BUS_MAX + 1
        invariant forall j :: 0 <= j < i ==> tables[j] == null
        invariant forall j :: i <= j < tables.Length ==> tables[j] == old(tables[j])
      {
        tables[i] := null;
        i := i + 1;
      }
      assert Valid();
      assert View() == EmptyBank();
    }

    /** dsa2_restore_persistent_stats() */
    method RestoreStats(c: Config, file: FileRead) returns (ok: bool)
      requires Valid() && FileFits(c, file)
      modifies tables
      ensures Valid() && Restored(View(), ok) == Restore(c, old(View()), file)
    {
      if file.NotFound? {
        ok := true;
      } else if file.ReadError? {
        ok := false;
      } else if file.lines == [] {
        ok := true;
      } else if Format(file.lines[0]).None? {
        ok := false;
      } else {
        ok := RestoreLines(c, Format(file.lines[0]).value, file.lines[1..]);
      }
    }
  }
}

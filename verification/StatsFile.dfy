/** The stats file: how the tables are written to text and read back. */
module StatsFile {
  import opened CircularBuffer
  import opened StepTable
  import opened Dsa2
  import opened Options
  import opened Text

  /** The tables by bus number. */
  type Bank = b: seq<Option<Table>> | |b| == I2C_BUS_MAX + 1 witness NoTables(I2C_BUS_MAX + 1)

  function NoTables(n: nat): (s: seq<Option<Table>>)
    ensures |s| == n && forall i :: 0 <= i < n ==> s[i].None?
  {
    if n == 0 then [] else NoTables(n - 1) + [None]
  }

  function EmptyBank(): Bank {
    NoTables(I2C_BUS_MAX + 1)
  }

  // Writing

  function PrintInvocation(si: Invocation): string {
    Triple(PrintInt(si.tryct), PrintInt(si.requiredStep), PrintInt(si.epochSeconds))
  }

  function Triple(a: string, b: string, e: string): string {
    "{" + a + "," + b + "," + e + "}"
  }

  function PrintInvocations(ring: seq<Invocation>): seq<string> {
    seq(|ring|, k requires 0 <= k < |ring| => PrintInvocation(ring[k]))
  }

  predicate Fits(si: Invocation) {
    FitsInt(si.tryct) && FitsInt(si.requiredStep) && FitsLong(si.epochSeconds)
  }

  /** A table whose values fit their C types. */
  predicate Printable(t: Table) {
    && FitsInt(t.busno) && FitsInt(t.curStep) && FitsInt(t.remainingInterval) && FitsInt(t.curLookback)
    && 0 <= t.edidCheckByte < 256
    && forall k :: 0 <= k < |t.recent| ==> Fits(t.recent[k])
  }

  function Fields(t: Table): seq<string>
    requires Printable(t)
  {
    ["i2c-" + PrintInt(t.busno), PrintHexByte(t.edidCheckByte), PrintInt(t.curStep),
     PrintInt(t.remainingInterval), PrintInt(t.curLookback)]
  }

  function PrintTable(t: Table): string
    requires Printable(t)
  {
    Join(Fields(t) + PrintInvocations(t.recent))
  }

  const COMMENTS: seq<string> := [
    "* DEV  /dev/i2c device",
    "* EC   EDID check sum byte",
    "* C    current step",
    "* I    interval remaining",
    "* L    current lookback",
    "* DEV EC C I L Values",
    "* Values {tries required, step, epoch seconds}"]

  predicate PrintableBank(bank: seq<Option<Table>>) {
    forall i :: 0 <= i < |bank| && bank[i].Some? ==> Printable(bank[i].value) && bank[i].value.busno == i
  }

  /** The comments and the lines for the first `n` tables. */
  function LinesAfterFormat(bank: seq<Option<Table>>, n: nat): seq<string>
    requires n <= |bank| && PrintableBank(bank)
  {
    if n == 0 then COMMENTS
    else if bank[n - 1].Some? then LinesAfterFormat(bank, n - 1) + [PrintTable(bank[n - 1].value)]
    else LinesAfterFormat(bank, n - 1)
  }

  /** dsa2_save_persistent_stats(): the table of the last bus number is not written. */
  function Save(bank: Bank): seq<string>
    requires PrintableBank(bank)
  {
    ["FORMAT 2"] + LinesAfterFormat(bank, I2C_BUS_MAX)
  }

  // Reading

  /** The position of the first `c` at or after `from`, or |s|. */
  function Find(s: string, c: char, from: nat): (p: nat)
    requires from <= |s|
    ensures from <= p <= |s|
    decreases |s| - from
  {
    if from == |s| || s[from] == c then from else Find(s, c, from + 1)
  }

  lemma {:induction false} FindFirst(s: string, c: char, from: nat, p: nat)
    requires from <= p < |s| && s[p] == c
    requires forall k :: from <= k < p ==> s[k] != c
    ensures Find(s, c, from) == p
    decreases p - from
  {
    if from < p {
      FindFirst(s, c, from + 1, p);
    }
  }

  /** The three comma separated fields between braces, None if there are not three
      non-empty ones; the third may hold further commas. */
  function Cut(segment: string): Option<(string, string, string)> {
    var n := |segment|;
    if n < 7 || segment[0] != '{' || segment[n - 1] != '}' then None
    else
      var p := Find(segment, ',', 0);
      var q := if p == n then n else Find(segment, ',', p + 1);
      if q == n || p <= 1 || q == p + 1 || q + 1 >= n - 1 then None
      else Some((segment[1..p], segment[p + 1..q], segment[q + 1..n - 1]))
  }

  function ReadFields(fields: (string, string, string)): Option<Invocation> {
    if StrToInt(fields.0).Some? && StrToInt(fields.1).Some? && StrToLong(fields.2).Some?
    then Some(Invocation(StrToLong(fields.2).value, StrToInt(fields.0).value, StrToInt(fields.1).value))
    else None
  }

  /** cirb_parse_and_add() without the adding. */
  function ParseInvocation(segment: string): Option<Invocation> {
    if Cut(segment).Some? then ReadFields(Cut(segment).value) else None
  }

  /** What all the pieces are parsed to, None if one of them is invalid. */
  function ParseAll<T>(parse: string -> Option<T>, pieces: seq<string>): (r: Option<seq<T>>)
    ensures r.Some? ==> |r.value| == |pieces|
  {
    if pieces == [] then Some([])
    else
      var n := |pieces| - 1;
      var front := ParseAll(parse, pieces[..n]);
      var last := parse(pieces[n]);
      if front.Some? && last.Some? then Some(front.value + [last.value]) else None
  }

  /** i2c_name_to_busno(): -1 if the name is not that of a bus. */
  function NameToBusno(name: string): int {
    if "i2c-" <= name && !(|name| > 4 && name[4] == '-') && StrToInt(name[4..]).Some?
    then StrToInt(name[4..]).value else -1
  }

  function MinPieces(format: int): nat {
    if format == 2 then 5 else 7
  }

  /** A table line, None if invalid. */
  function ParseTable(c: Config, format: int, line: string): Option<Table> {
    ReadTable(c, format, Split(line))
  }

  function ReadTable(c: Config, format: int, pieces: seq<string>): Option<Table> {
    if |pieces| < MinPieces(format) then None
    else
      var busno := NameToBusno(pieces[0]);
      var edid := OneByteHex(pieces[1]);
      var step := StrToInt(pieces[2]);
      var interval := StrToInt(pieces[if format == 2 then 3 else 4]);
      var unused := format == 2
                    || (StrToInt(pieces[3]).Some? && StrToInt(pieces[5]).Some? && StrToInt(pieces[6]).Some?);
      var added := ParseAll(ParseInvocation, pieces[MinPieces(format)..]);
      if busno < 0 || edid.None? || step.None? || interval.None? || !unused || added.None? then None
      else Some(CachedTable(c, busno, edid.value, step.value, interval.value, LastN(added.value, MAX_RECENT_VALUES)))
  }

  /** A table as it is installed from the file. */
  function CachedTable(c: Config, busno: int, edid: int, step: int, interval: int, ring: seq<Invocation>): Table {
    var step' := if step > STEP_LAST then STEP_LAST else step;
    NewTable(c, busno).(edidCheckByte := edid, curStep := step', loopStep := step', initialStep := step',
                        remainingInterval := interval, recent := ring, flags := {FromCache})
  }

  /** What a line comes to: nothing if it is empty or a comment. */
  datatype Row = Skipped | Invalid | Row(table: Table)

  function ReadLine(c: Config, format: int, line: string): Row {
    if line == "" || line[0] == '#' || line[0] == '*' then Skipped
    else
      var t := ParseTable(c, format, line);
      if t.Some? then Row(t.value) else Invalid
  }

  function ReadLines(c: Config, format: int, lines: seq<string>): (rows: seq<Row>)
    ensures |rows| == |lines|
  {
    if lines == [] then [] else ReadLines(c, format, lines[..|lines| - 1]) + [ReadLine(c, format, lines[|lines| - 1])]
  }

  /** The source writes to an array of I2C_BUS_MAX + 1 tables without looking at the bus number. */
  predicate BusnosFit(rows: seq<Row>) {
    forall k :: 0 <= k < |rows| && rows[k].Row? ==> 0 <= rows[k].table.busno <= I2C_BUS_MAX
  }

  /** The tables installed by the rows on top of `bank`. */
  function Install(bank: Bank, rows: seq<Row>): Bank
    requires BusnosFit(rows)
  {
    if rows == [] then bank
    else
      var last := rows[|rows| - 1];
      var before := Install(bank, rows[..|rows| - 1]);
      if last.Row? then before[last.table.busno := Some(last.table)] else before
  }

  datatype FileRead = NotFound | ReadError | Lines(lines: seq<string>)

  /** The format a file declares, None if its first line does not declare 1 or 2. */
  function Format(first: string): Option<int> {
    if "FORMAT " <= first && StrToInt(first[7..]).Some? && StrToInt(first[7..]).value in {1, 2}
    then StrToInt(first[7..]) else None
  }

  /** The formats known are 1 and 2, as any number is written. */
  lemma FormatIs(first: string)
    ensures Format(first).Some? ==> "FORMAT " <= first && StrToInt(first[7..]) == Format(first)
                                    && (Format(first) == Some(1) || Format(first) == Some(2))
    ensures Format(first).None? ==> !("FORMAT " <= first) || StrToInt(first[7..]) !in {Some(1), Some(2)}
  {
  }

  predicate FileFits(c: Config, file: FileRead) {
    file.Lines? && file.lines != [] && Format(file.lines[0]).Some? ==>
      BusnosFit(ReadLines(c, Format(file.lines[0]).value, file.lines[1..]))
  }

  datatype Restored = Restored(bank: Bank, ok: bool)

  /** dsa2_restore_persistent_stats(): one invalid line empties every table. */
  function Restore(c: Config, bank: Bank, file: FileRead): Restored
    requires FileFits(c, file)
  {
    if file.NotFound? then Restored(bank, true)
    else if file.ReadError? then Restored(bank, false)
    else if file.lines == [] then Restored(bank, true)
    else if Format(file.lines[0]).None? then Restored(bank, false)
    else RestoreLines(bank, ReadLines(c, Format(file.lines[0]).value, file.lines[1..]))
  }

  function RestoreLines(bank: Bank, rows: seq<Row>): Restored
    requires BusnosFit(rows)
  {
    if Invalid in rows then Restored(EmptyBank(), false) else Restored(Install(bank, rows), true)
  }

  /** What an entry of the ring looks like: tries, step, time. */
  lemma PrintedInvocation()
    ensures PrintInvocation(Invocation(42, 2, 7)) == "{2,7,42}"
  {
    assert PrintNat(42) == PrintNat(4) + ['2'];
  }

  /** What the line of a table looks like: bus, check byte, step, interval, look back, ring. */
  lemma PrintedLine(c: Config)
    ensures var t := NewTable(c, 5).(edidCheckByte := 0x10, curStep := 7, remainingInterval := 3, curLookback := 9,
                                     recent := [Invocation(42, 2, 7)]);
            Printable(t) && PrintTable(t) == "i2c-5 10 7 3 9 {2,7,42}"
  {
    hide Join, PrintInvocation;
    var t := NewTable(c, 5).(edidCheckByte := 0x10, curStep := 7, remainingInterval := 3, curLookback := 9,
                             recent := [Invocation(42, 2, 7)]);
    PrintedInvocation();
    var pieces := ["i2c-5", "10", "7", "3", "9", "{2,7,42}"];
    assert PrintInt(5) == "5" && PrintInt(7) == "7" && PrintInt(3) == "3" && PrintInt(9) == "9";
    assert PrintHexByte(0x10) == [HexDigit(1), HexDigit(0)] == "10";
    assert "i2c-" + "5" == "i2c-5";
    assert Fields(t) == pieces[..5];
    assert PrintInvocations(t.recent) == [PrintInvocation(t.recent[0])] == pieces[5..];
    assert pieces[..5] + pieces[5..] == pieces;
    JoinedPieces();
  }

  lemma JoinThree(a: string, b: string, e: string)
    ensures Join([a, b, e]) == a + " " + (b + " " + e)
  {
    assert [a, b, e][1..] == [b, e] && [b, e][1..] == [e];
    assert Join([b, e]) == b + " " + e;
  }

  lemma JoinFront(a: string, b: string, c: string, rest: seq<string>)
    requires rest != []
    ensures Join([a, b, c] + rest) == a + " " + (b + " " + (c + " " + Join(rest)))
  {
    assert ([a, b, c] + rest)[1..] == [b, c] + rest;
    assert ([b, c] + rest)[1..] == [c] + rest;
    assert ([c] + rest)[1..] == rest;
    assert Join([c] + rest) == c + " " + Join(rest);
    assert Join([b, c] + rest) == b + " " + Join([c] + rest);
  }

  lemma JoinedPieces()
    ensures Join(["i2c-5", "10", "7", "3", "9", "{2,7,42}"]) == "i2c-5 10 7 3 9 {2,7,42}"
  {
    hide Join;
    JoinThree("3", "9", "{2,7,42}");
    JoinFront("i2c-5", "10", "7", ["3", "9", "{2,7,42}"]);
    assert ["i2c-5", "10", "7"] + ["3", "9", "{2,7,42}"] == ["i2c-5", "10", "7", "3", "9", "{2,7,42}"];
    assert "3" + " " + ("9" + " " + "{2,7,42}") == "3 9 {2,7,42}";
    assert "i2c-5" + " " + ("10" + " " + ("7" + " " + "3 9 {2,7,42}")) == "i2c-5 10 7 3 9 {2,7,42}";
  }

  // What a line says

  lemma {:induction false} ParseAllIs<T>(parse: string -> Option<T>, pieces: seq<string>)
    ensures ParseAll(parse, pieces).Some? <==> forall k :: 0 <= k < |pieces| ==> parse(pieces[k]).Some?
    ensures ParseAll(parse, pieces).Some? ==>
              forall k :: 0 <= k < |pieces| ==> Some(ParseAll(parse, pieces).value[k]) == parse(pieces[k])
    decreases |pieces|
  {
    if pieces != [] {
      ParseAllIs(parse, pieces[..|pieces| - 1]);
    }
  }

  /** The pieces of a line have a bus, a byte and numbers where they should. */
  predicate HasFields(format: int, pieces: seq<string>) {
    && |pieces| >= (if format == 2 then 5 else 7)
    && NameToBusno(pieces[0]) >= 0 && OneByteHex(pieces[1]).Some?
    && StrToInt(pieces[2]).Some? && StrToInt(pieces[3]).Some?
    && (format != 2 ==> StrToInt(pieces[4]).Some? && StrToInt(pieces[5]).Some? && StrToInt(pieces[6]).Some?)
  }

  /** A line is skipped if it is empty or a comment, and valid if its fields are and every piece
      behind them is an invocation.  In the older format four numbers follow the step, of which
      the second is the interval. */
  lemma LineIsValidIff(c: Config, format: int, line: string)
    ensures var pieces, row := Split(line), ReadLine(c, format, line);
            && (row.Skipped? <==> line == "" || line[0] == '#' || line[0] == '*')
            && (!row.Skipped? ==>
                  (row.Row? <==>
                     && HasFields(format, pieces)
                     && forall k :: (if format == 2 then 5 else 7) <= k < |pieces| ==>
                          ParseInvocation(pieces[k]).Some?))
  {
    hide NameToBusno, OneByteHex, StrToInt, Split, ParseInvocation, CachedTable;
    var pieces := Split(line);
    var m := if format == 2 then 5 else 7;
    if |pieces| >= m {
      ParseAllIs(ParseInvocation, pieces[m..]);
      assert forall k :: m <= k < |pieces| ==> pieces[k] == pieces[m..][k - m];
    }
  }

  /** The table that a valid line gives: its step at most the last, and the ring the last hundred
      of its invocations, in order. */
  lemma LineGives(c: Config, format: int, line: string)
    requires ReadLine(c, format, line).Row?
    ensures var pieces, t := Split(line), ReadLine(c, format, line).table;
            var m := if format == 2 then 5 else 7;
            && HasFields(format, pieces)
            && t.busno == NameToBusno(pieces[0]) && Some(t.edidCheckByte) == OneByteHex(pieces[1])
            && t.curStep == t.loopStep == t.initialStep
            && t.curStep == (if StrToInt(pieces[2]).value > 10 then 10 else StrToInt(pieces[2]).value)
            && Some(t.remainingInterval) == StrToInt(pieces[if format == 2 then 3 else 4])
            && t.flags == {FromCache}
            && |t.recent| == (if |pieces| - m > 100 then 100 else |pieces| - m)
            && forall k :: 0 <= k < |t.recent| ==>
                 Some(t.recent[k]) == ParseInvocation(pieces[|pieces| - |t.recent| + k])
  {
    hide NameToBusno, OneByteHex, StrToInt, Split, ParseInvocation;
    LineIsValidIff(c, format, line);
    var pieces := Split(line);
    var m := if format == 2 then 5 else 7;
    ParseAllIs(ParseInvocation, pieces[m..]);
  }

  // Reading back what was written

  lemma PiecesPrinted(t: Table)
    requires Printable(t)
    ensures forall k :: 0 <= k < |Fields(t)| ==> IsPiece(Fields(t)[k])
  {
    PrintIntIsNumeric(t.busno);
    PrintIntIsNumeric(t.curStep);
    PrintIntIsNumeric(t.remainingInterval);
    PrintIntIsNumeric(t.curLookback);
    NumericIsPiece(PrintInt(t.curStep));
    NumericIsPiece(PrintInt(t.remainingInterval));
    NumericIsPiece(PrintInt(t.curLookback));
    NumericIsPiece(PrintInt(t.busno));
  }

  lemma NumericIsPiece(s: string)
    requires Numeric(s)
    ensures IsPiece(s)
  {
    forall k | 0 <= k < |s| ensures s[k] != ' ' {
      assert IsDigit(s[k]) || s[k] == '-';
    }
  }

  /** A printed invocation is one piece, and is read back as it was. */
  lemma ReadBackInvocation(si: Invocation)
    requires Fits(si)
    ensures IsPiece(PrintInvocation(si))
    ensures ParseInvocation(PrintInvocation(si)) == Some(si)
  {
    PrintIntIsNumeric(si.tryct);
    PrintIntIsNumeric(si.requiredStep);
    PrintIntIsNumeric(si.epochSeconds);
    CutTriple(PrintInt(si.tryct), PrintInt(si.requiredStep), PrintInt(si.epochSeconds));
    ReadBackFields(si);
  }

  lemma ReadBackFields(si: Invocation)
    requires Fits(si)
    ensures ReadFields((PrintInt(si.tryct), PrintInt(si.requiredStep), PrintInt(si.epochSeconds))) == Some(si)
  {
    ReadBackInt(si.tryct);
    ReadBackInt(si.requiredStep);
    ReadBackInt(si.epochSeconds);
  }

  lemma CutTriple(a: string, b: string, e: string)
    requires Numeric(a) && Numeric(b) && Numeric(e)
    ensures Cut(Triple(a, b, e)) == Some((a, b, e))
    ensures IsPiece(Triple(a, b, e))
  {
    var s := Triple(a, b, e);
    var p := 1 + |a|;
    var q := p + 1 + |b|;
    TripleChars(a, b, e);
    FindFirst(s, ',', 0, p);
    FindFirst(s, ',', p + 1, q);
    assert s[1..p] == a;
    assert s[p + 1..q] == b;
    assert s[q + 1..|s| - 1] == e;
  }

  /** A triple has no space, and no comma but the two it is built with. */
  lemma TripleChars(a: string, b: string, e: string)
    requires Numeric(a) && Numeric(b) && Numeric(e)
    ensures var s := Triple(a, b, e);
            var p := 1 + |a|;
            var q := p + 1 + |b|;
            && s[p] == ',' && s[q] == ','
            && forall k :: 0 <= k < |s| ==> s[k] != ' ' && (k != p && k != q ==> s[k] != ',')
  {
    var s := Triple(a, b, e);
    var p := 1 + |a|;
    var q := p + 1 + |b|;
    forall k | 0 <= k < |s| ensures s[k] != ' ' && (k != p && k != q ==> s[k] != ',') {
      if 1 <= k < p {
        assert s[k] == a[k - 1];
      } else if p < k < q {
        assert s[k] == b[k - p - 1];
      } else if q < k < |s| - 1 {
        assert s[k] == e[k - q - 1];
      }
    }
  }

  lemma {:induction false} ParseAllOf<T>(parse: string -> Option<T>, pieces: seq<string>, values: seq<T>)
    requires |pieces| == |values|
    requires forall k :: 0 <= k < |pieces| ==> parse(pieces[k]) == Some(values[k])
    ensures ParseAll(parse, pieces) == Some(values)
    decreases |pieces|
  {
    if pieces != [] {
      var n := |pieces| - 1;
      ParseAllOf(parse, pieces[..n], values[..n]);
      assert parse(pieces[n]) == Some(values[n]);
      assert values[..n] + [values[n]] == values;
    }
  }

  lemma ReadBackInvocations(ring: seq<Invocation>)
    requires forall k :: 0 <= k < |ring| ==> Fits(ring[k])
    ensures ParseAll(ParseInvocation, PrintInvocations(ring)) == Some(ring)
  {
    var pieces := PrintInvocations(ring);
    forall k | 0 <= k < |pieces| ensures ParseInvocation(pieces[k]) == Some(ring[k]) {
      ReadBackInvocation(ring[k]);
    }
    ParseAllOf(ParseInvocation, pieces, ring);
  }

  /** What is left of a table after it has been saved and restored. */
  function AfterRoundTrip(c: Config, t: Table): Table {
    CachedTable(c, t.busno, t.edidCheckByte, t.curStep, t.remainingInterval, t.recent)
  }

  /** A printed table line is read back in format 2 with its bus number, check byte, step,
      interval and ring; only a step above the last is brought down to it. */
  lemma ReadBackTable(c: Config, t: Table)
    requires Printable(t) && t.busno >= 0 && |t.recent| <= MAX_RECENT_VALUES
    ensures ReadLine(c, 2, PrintTable(t)) == Row(AfterRoundTrip(c, t))
  {
    SplitPrinted(t);
    ReadBackPieces(c, t);
  }

  lemma SplitPrinted(t: Table)
    requires Printable(t)
    ensures Split(PrintTable(t)) == Fields(t) + PrintInvocations(t.recent)
    ensures PrintTable(t) != "" && PrintTable(t)[0] == 'i'
  {
    PiecesPrinted(t);
    InvocationPieces(t.recent);
    SplitJoin(Fields(t) + PrintInvocations(t.recent));
    FirstOfJoin(Fields(t) + PrintInvocations(t.recent));
    assert Fields(t)[0][0] == 'i';
  }

  lemma InvocationPieces(ring: seq<Invocation>)
    requires forall k :: 0 <= k < |ring| ==> Fits(ring[k])
    ensures forall k :: 0 <= k < |ring| ==> IsPiece(PrintInvocations(ring)[k])
  {
    forall k | 0 <= k < |ring| ensures IsPiece(PrintInvocations(ring)[k]) {
      ReadBackInvocation(ring[k]);
    }
  }

  lemma FirstOfJoin(pieces: seq<string>)
    requires pieces != [] && pieces[0] != ""
    ensures Join(pieces) != "" && Join(pieces)[0] == pieces[0][0]
  {
  }

  lemma ReadBackPieces(c: Config, t: Table)
    requires Printable(t) && t.busno >= 0 && |t.recent| <= MAX_RECENT_VALUES
    ensures ReadTable(c, 2, Fields(t) + PrintInvocations(t.recent)) == Some(AfterRoundTrip(c, t))
  {
    var pieces := Fields(t) + PrintInvocations(t.recent);
    assert pieces[5..] == PrintInvocations(t.recent);
    ReadBackInvocations(t.recent);
    ReadBackName(t.busno);
    ReadBackHexByte(t.edidCheckByte);
    ReadBackInt(t.curStep);
    ReadBackInt(t.remainingInterval);
  }

  lemma ReadBackName(busno: int)
    requires busno >= 0 && FitsInt(busno)
    ensures NameToBusno("i2c-" + PrintInt(busno)) == busno
  {
    var name := "i2c-" + PrintInt(busno);
    PrintIntIsNumeric(busno);
    ReadBackInt(busno);
    assert name[..4] == "i2c-" && name[4..] == PrintInt(busno);
    assert name[4] == PrintInt(busno)[0];
  }

  /** The bank that restoring saved tables installs on top of `old'`. */
  function Overlaid(c: Config, old': Bank, bank: Bank, n: nat): Bank
    requires n <= |bank|
  {
    seq(I2C_BUS_MAX + 1, i requires 0 <= i < I2C_BUS_MAX + 1 =>
      if i < n && bank[i].Some? then Some(AfterRoundTrip(c, bank[i].value)) else old'[i])
  }

  predicate BankOk(bank: Bank) {
    && PrintableBank(bank)
    && forall i :: 0 <= i < |bank| && bank[i].Some? ==> |bank[i].value.recent| <= MAX_RECENT_VALUES
  }

  lemma ReadLinesAppend(c: Config, lines: seq<string>, line: string)
    ensures ReadLines(c, 2, lines + [line]) == ReadLines(c, 2, lines) + [ReadLine(c, 2, line)]
  {
    assert (lines + [line])[..|lines|] == lines;
  }

  /** The rows install tables, and nothing is wrong with them. */
  predicate Installs(bank: Bank, rows: seq<Row>, result: Bank) {
    BusnosFit(rows) && Invalid !in rows && Install(bank, rows) == result
  }

  lemma InstallsOneMore(bank: Bank, rows: seq<Row>, result: Bank, row: Row)
    requires Installs(bank, rows, result)
    requires row.Skipped? || (row.Row? && 0 <= row.table.busno <= I2C_BUS_MAX)
    ensures Installs(bank, rows + [row], if row.Row? then result[row.table.busno := Some(row.table)] else result)
  {
    assert (rows + [row])[..|rows|] == rows;
  }

  lemma {:induction false} CommentsInstallNothing(c: Config, bank: Bank, lines: seq<string>)
    requires forall k :: 0 <= k < |lines| ==> lines[k] != "" && lines[k][0] == '*'
    ensures Installs(bank, ReadLines(c, 2, lines), bank)
    decreases |lines|
  {
    if lines != [] {
      var n := |lines| - 1;
      CommentsInstallNothing(c, bank, lines[..n]);
      InstallsOneMore(bank, ReadLines(c, 2, lines[..n]), bank, ReadLine(c, 2, lines[n]));
    }
  }

  lemma CommentsBegin()
    ensures forall k :: 0 <= k < |COMMENTS| ==> COMMENTS[k] != "" && COMMENTS[k][0] == '*'
  {
    assert COMMENTS[0][0] == COMMENTS[1][0] == COMMENTS[2][0] == COMMENTS[3][0] == '*';
    assert COMMENTS[4][0] == COMMENTS[5][0] == COMMENTS[6][0] == '*';
  }

  lemma {:induction false} InstallTables(c: Config, old': Bank, bank: Bank, n: nat)
    requires BankOk(bank) && n <= |bank|
    ensures Installs(old', ReadLines(c, 2, LinesAfterFormat(bank, n)), Overlaid(c, old', bank, n))
  {
    hide Installs, Overlaid, AfterRoundTrip, PrintTable, ReadLines, ReadLine;
    if n == 0 {
      CommentsBegin();
      CommentsInstallNothing(c, old', COMMENTS);
      OverlaidNone(c, old', bank);
    } else {
      InstallTables(c, old', bank, n - 1);
      OverlaidNext(c, old', bank, n);
      if bank[n - 1].Some? {
        InstallOneTable(c, old', LinesAfterFormat(bank, n - 1), Overlaid(c, old', bank, n - 1), bank[n - 1].value);
      }
    }
  }

  lemma OverlaidNone(c: Config, old': Bank, bank: Bank)
    ensures Overlaid(c, old', bank, 0) == old'
  {
  }

  lemma OverlaidNext(c: Config, old': Bank, bank: Bank, n: nat)
    requires 0 < n <= |bank|
    ensures Overlaid(c, old', bank, n)
            == if bank[n - 1].Some?
               then Overlaid(c, old', bank, n - 1)[n - 1 := Some(AfterRoundTrip(c, bank[n - 1].value))]
               else Overlaid(c, old', bank, n - 1)
  {
  }

  lemma InstallOneTable(c: Config, bank: Bank, lines: seq<string>, result: Bank, t: Table)
    requires Printable(t) && 0 <= t.busno <= I2C_BUS_MAX && |t.recent| <= MAX_RECENT_VALUES
    requires Installs(bank, ReadLines(c, 2, lines), result)
    ensures Installs(bank, ReadLines(c, 2, lines + [PrintTable(t)]), result[t.busno := Some(AfterRoundTrip(c, t))])
  {
    ReadLinesAppend(c, lines, PrintTable(t));
    ReadBackTable(c, t);
    InstallsOneMore(bank, ReadLines(c, 2, lines), result, Row(AfterRoundTrip(c, t)));
  }

  /** Saving and restoring succeeds and brings back every table but the last bus number's:
      the others keep whatever was there, and so does the slot of the last bus. */
  lemma SaveThenRestore(c: Config, old': Bank, bank: Bank)
    requires BankOk(bank)
    ensures FileFits(c, Lines(Save(bank)))
    ensures Restore(c, old', Lines(Save(bank))) == Restored(Overlaid(c, old', bank, I2C_BUS_MAX), true)
  {
    InstallTables(c, old', bank, I2C_BUS_MAX);
    FormatOfHeader();
    assert Save(bank)[0] == "FORMAT 2";
    assert Save(bank)[1..] == LinesAfterFormat(bank, I2C_BUS_MAX);
  }

  lemma FormatOfHeader()
    ensures Format("FORMAT 2") == Some(2)
  {
    var two := "FORMAT 2"[7..];
    assert two == "2";
    assert PrintInt(2) == "2" by { assert Digit(2) == '2'; }
    ReadBackInt(2);
  }

  /** What a saved table keeps. */
  predicate Survives(t: Option<Table>, u: Option<Table>) {
    && t.Some? == u.Some?
    && (t.Some? ==>
          && u.value.busno == t.value.busno
          && u.value.edidCheckByte == t.value.edidCheckByte
          && u.value.curStep == t.value.curStep == u.value.loopStep
          && u.value.remainingInterval == t.value.remainingInterval
          && u.value.recent == t.value.recent)
  }

  /** Every table below the last bus number that was saved comes back with its bus number,
      check byte, current step, interval and ring, oldest first; no other table appears,
      and the last bus number's table is lost. */
  lemma RoundTripIsIdentity(c: Config, bank: Bank)
    requires BankOk(bank)
    requires forall i :: 0 <= i < |bank| && bank[i].Some? ==> bank[i].value.curStep <= STEP_LAST
    ensures FileFits(c, Lines(Save(bank)))
    ensures Restore(c, EmptyBank(), Lines(Save(bank))).ok
    ensures forall i :: 0 <= i < I2C_BUS_MAX ==>
              Survives(bank[i], Restore(c, EmptyBank(), Lines(Save(bank))).bank[i])
    ensures Restore(c, EmptyBank(), Lines(Save(bank))).bank[I2C_BUS_MAX].None?
  {
    SaveThenRestore(c, EmptyBank(), bank);
  }
}

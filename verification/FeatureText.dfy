/** The text form of a feature list, written into a buffer that is kept between calls. */
module FeatureText {

  import Text
  import opened FeatureLists

  predicate NoNul(s: string) {
    forall k :: 0 <= k < |s| ==> s[k] != '\0'
  }

  // What is written

  /** The codes below n in a list, in ascending order. */
  function Ascending(s: Bytes, n: nat): seq<Code>
    requires n <= 256
  {
    if n == 0 then []
    else if Has(s, n - 1) then Ascending(s, n - 1) + [n - 1]
    else Ascending(s, n - 1)
  }

  lemma {:induction false} AscendingListsTheCodes(s: Bytes, n: nat)
    requires n <= 256
    ensures forall j, k :: 0 <= j < k < |Ascending(s, n)| ==> Ascending(s, n)[j] < Ascending(s, n)[k]
    ensures forall c: Code :: c in Ascending(s, n) <==> c < n && c in Codes(s)
    ensures |Ascending(s, n)| == CountBelow(s, n)
  {
    if n > 0 {
      AscendingListsTheCodes(s, n - 1);
      var front := Ascending(s, n - 1);
      assert forall k :: 0 <= k < |front| ==> front[k] in front;
    }
  }

  /** Values between separators. */
  function Rendered(codes: seq<Code>, prefix: string, sep: string): string {
    if codes == [] then ""
    else if |codes| == 1 then prefix + Text.PrintHexByte(codes[0])
    else prefix + Text.PrintHexByte(codes[0]) + sep + Rendered(codes[1..], prefix, sep)
  }

  /** Values that each end in a separator, which is what the loop writes. */
  function Terminated(codes: seq<Code>, prefix: string, sep: string): (r: string)
    ensures |r| == |codes| * (|prefix| + 2 + |sep|)
  {
    if codes == [] then ""
    else
      var front := codes[..|codes| - 1];
      assert |codes| * (|prefix| + 2 + |sep|) == |front| * (|prefix| + 2 + |sep|) + (|prefix| + 2 + |sep|);
      Terminated(front, prefix, sep) + (prefix + Text.PrintHexByte(codes[|codes| - 1]) + sep)
  }

  lemma {:induction false} RenderedAppend(codes: seq<Code>, last: Code, prefix: string, sep: string)
    requires codes != []
    ensures Rendered(codes + [last], prefix, sep)
         == Rendered(codes, prefix, sep) + (sep + (prefix + Text.PrintHexByte(last)))
  {
    assert (codes + [last])[1..] == codes[1..] + [last];
    if |codes| > 1 {
      RenderedAppend(codes[1..], last, prefix, sep);
    }
  }

  /** Cutting the last separator off leaves separators only between values. */
  lemma {:induction false} TerminatedIsRendered(codes: seq<Code>, prefix: string, sep: string)
    requires codes != []
    ensures Terminated(codes, prefix, sep) == Rendered(codes, prefix, sep) + sep
    decreases |codes|
  {
    var front, last := codes[..|codes| - 1], codes[|codes| - 1];
    assert codes == front + [last];
    if front != [] {
      TerminatedIsRendered(front, prefix, sep);
      RenderedAppend(front, last, prefix, sep);
    }
  }

  lemma {:induction false} TerminatedHasNoNul(codes: seq<Code>, prefix: string, sep: string)
    requires NoNul(prefix) && NoNul(sep)
    ensures NoNul(Terminated(codes, prefix, sep))
    decreases |codes|
  {
    if codes != [] {
      TerminatedHasNoNul(codes[..|codes| - 1], prefix, sep);
    }
  }

  lemma {:induction false} CountGrows(s: Bytes, m: nat, n: nat)
    requires m <= n <= 256
    ensures CountBelow(s, m) <= CountBelow(s, n)
    decreases n
  {
    if m < n {
      CountGrows(s, m, n - 1);
    }
  }

  /** While a code is still to be written there is room for it in a buffer sized by the count. */
  lemma RoomForOneMore(s: Bytes, n: nat, prefix: string, sep: string)
    requires n < 256 && Has(s, n)
    ensures |Terminated(Ascending(s, n), prefix, sep)| + (|prefix| + 2 + |sep|)
         <= |Codes(s)| * (|prefix| + 2 + |sep|)
  {
    AscendingListsTheCodes(s, n);
    CountGrows(s, n + 1, 256);
    CountIsSize(s);
    Scaled(CountBelow(s, n), |Codes(s)|, |prefix| + 2 + |sep|);
  }

  lemma {:induction false} Scaled(k: nat, all: nat, each: nat)
    requires k < all
    ensures k * each + each <= all * each
    decreases each
  {
    if each > 0 {
      Scaled(k, all, each - 1);
    }
  }

  /** What the text of a list looks like. */
  lemma RenderedText()
    ensures Rendered([0x02, 0x10, 0xdf], "x", ", ") == "x02, x10, xdf"
  {
    var codes: seq<Code> := [0x02, 0x10, 0xdf];
    assert codes[1..] == [0x10, 0xdf] && codes[1..][1..] == [0xdf];
    assert Text.PrintHexByte(0xdf) == "df" && Text.PrintHexByte(0x10) == "10" && Text.PrintHexByte(0x02) == "02";
  }

  // The buffer

  /** The buffer holds the text, ended by a null. */
  ghost predicate Holding(buf: array<char>, text: string)
    reads buf
  {
    && |text| < buf.Length
    && buf[..|text|] == text
    && buf[|text|] == '\0'
    && NoNul(text)
  }

  method StrLen(buf: array<char>, ghost text: string) returns (n: nat)
    requires Holding(buf, text)
    ensures n == |text|
  {
    n := 0;
    while buf[n] != '\0'
      invariant n <= |text|
      decreases |text| - n
    {
      n := n + 1;
    }
    assert forall k :: 0 <= k < |text| ==> buf[k] == buf[..|text|][k];
  }

  /** sprintf() to the end of the text, which must leave room for the null. */
  method Append(buf: array<char>, s: string, ghost text: string)
    requires Holding(buf, text) && NoNul(s)
    requires |text| + |s| < buf.Length
    modifies buf
    ensures Holding(buf, text + s)
  {
    var start := StrLen(buf, text);
    var k := 0;
    while k < |s|
      invariant 0 <= k <= |s|
      invariant buf[..start + k] == text + s[..k]
    {
      buf[start + k] := s[k];
      k := k + 1;
    }
    buf[start + |s|] := '\0';
  }

  method WriteCode(r: array<char>, code: Code, prefix: string, sep: string, ghost codes: seq<Code>)
    requires Holding(r, Terminated(codes, prefix, sep)) && NoNul(prefix) && NoNul(sep)
    requires |Terminated(codes, prefix, sep)| + (|prefix| + 2 + |sep|) < r.Length
    modifies r
    ensures Holding(r, Terminated(codes + [code], prefix, sep))
  {
    Append(r, prefix + Text.PrintHexByte(code) + sep, Terminated(codes, prefix, sep));
    assert (codes + [code])[..|codes|] == codes;
  }

  /** The list's codes below n are in the buffer. */
  ghost predicate Written(list: FeatureList, r: array<char>, n: nat, prefix: string, sep: string)
    requires list.Valid() && n <= 256
    reads r, list.bytes
  {
    Holding(r, Terminated(Ascending(list.View(), n), prefix, sep))
  }

  /** The buffer has room for all codes of the list. */
  ghost predicate HasRoom(list: FeatureList, r: array<char>, prefix: string, sep: string)
    requires list.Valid()
    reads list.bytes
  {
    |Codes(list.View())| * (|prefix| + 2 + |sep|) < r.Length
  }

  method WriteNext(list: FeatureList, r: array<char>, ndx: Code, prefix: string, sep: string)
    requires list.Valid() && NoNul(prefix) && NoNul(sep) && r as object != list.bytes as object
    requires HasRoom(list, r, prefix, sep) && Written(list, r, ndx, prefix, sep)
    modifies r
    ensures Written(list, r, ndx + 1, prefix, sep)
  {
    if list.Contains(ndx) {
      RoomForOneMore(list.View(), ndx, prefix, sep);
      WriteCode(r, ndx, prefix, sep, Ascending(list.View(), ndx));
    }
  }

  /** The loop of feature_list_string(): every code in turn, each with its separator. */
  method WriteCodes(list: FeatureList, r: array<char>, prefix: string, sep: string)
    requires list.Valid() && NoNul(prefix) && NoNul(sep) && r as object != list.bytes as object
    requires HasRoom(list, r, prefix, sep) && r[0] == '\0'
    modifies r
    ensures Holding(r, Terminated(Ascending(list.View(), 256), prefix, sep))
  {
    var ndx: int := 0;
    while ndx < 256
      invariant 0 <= ndx <= 256 && HasRoom(list, r, prefix, sep) && Written(list, r, ndx, prefix, sep)
    {
      WriteNext(list, r, ndx, prefix, sep);
      ndx := ndx + 1;
    }
  }

  /** Ends the text before its last n characters. */
  method CutOff(r: array<char>, n: nat, ghost text: string, ghost kept: string)
    requires Holding(r, text) && |text| == |kept| + n && kept == text[..|kept|]
    modifies r
    ensures Holding(r, kept)
  {
    var end := StrLen(r, text);
    r[end - n] := '\0';
    assert r[..|kept|] == old(r[..|text|])[..|kept|];
  }

  /** What a thread keeps between calls. */
  class ThreadText {
    var buf: array?<char>
    var size: nat

    ghost predicate Valid()
      reads this
    {
      if buf == null then size == 0 else buf.Length == size
    }

    constructor ()
      ensures Valid() && buf == null
    {
      buf := null;
      size := 0;
    }

    /** A new buffer is taken only when the old one is too small. */
    method Reserve(required: nat)
      requires Valid() && required > 0
      modifies this
      ensures Valid() && buf != null && size >= required
      ensures if required > old(size) then size == required && fresh(buf) else buf == old(buf)
    {
      if required > size {
        buf := new char[required];
        size := required;
      }
    }

    /** feature_list_string() */
    method Print(list: FeatureList, prefix: string, sep: string) returns (r: array<char>)
      requires Valid() && list.Valid() && NoNul(prefix) && NoNul(sep)
      requires buf as object? != list.bytes as object  // one holds text, the other bytes
      modifies this, buf
      ensures Valid() && r == buf
      ensures if |Codes(list.View())| * (|prefix| + 2 + |sep|) < old(size) then r == old(buf) else fresh(r)
      ensures Holding(r, Rendered(Ascending(list.View(), 256), prefix, sep))
    {
      var featureCt := list.CountOld();
      Reserve(featureCt * (|prefix| + 2 + |sep|) + 1);
      r := buf;
      r[0] := '\0';
      WriteCodes(list, r, prefix, sep);
      ghost var codes := Ascending(list.View(), 256);
      AscendingListsTheCodes(list.View(), 256);
      CountIsSize(list.View());
      if featureCt > 0 {
        TerminatedIsRendered(codes, prefix, sep);
        CutOff(r, |sep|, Terminated(codes, prefix, sep), Rendered(codes, prefix, sep));
      }
    }
  }
}

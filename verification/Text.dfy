/** The text conversions the stats file is written and read with. */
module Text {

  import opened Options

  const INT_MIN := -0x8000_0000
  const INT_MAX := 0x7fff_ffff
  const LONG_MIN := -0x8000_0000_0000_0000
  const LONG_MAX := 0x7fff_ffff_ffff_ffff

  predicate FitsInt(n: int) { INT_MIN <= n <= INT_MAX }
  predicate FitsLong(n: int) { LONG_MIN <= n <= LONG_MAX }

  predicate IsSpace(c: char) {
    c == ' ' || '\t' <= c <= '\r'
  }

  predicate IsDigit(c: char) {
    '0' <= c <= '9'
  }

  // Decimal

  function Digit(d: nat): (c: char)
    requires d < 10
    ensures IsDigit(c) && DigitValue(c) == d
  {
    '0' + d as char
  }

  function DigitValue(c: char): nat
    requires IsDigit(c)
  {
    (c - '0') as nat
  }

  predicate AllDigits(s: string) {
    forall k :: 0 <= k < |s| ==> IsDigit(s[k])
  }

  /** printf's %d for a non-negative number. */
  function PrintNat(n: nat): (s: string)
    ensures s != "" && AllDigits(s)
  {
    if n < 10 then [Digit(n)] else PrintNat(n / 10) + [Digit(n % 10)]
  }

  function PrintInt(n: int): string {
    if n < 0 then "-" + PrintNat(-n) else PrintNat(n)
  }

  function DecimalValue(s: string): nat
    requires AllDigits(s)
  {
    if s == "" then 0 else DecimalValue(s[..|s| - 1]) * 10 + DigitValue(s[|s| - 1])
  }

  function SkipSpace(s: string): (r: string)
    ensures |r| <= |s|
  {
    if s != "" && IsSpace(s[0]) then SkipSpace(s[1..]) else s
  }

  function Saturate(n: int): int {
    if n < LONG_MIN then LONG_MIN else if n > LONG_MAX then LONG_MAX else n
  }

  /** str_to_long() in base 10: optional space and sign, then nothing but digits.  A value
      that does not fit saturates. */
  function StrToLong(s: string): (r: Option<int>)
    ensures r.Some? ==> FitsLong(r.value)
  {
    var t := SkipSpace(s);
    var negative := t != "" && t[0] == '-';
    var u := if t != "" && (t[0] == '-' || t[0] == '+') then t[1..] else t;
    if u != "" && AllDigits(u) then
      Some(Saturate(if negative then 0 - DecimalValue(u) else DecimalValue(u)))
    else None
  }

  function StrToInt(s: string): Option<int> {
    var r := StrToLong(s);
    if r.Some? && FitsInt(r.value) then r else None
  }

  lemma {:induction false} ReadBackNat(n: nat)
    ensures DecimalValue(PrintNat(n)) == n
  {
    if n >= 10 {
      var front := PrintNat(n / 10);
      ReadBackNat(n / 10);
      assert PrintNat(n)[..|front|] == front;
    }
  }

  /** What is printed is what is read back. */
  lemma ReadBackInt(n: int)
    ensures FitsLong(n) ==> StrToLong(PrintInt(n)) == Some(n)
    ensures FitsInt(n) ==> StrToInt(PrintInt(n)) == Some(n)
  {
    var s := PrintNat(if n < 0 then -n else n);
    ReadBackNat(if n < 0 then -n else n);
    assert IsDigit(s[0]);
    if n < 0 {
      assert ("-" + s)[0] == '-' && ("-" + s)[1..] == s;
    }
  }

  lemma {:induction false} SkipsSpace(space: string, rest: string)
    requires forall k :: 0 <= k < |space| ==> IsSpace(space[k])
    requires rest != "" ==> !IsSpace(rest[0])
    ensures SkipSpace(space + rest) == rest
    decreases |space|
  {
    if space == "" {
      assert space + rest == rest;
    } else {
      assert (space + rest)[1..] == space[1..] + rest;
      SkipsSpace(space[1..], rest);
    }
  }

  lemma {:induction false} SpaceSkipped(s: string) returns (space: string)
    ensures s == space + SkipSpace(s) && forall k :: 0 <= k < |space| ==> IsSpace(space[k])
    ensures SkipSpace(s) != "" ==> !IsSpace(SkipSpace(s)[0])
    decreases |s|
  {
    if s != "" && IsSpace(s[0]) {
      var more := SpaceSkipped(s[1..]);
      space := [s[0]] + more;
    } else {
      space := "";
    }
  }

  /** A number as it may be written: space, a sign, digits. */
  predicate Writes(s: string, space: string, sign: string, digits: string) {
    && s == space + sign + digits && (forall k :: 0 <= k < |space| ==> IsSpace(space[k]))
    && sign in {"", "+", "-"} && digits != "" && AllDigits(digits)
  }

  /** A number is read however it is written, as an int if it fits, as a long brought to its limits. */
  lemma NumberIsRead(s: string, space: string, sign: string, digits: string)
    requires Writes(s, space, sign, digits)
    ensures var n := if sign == "-" then 0 - DecimalValue(digits) else DecimalValue(digits);
            && StrToInt(s) == (if -0x8000_0000 <= n <= 0x7fff_ffff then Some(n) else None)
            && StrToLong(s) == Some(if n < -0x8000_0000_0000_0000 then -0x8000_0000_0000_0000
                                    else if n > 0x7fff_ffff_ffff_ffff then 0x7fff_ffff_ffff_ffff else n)
  {
    hide SkipSpace, DecimalValue;
    assert IsDigit(digits[0]);
    assert s == space + (sign + digits);
    SkipsSpace(space, sign + digits);
    var t := sign + digits;
    var u := if t[0] == '-' || t[0] == '+' then t[1..] else t;
    assert u == digits;
  }

  /** Nothing else is. */
  lemma ReadIsWritten(s: string) returns (space: string, sign: string, digits: string)
    ensures StrToInt(s).Some? || StrToLong(s).Some? ==> Writes(s, space, sign, digits)
  {
    space := SpaceSkipped(s);
    sign, digits := SignCut(SkipSpace(s));
    assert s == space + sign + digits;
    if StrToLong(s).Some? {
      LongHasDigits(s, sign, digits);
    }
  }

  lemma SignCut(t: string) returns (sign: string, digits: string)
    ensures t == sign + digits && sign in {"", "+", "-"}
    ensures sign == "" ==> t == "" || (t[0] != '-' && t[0] != '+')
  {
    sign := if t == "" then "" else if t[0] == '-' then "-" else if t[0] == '+' then "+" else "";
    digits := t[|sign|..];
    assert t == sign + digits;
  }

  lemma LongHasDigits(s: string, sign: string, digits: string)
    requires SkipSpace(s) == sign + digits && sign in {"", "+", "-"} && StrToLong(s).Some?
    requires sign == "" ==> digits == "" || (digits[0] != '-' && digits[0] != '+')
    ensures digits != "" && AllDigits(digits)
  {
    hide SkipSpace, DecimalValue, Saturate;
    var t := SkipSpace(s);
    assert t[|sign|..] == digits;
  }

  /** The characters of a printed number. */
  predicate Numeric(s: string) {
    s != "" && forall k :: 0 <= k < |s| ==> IsDigit(s[k]) || s[k] == '-'
  }

  lemma PrintIntIsNumeric(n: int)
    ensures Numeric(PrintInt(n))
    ensures n >= 0 ==> IsDigit(PrintInt(n)[0])
  {
    var s := PrintNat(if n < 0 then -n else n);
    assert IsDigit(s[0]);
  }

  // Hexadecimal

  function UpperChar(c: char): char {
    if 'a' <= c <= 'z' then c - 'a' + 'A' else c
  }

  function Upper(s: string): (r: string)
    ensures |r| == |s| && forall k :: 0 <= k < |s| ==> r[k] == UpperChar(s[k])
  {
    seq(|s|, k requires 0 <= k < |s| => UpperChar(s[k]))
  }

  function HexDigit(d: nat): (c: char)
    requires d < 16
    ensures c != ' '
  {
    if d < 10 then Digit(d) else 'a' + (d - 10) as char
  }

  predicate IsUpperHex(c: char) {
    IsDigit(c) || 'A' <= c <= 'F'
  }

  function UpperHexValue(c: char): (d: nat)
    requires IsUpperHex(c)
    ensures d < 16
  {
    if IsDigit(c) then DigitValue(c) else (c - 'A') as nat + 10
  }

  /** printf's %02x for a byte. */
  function PrintHexByte(b: int): (s: string)
    requires 0 <= b < 256
    ensures |s| == 2 && s[0] != ' ' && s[1] != ' '
  {
    [HexDigit(b / 16), HexDigit(b % 16)]
  }

  /** hhs_to_byte_in_buf() on upper case text: two characters that strtol() reads to the
      end in base 16, so a leading space or sign passes too. */
  function HhsToByte(s: string): (r: Option<int>)
    ensures r.Some? ==> 0 <= r.value < 256
  {
    if |s| != 2 || !IsUpperHex(s[1]) then None
    else if IsUpperHex(s[0]) then Some(16 * UpperHexValue(s[0]) + UpperHexValue(s[1]))
    else if IsSpace(s[0]) || s[0] == '+' then Some(UpperHexValue(s[1]))
    else if s[0] == '-' then Some((256 - UpperHexValue(s[1])) % 256)
    else None
  }

  /** any_one_byte_hex_string_to_byte_in_buf(): the prefixes 0x and x and the suffix h are optional. */
  function OneByteHex(s: string): (r: Option<int>)
    ensures r.Some? ==> 0 <= r.value < 256
  {
    var u := Upper(s);
    if "0X" <= u then HhsToByte(u[2..])
    else if u != "" && u[0] == 'X' then HhsToByte(u[1..])
    else if u != "" && u[|u| - 1] == 'H' then HhsToByte(u[..|u| - 1])
    else HhsToByte(u)
  }

  lemma HexDigitUpper(d: nat)
    requires d < 16
    ensures var c := UpperChar(HexDigit(d)); IsUpperHex(c) && UpperHexValue(c) == d && c != 'X' && c != 'H'
  {
    if d >= 10 {
      assert HexDigit(d) - 'a' == (d - 10) as char;
    }
  }

  lemma ReadBackHexByte(b: int)
    requires 0 <= b < 256
    ensures OneByteHex(PrintHexByte(b)) == Some(b)
  {
    HexDigitUpper(b / 16);
    HexDigitUpper(b % 16);
    var u := Upper(PrintHexByte(b));
    assert !("0X" <= u) by { assert "0X"[1] == 'X'; }
  }

  /** A byte is read from two hex digits in either case, with an optional prefix or suffix. */
  lemma ByteIsRead(s: string, upper: string)
    requires |upper| == 2 && IsUpperHex(upper[0]) && IsUpperHex(upper[1])
    requires Upper(s) in {upper, "0X" + upper, "X" + upper, upper + "H"}
    ensures OneByteHex(s) == Some(16 * UpperHexValue(upper[0]) + UpperHexValue(upper[1]))
  {
    var u := Upper(s);
    if u == "0X" + upper {
      assert u[2..] == upper;
    } else if u == "X" + upper {
      assert u[1..] == upper;
    } else if u == upper + "H" {
      assert u[..|u| - 1] == upper && u[1] != 'X';
    } else {
      assert u[1] != 'X';
    }
  }

  // Pieces of a line

  predicate NoSpace(s: string) {
    forall k :: 0 <= k < |s| ==> s[k] != ' '
  }

  /** A piece that strsplit() can find in a line: not empty, no space. */
  predicate IsPiece(s: string) {
    s != "" && NoSpace(s)
  }

  /** strsplit() on a single space: the non-empty pieces.  `piece` is the piece being read. */
  function SplitFrom(s: string, piece: string): seq<string>
    decreases |s|
  {
    if s == "" then (if piece == "" then [] else [piece])
    else if s[0] != ' ' then SplitFrom(s[1..], piece + [s[0]])
    else if piece == "" then SplitFrom(s[1..], "")
    else [piece] + SplitFrom(s[1..], "")
  }

  function Split(s: string): seq<string> {
    SplitFrom(s, "")
  }

  function Join(pieces: seq<string>): string {
    if |pieces| == 0 then ""
    else if |pieces| == 1 then pieces[0]
    else pieces[0] + " " + Join(pieces[1..])
  }

  lemma {:induction false} JoinAppend(pieces: seq<string>, last: string)
    requires pieces != []
    ensures Join(pieces + [last]) == Join(pieces) + " " + last
    decreases |pieces|
  {
    if |pieces| == 1 {
      assert (pieces + [last])[1..] == [last];
    } else {
      JoinAppend(pieces[1..], last);
      assert (pieces + [last])[1..] == pieces[1..] + [last];
    }
  }

  lemma {:induction false} SplitPast(token: string, rest: string, piece: string)
    requires NoSpace(token)
    ensures SplitFrom(token + rest, piece) == SplitFrom(rest, piece + token)
    decreases |token|
  {
    if token == "" {
      assert token + rest == rest && piece + token == piece;
    } else {
      assert token[0] != ' ';
      assert (token + rest)[1..] == token[1..] + rest;
      assert piece + [token[0]] + token[1..] == piece + token;
      SplitPast(token[1..], rest, piece + [token[0]]);
    }
  }

  /** Splitting undoes joining. */
  lemma {:induction false} SplitJoin(pieces: seq<string>)
    requires forall k :: 0 <= k < |pieces| ==> IsPiece(pieces[k])
    ensures Split(Join(pieces)) == pieces
    decreases |pieces|
  {
    if |pieces| > 0 {
      assert IsPiece(pieces[0]);
      var rest := if |pieces| == 1 then "" else " " + Join(pieces[1..]);
      assert Join(pieces) == pieces[0] + rest;
      SplitPast(pieces[0], rest, "");
      assert "" + pieces[0] == pieces[0];
      if |pieces| > 1 {
        assert rest[1..] == Join(pieces[1..]);
        SplitJoin(pieces[1..]);
      }
    }
  }
}

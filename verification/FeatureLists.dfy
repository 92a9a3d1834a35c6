/** Sets of feature codes kept as 256 bits. */
module FeatureLists {

  type Byte = bv8
  type Code = c: int | 0 <= c < 256

  // Bits

  /** The byte with only bit k set. */
  function Bit(k: nat): Byte
    requires k < 8
  {
    if k == 0 then 1 else if k == 1 then 2 else if k == 2 then 4 else if k == 3 then 8
    else if k == 4 then 16 else if k == 5 then 32 else if k == 6 then 64 else 128
  }

  lemma BitIsShift(k: nat)
    requires k < 8
    ensures Bit(k) == (1 as Byte) << k
  {
  }

  predicate Holds(b: Byte, k: nat)
    requires k < 8
  {
    b & Bit(k) != 0
  }

  type Bytes = s: seq<Byte> | |s| == 32 witness seq(32, _ => 0)

  predicate Has(s: Bytes, c: Code) {
    Holds(s[c / 8], c % 8)
  }

  /** The codes that a list holds. */
  function Codes(s: Bytes): set<Code> {
    set c: Code | 0 <= c < 256 && Has(s, c)
  }

  lemma BitOfOr(a: Byte, b: Byte, k: nat)
    requires k < 8
    ensures Holds(a | b, k) <==> Holds(a, k) || Holds(b, k)
  {
  }

  lemma BitOfAnd(a: Byte, b: Byte, k: nat)
    requires k < 8
    ensures Holds(a & b, k) <==> Holds(a, k) && Holds(b, k)
  {
  }

  lemma BitOfAndNot(a: Byte, b: Byte, k: nat)
    requires k < 8
    ensures Holds(a & !b, k) <==> Holds(a, k) && !Holds(b, k)
  {
  }

  lemma BitSet(a: Byte, j: nat, k: nat)
    requires j < 8 && k < 8
    ensures Holds(a | Bit(j), k) <==> j == k || Holds(a, k)
  {
  }

  // Counting

  /** The number of codes below n that a list holds. */
  function CountBelow(s: Bytes, n: nat): nat
    requires n <= 256
  {
    if n == 0 then 0 else CountBelow(s, n - 1) + if Has(s, n - 1) then 1 else 0
  }

  lemma {:induction false} CountIsCardinality(s: Bytes, n: nat)
    requires n <= 256
    ensures CountBelow(s, n) == |set c: Code | 0 <= c < n && Has(s, c)|
  {
    if n > 0 {
      CountIsCardinality(s, n - 1);
      var below := set c: Code | 0 <= c < n - 1 && Has(s, c);
      var upTo := set c: Code | 0 <= c < n && Has(s, c);
      assert upTo == if Has(s, n - 1) then below + {n - 1} else below;
    } else {
      assert (set c: Code | 0 <= c < n && Has(s, c)) == {};
    }
  }

  lemma CountIsSize(s: Bytes)
    ensures CountBelow(s, 256) == |Codes(s)|
  {
    CountIsCardinality(s, 256);
    assert Codes(s) == set c: Code | 0 <= c < 256 && Has(s, c);
  }

  /** The number of the n lowest bits of a byte that are set. */
  function BitsIn(b: Byte, n: nat): nat
    requires n <= 8
  {
    if n == 0 then 0 else BitsIn(b, n - 1) + if Holds(b, n - 1) then 1 else 0
  }

  /** The number of bits set in bytes. */
  function Pop(s: seq<Byte>): nat {
    if s == [] then 0 else BitsIn(s[0], 8) + Pop(s[1..])
  }

  lemma {:induction false} CountOfByte(s: Bytes, k: nat, n: nat)
    requires k < 32 && n <= 8
    ensures CountBelow(s, 8 * k + n) == CountBelow(s, 8 * k) + BitsIn(s[k], n)
  {
    if n > 0 {
      CountOfByte(s, k, n - 1);
      var c := 8 * k + n - 1;
      assert c / 8 == k && c % 8 == n - 1;
    }
  }

  lemma {:induction false} PopAppend(a: seq<Byte>, b: seq<Byte>)
    ensures Pop(a + b) == Pop(a) + Pop(b)
  {
    if a == [] {
      assert a + b == b;
    } else {
      PopAppend(a[1..], b);
      assert (a + b)[1..] == a[1..] + b;
    }
  }

  lemma PopNext(s: seq<Byte>, k: nat)
    requires k < |s|
    ensures Pop(s[..k + 1]) == Pop(s[..k]) + BitsIn(s[k], 8)
  {
    PopAppend(s[..k], [s[k]]);
    assert s[..k + 1] == s[..k] + [s[k]];
  }

  lemma {:induction false} CountIsPop(s: Bytes, k: nat)
    requires k <= 32
    ensures CountBelow(s, 8 * k) == Pop(s[..k])
  {
    if k > 0 {
      CountIsPop(s, k - 1);
      CountOfByte(s, k - 1, 8);
      PopNext(s, k - 1);
    }
  }

  // Words made of bytes, the lowest byte first

  function Push(rest: bv64, low: Byte): bv64 {
    (rest << 8) | (low as bv64)
  }

  function WordOf(bs: seq<Byte>): bv64 {
    if bs == [] then 0 else Push(WordOf(bs[1..]), bs[0])
  }

  /** The word whose n lowest bytes are all ones. */
  function Ones(n: nat): bv64 {
    if n == 0 then 0 else Push(Ones(n - 1), 255)
  }

  lemma OnesBelow(n: nat)
    requires n <= 7
    ensures Ones(n) <= 0x00FF_FFFF_FFFF_FFFF
  {
    assert Ones(0) == 0 && Ones(1) == 0xFF && Ones(2) == 0xFFFF && Ones(3) == 0xFF_FFFF && Ones(4) == 0xFFFF_FFFF;
    assert Ones(5) == 0xFF_FFFF_FFFF && Ones(6) == 0xFFFF_FFFF_FFFF && Ones(7) == 0xFF_FFFF_FFFF_FFFF;
  }

  /** All bits of x are bits of y. */
  predicate Within(x: bv64, y: bv64) {
    x | y == y
  }

  lemma PushWithin(x: bv64, y: bv64, low: Byte)
    requires Within(x, y)
    ensures Within(Push(x, low), Push(y, 255))
  {
  }

  lemma PushZero(x: bv64, y: bv64, low: Byte)
    requires Within(x, y) && y <= 0x00FF_FFFF_FFFF_FFFF && Push(x, low) == 0
    ensures x == 0 && low == 0
  {
  }

  lemma {:induction false} WordFits(bs: seq<Byte>)
    ensures Within(WordOf(bs), Ones(|bs|))
  {
    if bs != [] {
      WordFits(bs[1..]);
      PushWithin(WordOf(bs[1..]), Ones(|bs| - 1), bs[0]);
    }
  }

  /** A word is zero only when it has no bits. */
  lemma {:induction false} ZeroHasNoBits(bs: seq<Byte>)
    requires |bs| <= 8 && WordOf(bs) == 0
    ensures Pop(bs) == 0
  {
    if bs != [] {
      WordFits(bs[1..]);
      OnesBelow(|bs| - 1);
      PushZero(WordOf(bs[1..]), Ones(|bs| - 1), bs[0]);
      ZeroHasNoBits(bs[1..]);
      EightBits(0);
    }
  }

  // Clearing the lowest set bit

  function Less(b: Byte): Byte {
    b & (b - 1)
  }

  function Flag(b: Byte, k: nat): nat
    requires k < 8
  {
    if Holds(b, k) then 1 else 0
  }

  function Flags(b: Byte): nat {
    Flag(b, 0) + Flag(b, 1) + Flag(b, 2) + Flag(b, 3) + Flag(b, 4) + Flag(b, 5) + Flag(b, 6) + Flag(b, 7)
  }

  lemma OneMoreBit(b: Byte, n: nat)
    requires n < 8
    ensures BitsIn(b, n + 1) == BitsIn(b, n) + Flag(b, n)
  {
  }

  lemma EightBits(b: Byte)
    ensures BitsIn(b, 8) == Flags(b)
  {
    forall n: nat | n < 8 ensures BitsIn(b, n + 1) == BitsIn(b, n) + Flag(b, n) {
      OneMoreBit(b, n);
    }
    assert BitsIn(b, 4) == Flag(b, 0) + Flag(b, 1) + Flag(b, 2) + Flag(b, 3);
  }

  lemma LessIsOneFlagLess(b: Byte)
    requires b != 0
    ensures Flags(Less(b)) == Flags(b) - 1
  {
  }

  /** w is v with its lowest set bit cleared. */
  predicate ClearsLowest(v: bv64, w: bv64) {
    w == v & (v - 1)
  }

  lemma PushLess(rest: bv64, low: Byte)
    requires low != 0
    ensures ClearsLowest(Push(rest, low), Push(rest, Less(low)))
  {
  }

  lemma PushCleared(rest: bv64, cleared: bv64)
    requires ClearsLowest(rest, cleared)
    ensures ClearsLowest(Push(rest, 0), Push(cleared, 0))
  {
  }

  /** The bytes with the lowest set bit of the first byte that is not zero cleared. */
  function Cleared(bs: seq<Byte>): seq<Byte> {
    if bs == [] then []
    else if bs[0] != 0 then [Less(bs[0])] + bs[1..]
    else [0] + Cleared(bs[1..])
  }

  /** Taking one from a word and keeping the bits that both have clears its lowest set bit. */
  lemma {:induction false} ClearedIsWord(bs: seq<Byte>)
    ensures |Cleared(bs)| == |bs|
    ensures ClearsLowest(WordOf(bs), WordOf(Cleared(bs)))
  {
    if bs != [] {
      if bs[0] != 0 {
        PushLess(WordOf(bs[1..]), bs[0]);
      } else {
        ClearedIsWord(bs[1..]);
        PushCleared(WordOf(bs[1..]), WordOf(Cleared(bs[1..])));
      }
    }
  }

  lemma {:induction false} ClearedHasOneLess(bs: seq<Byte>)
    requires WordOf(bs) != 0
    ensures Pop(Cleared(bs)) == Pop(bs) - 1
  {
    if bs[0] != 0 {
      EightBits(bs[0]);
      EightBits(Less(bs[0]));
      LessIsOneFlagLess(bs[0]);
    } else {
      ClearedHasOneLess(bs[1..]);
    }
  }

  // Sets of codes

  lemma CodesOr(a: Bytes, b: Bytes, r: Bytes)
    requires forall k :: 0 <= k < 32 ==> r[k] == a[k] | b[k]
    ensures Codes(r) == Codes(a) + Codes(b)
  {
    forall c: Code ensures Has(r, c) <==> Has(a, c) || Has(b, c) {
      BitOfOr(a[c / 8], b[c / 8], c % 8);
    }
  }

  lemma CodesAnd(a: Bytes, b: Bytes, r: Bytes)
    requires forall k :: 0 <= k < 32 ==> r[k] == a[k] & b[k]
    ensures Codes(r) == Codes(a) * Codes(b)
  {
    forall c: Code ensures Has(r, c) <==> Has(a, c) && Has(b, c) {
      BitOfAnd(a[c / 8], b[c / 8], c % 8);
    }
  }

  lemma CodesAndNot(a: Bytes, b: Bytes, r: Bytes)
    requires forall k :: 0 <= k < 32 ==> r[k] == a[k] & !b[k]
    ensures Codes(r) == Codes(a) - Codes(b)
  {
    forall c: Code ensures Has(r, c) <==> Has(a, c) && !Has(b, c) {
      BitOfAndNot(a[c / 8], b[c / 8], c % 8);
    }
  }

  lemma CodesAdd(a: Bytes, code: Code)
    ensures Codes(a[code / 8 := a[code / 8] | Bit(code % 8)]) == Codes(a) + {code}
  {
    var r := a[code / 8 := a[code / 8] | Bit(code % 8)];
    forall c: Code ensures Has(r, c) <==> c == code || Has(a, c) {
      BitSet(a[code / 8], code % 8, c % 8);
    }
  }

  // The list in place

  class FeatureList {
    const bytes: array<Byte>

    ghost predicate Valid() {
      bytes.Length == 32
    }

    ghost function View(): (s: Bytes)
      requires Valid()
      reads bytes
    {
      bytes[..]
    }

    constructor ()
      ensures Valid() && fresh(bytes) && Codes(View()) == {}
    {
      bytes := new Byte[32](_ => 0);
      new;
      assert forall c: Code :: !Has(View(), c);
    }

    method Clear()
      requires Valid()
      modifies bytes
      ensures Codes(View()) == {}
    {
      var i := 0;
      while i < 32
        invariant 0 <= i <= 32 && forall k :: 0 <= k < i ==> bytes[k] == 0
      {
        bytes[i] := 0;
        i := i + 1;
      }
      assert forall c: Code :: !Has(View(), c);
    }

    method Add(code: Code)
      requires Valid()
      modifies bytes
      ensures Codes(View()) == old(Codes(View())) + {code}
    {
      var flagNdx := code / 8;
      var flagBit := (1 as Byte) << (code % 8);
      BitIsShift(code % 8);
      CodesAdd(View(), code);
      bytes[flagNdx] := bytes[flagNdx] | flagBit;
      assert View() == old(View())[flagNdx := old(bytes[flagNdx]) | flagBit];
    }

    predicate Contains(code: Code)
      requires Valid()
      reads bytes
      ensures Contains(code) <==> code in Codes(View())
    {
      bytes[code / 8] & Bit(code % 8) != 0
    }

    static method Or(a: FeatureList, b: FeatureList) returns (r: FeatureList)
      requires a.Valid() && b.Valid()
      ensures r.Valid() && fresh(r) && fresh(r.bytes) && Codes(r.View()) == Codes(a.View()) + Codes(b.View())
    {
      r := new FeatureList();
      var i := 0;
      while i < 32
        invariant 0 <= i <= 32 && forall k :: 0 <= k < i ==> r.bytes[k] == a.bytes[k] | b.bytes[k]
      {
        r.bytes[i] := a.bytes[i] | b.bytes[i];
        i := i + 1;
      }
      CodesOr(a.View(), b.View(), r.View());
    }

    static method And(a: FeatureList, b: FeatureList) returns (r: FeatureList)
      requires a.Valid() && b.Valid()
      ensures r.Valid() && fresh(r) && fresh(r.bytes) && Codes(r.View()) == Codes(a.View()) * Codes(b.View())
    {
      r := new FeatureList();
      var i := 0;
      while i < 32
        invariant 0 <= i <= 32 && forall k :: 0 <= k < i ==> r.bytes[k] == a.bytes[k] & b.bytes[k]
      {
        r.bytes[i] := a.bytes[i] & b.bytes[i];
        i := i + 1;
      }
      CodesAnd(a.View(), b.View(), r.View());
    }

    static method AndNot(a: FeatureList, b: FeatureList) returns (r: FeatureList)
      requires a.Valid() && b.Valid()
      ensures r.Valid() && fresh(r) && fresh(r.bytes) && Codes(r.View()) == Codes(a.View()) - Codes(b.View())
    {
      r := new FeatureList();
      var i := 0;
      while i < 32
        invariant 0 <= i <= 32 && forall k :: 0 <= k < i ==> r.bytes[k] == a.bytes[k] & !b.bytes[k]
      {
        r.bytes[i] := a.bytes[i] & !b.bytes[i];
        i := i + 1;
      }
      CodesAndNot(a.View(), b.View(), r.View());
    }

    /** feature_list_count_old(): looks at every code. */
    method CountOld() returns (n: nat)
      requires Valid()
      ensures n == |Codes(View())|
    {
      n := 0;
      var code := 0;
      while code < 256
        invariant 0 <= code <= 256 && n == CountBelow(View(), code)
      {
        if Contains(code) {
          n := n + 1;
        }
        code := code + 1;
      }
      CountIsSize(View());
    }

    /** feature_list_count(): clears one bit at a time. */
    method Count() returns (ct: nat)
      requires Valid()
      ensures ct == |Codes(View())|
    {
      ct := 0;
      var ndx := 0;
      while ndx < 4
        invariant 0 <= ndx <= 4 && ct == Pop(View()[..8 * ndx])
      {
        ghost var left := View()[8 * ndx..8 * ndx + 8];
        ghost var all := ct + Pop(left);
        PopAppend(View()[..8 * ndx], left);
        assert View()[..8 * (ndx + 1)] == View()[..8 * ndx] + left;
        var v := WordOf(bytes[8 * ndx..8 * ndx + 8]);
        while v != 0
          invariant |left| == 8 && v == WordOf(left) && ct + Pop(left) == all
          decreases Pop(left)
        {
          ClearedIsWord(left);
          ClearedHasOneLess(left);
          left := Cleared(left);
          v := v & (v - 1);
          ct := ct + 1;
        }
        ZeroHasNoBits(left);
        ndx := ndx + 1;
      }
      assert View()[..32] == View();
      CountIsPop(View(), 32);
      CountIsSize(View());
    }
  }
}

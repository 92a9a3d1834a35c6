/** DDC/CI packets: framing of requests, parsing of responses. */
module DdcPackets {

  type Byte = bv8

  const MAX_DDC_DATA_SIZE := 35
  const MAX_REQUEST_DATA := 32
  const MAX_FRAGMENT := 32

  const TYPE_NONE: Byte := 0x00
  const TYPE_QUERY_VCP_RESPONSE: Byte := 0x02
  const TYPE_SET_VCP_REQUEST: Byte := 0x03
  const TYPE_CAPABILITIES_REQUEST: Byte := 0xf3
  const TYPE_CAPABILITIES_RESPONSE: Byte := 0xe3
  const TYPE_TABLE_READ_REQUEST: Byte := 0xe2
  const TYPE_TABLE_READ_RESPONSE: Byte := 0xe4
  const TYPE_TABLE_WRITE_REQUEST: Byte := 0xe7

  // Checksums

  function Xor(s: seq<Byte>): Byte {
    if s == [] then 0 else Xor(s[..|s| - 1]) ^ s[|s| - 1]
  }

  lemma {:induction false} XorAppend(a: seq<Byte>, b: seq<Byte>)
    ensures Xor(a + b) == Xor(a) ^ Xor(b)
    decreases |b|
  {
    if b == [] {
      assert a + b == a;
    } else {
      var n := |b| - 1;
      XorAppend(a, b[..n]);
      assert (a + b)[..|a| + n] == a + b[..n];
    }
  }

  lemma XorOne(x: Byte)
    ensures Xor([x]) == x
  {
    assert [x][..0] == [];
  }

  /** The checksum of a message; a display's reply is summed as if it were sent to 0x50. */
  function Checksum(message: seq<Byte>, reply: bool): Byte
    requires message != []
  {
    (if reply then 0x50 else message[0]) ^ Xor(message[1..])
  }

  method DdcChecksum(bytes: array<Byte>, len: int, altmode: bool) returns (checksum: Byte)
    requires 1 <= len <= bytes.Length
    ensures checksum == Checksum(bytes[..len], altmode)
  {
    ghost var message := bytes[..len];
    checksum := bytes[0];
    if altmode {
      checksum := 0x50;
    }
    ChecksumOfOne(message, altmode);
    var ndx := 1;
    while ndx < len
      invariant 1 <= ndx <= len
      invariant checksum == Checksum(message[..ndx], altmode)
    {
      ChecksumNext(message, ndx, altmode);
      checksum := checksum ^ bytes[ndx];
      ndx := ndx + 1;
    }
    assert message[..len] == message;
  }

  lemma ChecksumOfOne(message: seq<Byte>, reply: bool)
    requires message != []
    ensures Checksum(message[..1], reply) == if reply then 0x50 else message[0]
  {
    assert message[..1][1..] == [];
  }

  lemma ChecksumNext(message: seq<Byte>, n: nat, reply: bool)
    requires 1 <= n < |message|
    ensures Checksum(message[..n + 1], reply) == Checksum(message[..n], reply) ^ message[n]
  {
    var tail := message[..n + 1][1..];
    assert tail[..n - 1] == message[..n][1..] && tail[n - 1] == message[n];
    XorRegroup(if reply then 0x50 else message[0], Xor(tail[..n - 1]), message[n]);
  }

  lemma XorRegroup(x: Byte, y: Byte, z: Byte)
    ensures x ^ (y ^ z) == (x ^ y) ^ z
  {
  }

  lemma ChecksumCloses(message: seq<Byte>)
    requires message != []
    ensures Checksum(message, false) == Xor(message)
    ensures Xor(message + [Checksum(message, false)]) == 0
  {
    assert message == [message[0]] + message[1..];
    XorOne(message[0]);
    XorAppend([message[0]], message[1..]);
    XorOne(Checksum(message, false));
    XorAppend(message, [Checksum(message, false)]);
  }

  // Parsed contents

  /** A value that a non-table feature query returns. */
  datatype VcpResponse = VcpResponse(vcpCode: Byte, validResponse: bool, supportedOpcode: bool,
                                     mh: Byte, ml: Byte, sh: Byte, sl: Byte)

  datatype Fragment = Fragment(fragmentType: Byte, offset: int, bytes: seq<Byte>)

  datatype Parsed = Unparsed | ParsedVcp(response: VcpResponse) | ParsedFragment(fragment: Fragment)

  class DdcPacket {
    const raw: array<Byte>
    var len: int
    var typ: Byte
    var parsed: Parsed

    ghost predicate Valid()
      reads this
    {
      4 <= len <= raw.Length
    }

    /** The type of the packet is its first data byte. */
    ghost predicate Typed()
      requires Valid()
      reads this, raw
    {
      typ == if len > 4 then raw[3] else TYPE_NONE
    }

    /** The raw bytes of the packet. */
    ghost function Bytes(): seq<Byte>
      requires Valid()
      reads this, raw
    {
      raw[..len]
    }

    constructor (maxSize: nat)
      ensures fresh(raw) && raw.Length == maxSize && len == 0 && typ == TYPE_NONE && parsed == Unparsed
    {
      raw := new Byte[maxSize](_ => 0);
      len := 0;
      typ := TYPE_NONE;
      parsed := Unparsed;
    }

    /** The data portion of the packet. */
    function Data(): (d: seq<Byte>)
      requires Valid()
      reads this, raw
      ensures |d| == len - 4
      ensures d == Payload(Bytes())
    {
      raw[3..len - 1]
    }
  }

  /** What lies between a packet's three byte header and its checksum. */
  function Payload(packet: seq<Byte>): seq<Byte>
    requires |packet| >= 4
  {
    packet[3..|packet| - 1]
  }

  // Requests

  function RequestBytes(source: Byte, data: seq<Byte>): seq<Byte>
    requires |data| <= MAX_REQUEST_DATA
  {
    var message := [0x6e as Byte, source, (|data| as Byte) | 0x80] + data;
    message + [Checksum(message, false)]
  }

  /** What every packet to a display satisfies. */
  predicate IsRequest(b: seq<Byte>) {
    && 4 <= |b| <= 4 + MAX_REQUEST_DATA
    && b[0] == 0x6e
    && b[2] == ((|b| - 4) as Byte) | 0x80
    && Xor(b) == 0
  }

  /** A request is well formed, so its bytes XOR to zero, and it carries its data. */
  lemma RequestIsWellFormed(source: Byte, data: seq<Byte>)
    requires |data| <= MAX_REQUEST_DATA
    ensures IsRequest(RequestBytes(source, data)) && RequestBytes(source, data)[1] == source
    ensures Payload(RequestBytes(source, data)) == data
  {
    ChecksumCloses([0x6e as Byte, source, (|data| as Byte) | 0x80] + data);
  }

  /** A well formed request is determined by its source address and its data. */
  lemma RequestIsDetermined(b: seq<Byte>)
    requires IsRequest(b)
    ensures b == RequestBytes(b[1], Payload(b))
  {
    var message := b[..|b| - 1];
    assert b == message + [b[|b| - 1]];
    assert message == [0x6e as Byte, b[1], (|Payload(b)| as Byte) | 0x80] + Payload(b);
    XorAppend(message, [b[|b| - 1]]);
    XorOne(b[|b| - 1]);
    ChecksumCloses(message);
    XorZero(Xor(message), b[|b| - 1]);
  }

  lemma XorZero(x: Byte, y: Byte)
    requires x ^ y == 0
    ensures x == y
  {
  }

  method CreateBaseRequest(source: Byte, data: seq<Byte>) returns (p: DdcPacket)
    requires |data| <= MAX_REQUEST_DATA
    ensures fresh(p) && fresh(p.raw) && p.Valid()
    ensures p.Bytes() == RequestBytes(source, data)
    ensures p.typ == if data == [] then TYPE_NONE else data[0]
  {
    p := new DdcPacket(3 + |data| + 1);
    p.raw[0] := 0x6e;
    p.raw[1] := source;
    p.raw[2] := (|data| as Byte) | 0x80;
    forall k | 0 <= k < |data| {
      p.raw[3 + k] := data[k];
    }
    var size := 3 + |data|;
    assert p.raw[..size] == [0x6e as Byte, source, (|data| as Byte) | 0x80] + data;
    var checksum := DdcChecksum(p.raw, size, false);
    p.raw[size] := checksum;
    p.len := size + 1;
    p.typ := if |data| > 0 then data[0] else TYPE_NONE;
    assert p.raw[..size + 1] == p.raw[..size] + [checksum];
  }

  // Multi part read requests

  function LowByte(n: int): Byte { (n % 0x100) as Byte }

  /** The byte that the update writes for the high part of an offset. */
  function HighByte(n: int): Byte { (n / 0x100 % 0x100) as Byte }

  /** The byte that creation writes for the high part of an offset: sixteen bits up, not eight. */
  function CreatedHighByte(n: int): Byte { (n / 0x1_0000 % 0x100) as Byte }

  /** A big endian pair of bytes as a number. */
  function Word(hi: Byte, lo: Byte): int {
    (((hi as bv16) << 8) | (lo as bv16)) as int
  }

  lemma WordOfBytes(n: int)
    ensures Word(HighByte(n), LowByte(n)) == n % 0x1_0000
    ensures 0 <= n < 0x1_0000 ==> Word(HighByte(n), LowByte(n)) == n
  {
    WordOfPair(n / 0x100 % 0x100, n % 0x100);
    LowSixteen(n);
  }

  lemma WordOfPair(h: int, l: int)
    requires 0 <= h < 0x100 && 0 <= l < 0x100
    ensures Word(h as Byte, l as Byte) == 0x100 * h + l
  {
    WordValue(h as Byte, l as Byte);
    ByteRound(h);
    ByteRound(l);
  }

  lemma {:induction false} ByteRound(n: nat)
    requires n < 0x100
    ensures (n as Byte) as int == n
  {
    if n > 0 {
      ByteRound(n - 1);
      NextByte((n - 1) as Byte, n - 1);
    }
  }

  lemma NextByte(b: Byte, n: nat)
    requires b as int == n && n < 0xff
    ensures (b + 1) as int == n + 1
  {
  }

  lemma LowSixteen(n: int)
    ensures n % 0x1_0000 == 0x100 * (n / 0x100 % 0x100) + n % 0x100
    ensures 0 <= n < 0x1_0000 ==> n == 0x100 * (n / 0x100 % 0x100) + n % 0x100
  {
    var q := n / 0x100;
    assert n == 0x1_0000 * (q / 0x100) + 0x100 * (q % 0x100) + n % 0x100;
  }

  lemma WordValue(hi: Byte, lo: Byte)
    ensures Word(hi, lo) == 0x100 * (hi as int) + lo as int
  {
  }

  predicate IsMultiPartType(t: Byte) {
    t == TYPE_CAPABILITIES_REQUEST || t == TYPE_TABLE_READ_REQUEST
  }

  function MultiPartData(t: Byte, subtype: Byte, offset: int): seq<Byte> {
    if t == TYPE_CAPABILITIES_REQUEST then [t, CreatedHighByte(offset), LowByte(offset)]
    else [t, subtype, CreatedHighByte(offset), LowByte(offset)]
  }

  method CreateMultiPartReadRequest(t: Byte, subtype: Byte, offset: int) returns (p: DdcPacket)
    requires IsMultiPartType(t)
    ensures fresh(p) && fresh(p.raw) && p.Valid() && p.typ == t
    ensures p.Bytes() == RequestBytes(0x51, MultiPartData(t, subtype, offset))
  {
    var hi := CreatedHighByte(offset);
    var lo := LowByte(offset);
    if t == TYPE_CAPABILITIES_REQUEST {
      p := CreateBaseRequest(0x51, [TYPE_CAPABILITIES_REQUEST, hi, lo]);
    } else {
      p := CreateBaseRequest(0x51, [TYPE_TABLE_READ_REQUEST, subtype, hi, lo]);
    }
  }

  /** Where the offset lies in a multi part read request. */
  function OffsetAt(t: Byte): nat {
    if t == TYPE_CAPABILITIES_REQUEST then 4 else 5
  }

  predicate IsMultiPartRequest(b: seq<Byte>) {
    IsRequest(b) && |b| > 4 && IsMultiPartType(b[3]) && |b| == OffsetAt(b[3]) + 3
  }

  /** The offset that a multi part read request asks for, by the rule that replies are read with. */
  function RequestedOffset(b: seq<Byte>): nat
    requires IsMultiPartRequest(b)
  {
    Word(b[OffsetAt(b[3])], b[OffsetAt(b[3]) + 1])
  }

  /** The bytes after update_ddc_multi_part_read_request_packet_offset(). */
  function WithOffset(b: seq<Byte>, offset: int): seq<Byte>
    requires IsMultiPartRequest(b)
  {
    var at := OffsetAt(b[3]);
    var message := b[..|b| - 1][at := HighByte(offset)][at + 1 := LowByte(offset)];
    message + [Checksum(message, false)]
  }

  method UpdateOffset(p: DdcPacket, newOffset: int)
    requires p.Valid() && IsMultiPartType(p.typ) && IsMultiPartRequest(p.Bytes()) && p.Bytes()[3] == p.typ
    modifies p.raw
    ensures p.Valid() && p.Bytes() == WithOffset(old(p.Bytes()), newOffset)
  {
    ghost var before := p.Bytes();
    var hi := HighByte(newOffset);
    var lo := LowByte(newOffset);
    if p.typ == TYPE_CAPABILITIES_REQUEST {
      p.raw[3 + 1] := hi;
      p.raw[3 + 2] := lo;
    } else {
      p.raw[3 + 2] := hi;
      p.raw[3 + 3] := lo;
    }
    var size := p.len - 1;
    assert p.raw[..size] == before[..size][OffsetAt(p.typ) := hi][OffsetAt(p.typ) + 1 := lo];
    var checksum := DdcChecksum(p.raw, size, false);
    p.raw[size] := checksum;
    assert p.raw[..size + 1] == p.raw[..size] + [checksum];
  }

  /** Updating the offset keeps a request well formed and asks for that offset; every byte
      but the offset and the checksum stays. */
  lemma UpdateOffsetIsFaithful(b: seq<Byte>, offset: int)
    requires IsMultiPartRequest(b)
    ensures var c := WithOffset(b, offset);
            && IsMultiPartRequest(c)
            && RequestedOffset(c) == offset % 0x1_0000
            && |c| == |b|
            && forall k :: 0 <= k < |b| - 1 && k != OffsetAt(b[3]) && k != OffsetAt(b[3]) + 1 ==> c[k] == b[k]
  {
    var at := OffsetAt(b[3]);
    var message := b[..|b| - 1][at := HighByte(offset)][at + 1 := LowByte(offset)];
    ChecksumCloses(message);
    WordOfBytes(offset);
  }

  /** The offset that was there before does not matter. */
  lemma UpdateOffsetOverwrites(b: seq<Byte>, first: int, second: int)
    requires IsMultiPartRequest(b)
    ensures IsMultiPartRequest(WithOffset(b, first))
    ensures WithOffset(WithOffset(b, first), second) == WithOffset(b, second)
  {
    UpdateOffsetIsFaithful(b, first);
    var at := OffsetAt(b[3]);
    var c := WithOffset(b, first);
    assert c[..|c| - 1][at := HighByte(second)][at + 1 := LowByte(second)]
           == b[..|b| - 1][at := HighByte(second)][at + 1 := LowByte(second)];
  }

  /** Updating a created request writes the offset into its data. */
  lemma UpdatedRequest(t: Byte, subtype: Byte, start: int, offset: int)
    requires IsMultiPartType(t)
    ensures IsMultiPartRequest(RequestBytes(0x51, MultiPartData(t, subtype, start)))
    ensures WithOffset(RequestBytes(0x51, MultiPartData(t, subtype, start)), offset)
            == RequestBytes(0x51, if t == TYPE_CAPABILITIES_REQUEST then [t, HighByte(offset), LowByte(offset)]
                                  else [t, subtype, HighByte(offset), LowByte(offset)])
  {
    var data := MultiPartData(t, subtype, start);
    var at := OffsetAt(t);
    var message := [0x6e as Byte, 0x51, (|data| as Byte) | 0x80] + data;
    RequestIsWellFormed(0x51, data);
    assert RequestBytes(0x51, data)[..|message|] == message;
    assert message[at := HighByte(offset)][at + 1 := LowByte(offset)]
           == [0x6e as Byte, 0x51, (|data| as Byte) | 0x80]
              + (if t == TYPE_CAPABILITIES_REQUEST then [t, HighByte(offset), LowByte(offset)]
                 else [t, subtype, HighByte(offset), LowByte(offset)]);
  }

  /** What a created and updated request says, byte for byte: the kind of read, of a table read
      the feature, and the offset, high byte first. */
  lemma RequestNames(t: Byte, subtype: Byte, start: int, offset: int)
    requires IsMultiPartType(t)
    ensures IsMultiPartRequest(RequestBytes(0x51, MultiPartData(t, subtype, start)))
    ensures var r := WithOffset(RequestBytes(0x51, MultiPartData(t, subtype, start)), offset);
            var at := if t == 0xf3 then 4 else 5;
            && |r| == at + 3 && r[0] == 0x6e && r[1] == 0x51 && r[2] == (if t == 0xf3 then 0x83 else 0x84)
            && r[3] == t && t in {0xf3, 0xe2} && (t == 0xe2 ==> r[4] == subtype)
            && 256 * (r[at] as int) + r[at + 1] as int == offset % 0x1_0000
            && Xor(r) == 0
  {
    hide Word, Xor;
    UpdatedRequest(t, subtype, start, offset);
    RequestIsWellFormed(0x51, if t == TYPE_CAPABILITIES_REQUEST then [t, HighByte(offset), LowByte(offset)]
                              else [t, subtype, HighByte(offset), LowByte(offset)]);
    WordValue(HighByte(offset), LowByte(offset));
    WordOfBytes(offset);
  }

  /** Creating a request at an offset gives the request that updating to it gives exactly
      when bits 8 to 15 of the offset equal bits 16 to 23. */
  lemma CreatedAgreesWithUpdatedIff(t: Byte, subtype: Byte, start: int, offset: int)
    requires IsMultiPartType(t)
    ensures IsMultiPartRequest(RequestBytes(0x51, MultiPartData(t, subtype, start)))
    ensures RequestBytes(0x51, MultiPartData(t, subtype, offset))
            == WithOffset(RequestBytes(0x51, MultiPartData(t, subtype, start)), offset)
            <==> offset / 0x100 % 0x100 == offset / 0x1_0000 % 0x100
  {
    UpdatedRequest(t, subtype, start, offset);
    HighBytesAgreeIff(offset);
    var updated := if t == TYPE_CAPABILITIES_REQUEST then [t, HighByte(offset), LowByte(offset)]
                   else [t, subtype, HighByte(offset), LowByte(offset)];
    var created := MultiPartData(t, subtype, offset);
    RequestIsWellFormed(0x51, updated);
    RequestIsWellFormed(0x51, created);
    assert updated[|updated| - 2] == HighByte(offset) && created[|updated| - 2] == CreatedHighByte(offset);
  }

  lemma HighBytesAgreeIff(offset: int)
    ensures HighByte(offset) == CreatedHighByte(offset) <==> offset / 0x100 % 0x100 == offset / 0x1_0000 % 0x100
  {
    ByteRound(offset / 0x100 % 0x100);
    ByteRound(offset / 0x1_0000 % 0x100);
  }

  /** Within sixteen bits that means: when the offset is below 256. */
  lemma AgreementIsBelow256(t: Byte, subtype: Byte, start: int, offset: int)
    requires IsMultiPartType(t) && 0 <= offset < 0x1_0000
    ensures IsMultiPartRequest(RequestBytes(0x51, MultiPartData(t, subtype, start)))
    ensures RequestBytes(0x51, MultiPartData(t, subtype, offset))
            == WithOffset(RequestBytes(0x51, MultiPartData(t, subtype, start)), offset)
            <==> offset < 0x100
  {
    CreatedAgreesWithUpdatedIff(t, subtype, start, offset);
    Below256Iff(offset);
  }

  lemma Below256Iff(offset: int)
    requires 0 <= offset < 0x1_0000
    ensures offset / 0x100 % 0x100 == offset / 0x1_0000 % 0x100 <==> offset < 0x100
  {
  }

  /** A capabilities request created for offset 256 asks for offset 0. */
  lemma CreatedAt256AsksFor0()
    ensures var created := RequestBytes(0x51, MultiPartData(TYPE_CAPABILITIES_REQUEST, 0, 256));
            IsMultiPartRequest(created) && RequestedOffset(created) == 0
  {
    RequestIsWellFormed(0x51, MultiPartData(TYPE_CAPABILITIES_REQUEST, 0, 256));
    WordValue(CreatedHighByte(256), LowByte(256));
  }

  // Set VCP requests

  function SetVcpBytes(source: Byte, vcpCode: Byte, newValue: int): seq<Byte> {
    RequestBytes(if source != 0 then source else 0x51,
                 [TYPE_SET_VCP_REQUEST, vcpCode, HighByte(newValue), LowByte(newValue)])
  }

  method CreateSetVcpRequest(altSource: Byte, vcpCode: Byte, newValue: int) returns (p: DdcPacket)
    ensures fresh(p) && fresh(p.raw) && p.Valid() && p.typ == TYPE_SET_VCP_REQUEST
    ensures p.Bytes() == SetVcpBytes(altSource, vcpCode, newValue)
  {
    var source := 0x51;
    if altSource != 0 {
      source := altSource;
    }
    p := CreateBaseRequest(source, [TYPE_SET_VCP_REQUEST, vcpCode, HighByte(newValue), LowByte(newValue)]);
  }

  /** The value in a Set VCP request is the low sixteen bits of the value asked for, high byte
      first; it comes from the alternative source address, or from 0x51 if that is 0. */
  lemma SetVcpCarriesValue(source: Byte, vcpCode: Byte, newValue: int)
    ensures var b := SetVcpBytes(source, vcpCode, newValue);
            && IsRequest(b) && |b| == 8 && b[0] == 0x6e && b[1] == (if source == 0 then 0x51 else source)
            && b[2] == 0x84 && b[3] == 0x03 && b[4] == vcpCode
            && Word(b[5], b[6]) == newValue % 0x1_0000
            && 256 * (b[5] as int) + b[6] as int == newValue % 0x1_0000
            && Xor(b) == 0
  {
    hide Word, Xor;
    WordValue(HighByte(newValue), LowByte(newValue));
    RequestIsWellFormed(if source != 0 then source else 0x51,
                        [TYPE_SET_VCP_REQUEST, vcpCode, HighByte(newValue), LowByte(newValue)]);
    WordOfBytes(newValue);
  }
}

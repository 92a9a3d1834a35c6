/** Parsing of DDC/CI responses through its four layers: framing, type, subtype, contents. */
module DdcResponses {
  import opened DdcPackets

  datatype Status = Ok | DdcData | NullResponse | InternalError

  // What a display sends

  /** A length byte that announces `n` data bytes; its top bit is not looked at. */
  predicate Announces(lengthByte: Byte, n: nat) {
    (lengthByte & 0x7f) as int == n
  }

  function ResponseChecksum(framed: seq<Byte>): Byte {
    0x50 ^ Xor(framed)
  }

  /** A display's response as it is read from the bus. */
  function ResponseBytes(lengthByte: Byte, payload: seq<Byte>): seq<Byte> {
    var framed := [0x6e as Byte, lengthByte] + payload;
    framed + [ResponseChecksum(framed)]
  }

  /** A payload that answers a request for `expected`; the subtype is the feature code of a
      value query. */
  predicate Answers(payload: seq<Byte>, expected: Byte, subtype: Byte) {
    && 1 <= |payload| <= MAX_DDC_DATA_SIZE
    && payload[0] == expected
    && if expected == TYPE_CAPABILITIES_RESPONSE || expected == TYPE_TABLE_READ_RESPONSE then |payload| >= 3
       else expected == TYPE_QUERY_VCP_RESPONSE && |payload| == 8 && payload[2] == subtype && payload[1] in {0, 1}
  }

  /** The responses to accept: a frame around a payload that answers the request.  What
      follows the frame in the buffer does not matter. */
  ghost predicate IsAnswer(buf: seq<Byte>, expected: Byte, subtype: Byte) {
    exists lengthByte: Byte, payload: seq<Byte> ::
      && Announces(lengthByte, |payload|) && ResponseBytes(lengthByte, payload) <= buf
      && Answers(payload, expected, subtype)
  }

  // What the parser does

  function DataCt(buf: seq<Byte>): nat
    requires |buf| >= 2
  {
    (buf[1] & 0x7f) as int
  }

  /** The source reads this far without checking the size of the buffer. */
  predicate Readable(buf: seq<Byte>) {
    |buf| >= 2 && (buf[0] == 0x6e && DataCt(buf) <= MAX_DDC_DATA_SIZE ==> |buf| >= DataCt(buf) + 3)
  }

  function BaseStatus(buf: seq<Byte>): Status
    requires Readable(buf)
  {
    if buf[0] != 0x6e || DataCt(buf) > MAX_DDC_DATA_SIZE then DdcData
    else if ResponseChecksum(buf[..DataCt(buf) + 2]) != buf[DataCt(buf) + 2] then DdcData
    else Ok
  }

  /** The packet kept for an accepted response: the bytes read, after the implicit destination. */
  function PacketOf(buf: seq<Byte>): seq<Byte>
    requires Readable(buf) && BaseStatus(buf) == Ok
  {
    [0x6f as Byte] + buf[..DataCt(buf) + 3]
  }

  function DataOf(buf: seq<Byte>): (d: seq<Byte>)
    requires Readable(buf) && BaseStatus(buf) == Ok
    ensures |d| == DataCt(buf)
  {
    buf[2..DataCt(buf) + 2]
  }

  /** Some displays double the first byte. */
  function Strip(buf: seq<Byte>): seq<Byte> {
    if |buf| > 2 && buf[0] == 0x6e && buf[1] == 0x6e then buf[1..] else buf
  }

  function ResponseStatus(buf: seq<Byte>, expected: Byte): Status
    requires Readable(buf)
  {
    if BaseStatus(buf) != Ok then BaseStatus(buf)
    else if DataOf(buf) == [] then NullResponse
    else if DataOf(buf)[0] != expected then DdcData
    else Ok
  }

  function FragmentStatus(data: seq<Byte>): Status {
    if |data| < 3 || |data| > 35 then DdcData else Ok
  }

  function VcpStatus(data: seq<Byte>, requested: Byte): Status {
    if |data| != 8 then DdcData
    else if data[2] != requested then DdcData
    else if data[1] != 0 && data[1] != 1 then DdcData
    else Ok
  }

  function TypedStatus(buf: seq<Byte>, expected: Byte, subtype: Byte): Status
    requires Readable(buf)
  {
    if ResponseStatus(buf, expected) != Ok then ResponseStatus(buf, expected)
    else if expected == TYPE_CAPABILITIES_RESPONSE || expected == TYPE_TABLE_READ_RESPONSE then
      FragmentStatus(DataOf(buf))
    else if expected == TYPE_QUERY_VCP_RESPONSE then VcpStatus(DataOf(buf), subtype)
    else InternalError
  }

  /** What a multi part fragment is read as. */
  function FragmentOf(responseType: Byte, data: seq<Byte>): Fragment
    requires FragmentStatus(data) == Ok
  {
    Fragment(responseType, Word(data[1], data[2]), data[3..])
  }

  /** What a value response is read as; an unsupported feature is a valid response. */
  function VcpOf(data: seq<Byte>): VcpResponse
    requires |data| == 8
  {
    if data[1] == 0 then VcpResponse(data[2], true, true, data[4], data[5], data[6], data[7])
    else VcpResponse(data[2], true, false, 0, 0, 0, 0)
  }

  function ParsedOf(expected: Byte, data: seq<Byte>): Parsed {
    if expected == TYPE_QUERY_VCP_RESPONSE then (if |data| == 8 then ParsedVcp(VcpOf(data)) else Unparsed)
    else if FragmentStatus(data) == Ok then ParsedFragment(FragmentOf(expected, data)) else Unparsed
  }

  // The parser

  /** The packet for a response of acceptable length, its checksum not yet looked at. */
  method CopyResponse(response: array<Byte>, at: nat, dataCt: nat) returns (p: DdcPacket)
    requires at + dataCt + 3 <= response.Length
    ensures fresh(p) && fresh(p.raw) && p.Valid() && p.len == dataCt + 4
    ensures p.raw[..p.len] == [0x6f as Byte, 0x6e] + response[at + 1..at + dataCt + 3]
    ensures p.Typed()
  {
    p := new DdcPacket(3 + dataCt + 1);
    if dataCt > 0 {
      p.typ := response[at + 2];
    }
    p.raw[0] := 0x6f;
    p.raw[1] := 0x6e;
    forall k | 0 <= k < 1 + dataCt + 1 {
      p.raw[2 + k] := response[at + 1 + k];
    }
    p.len := 3 + dataCt + 1;
    assert p.raw[2 + 1] == response[at + 1 + 1];
    assert forall k :: 2 <= k < p.len ==> p.raw[k] == response[at + 1 + (k - 2)];
  }

  method CreateBaseResponse(response: array<Byte>, at: nat) returns (status: Status, packet: DdcPacket?)
    requires at <= response.Length && Readable(response[at..])
    ensures status == BaseStatus(response[at..])
    ensures packet != null <==> status == Ok
    ensures packet != null ==> fresh(packet) && fresh(packet.raw) && packet.Valid()
                               && packet.Bytes() == PacketOf(response[at..])
                               && packet.Typed()
  {
    ghost var buf := response[at..];
    status, packet := Ok, null;
    if response[at] != 0x6e {
      status := DdcData;
    } else {
      var dataCt := (response[at + 1] & 0x7f) as int;
      if dataCt > MAX_DDC_DATA_SIZE {
        status := DdcData;
      } else {
        packet := CopyResponse(response, at, dataCt);
        var ok := IsIntact(packet, dataCt, buf);
        if !ok {
          status, packet := DdcData, null;
        }
      }
    }
  }

  /** Whether the checksum of a copied response is right. */
  method IsIntact(packet: DdcPacket, dataCt: nat, ghost buf: seq<Byte>) returns (ok: bool)
    requires Readable(buf) && buf[0] == 0x6e && DataCt(buf) == dataCt <= MAX_DDC_DATA_SIZE
    requires packet.Valid() && packet.len == dataCt + 4
    requires packet.Bytes() == [0x6f as Byte, 0x6e] + buf[1..dataCt + 3]
    ensures ok <==> BaseStatus(buf) == Ok
    ensures ok ==> packet.Bytes() == PacketOf(buf)
  {
    hide Readable, DataCt;
    TakeTake(packet.raw[..], packet.len, 3 + dataCt);
    PacketSplits(buf, packet.raw[..packet.len]);
    var calculated := DdcChecksum(packet.raw, 3 + dataCt, true);
    ok := calculated == packet.raw[3 + dataCt];
  }

  lemma PacketSplits(buf: seq<Byte>, packet: seq<Byte>)
    requires Readable(buf) && buf[0] == 0x6e && DataCt(buf) <= MAX_DDC_DATA_SIZE
    requires packet == [0x6f as Byte, 0x6e] + buf[1..DataCt(buf) + 3]
    ensures packet == [0x6f as Byte] + buf[..DataCt(buf) + 3]
    ensures Checksum(packet[..DataCt(buf) + 3], true) == ResponseChecksum(buf[..DataCt(buf) + 2])
    ensures packet[DataCt(buf) + 3] == buf[DataCt(buf) + 2]
  {
    var n := DataCt(buf) + 2;
    assert packet == [0x6f as Byte] + buf[..n + 1];
    assert packet[..n + 1] == [0x6f as Byte] + buf[..n];
    assert ([0x6f as Byte] + buf[..n])[1..] == buf[..n];
  }

  lemma TakeTake(s: seq<Byte>, m: nat, n: nat)
    requires n <= m <= |s|
    ensures s[..m][..n] == s[..n]
  {
  }

  method CreateResponse(response: array<Byte>, expected: Byte) returns (status: Status, packet: DdcPacket?)
    requires Readable(Strip(response[..]))
    ensures status == ResponseStatus(Strip(response[..]), expected)
    ensures packet != null <==> status == Ok
    ensures packet != null ==> fresh(packet) && fresh(packet.raw) && packet.Valid()
                               && packet.Bytes() == PacketOf(Strip(response[..]))
                               && packet.Data() == DataOf(Strip(response[..]))
                               && packet.typ == expected
  {
    var at := 0;
    if response.Length > 2 && response[0] == 0x6e && response[1] == 0x6e {
      at := 1;
    }
    assert response[at..] == Strip(response[..]);
    status, packet := CreateBaseResponse(response, at);
    if packet != null {
      PayloadOfPacket(response[at..]);
      var data := packet.Data();
      if |data| == 0 {
        status := NullResponse;
      } else if data[0] != expected {
        status := DdcData;
      }
      if status != Ok {
        packet := null;
      }
    }
  }

  lemma PayloadOfPacket(buf: seq<Byte>)
    requires Readable(buf) && BaseStatus(buf) == Ok
    ensures |PacketOf(buf)| == DataCt(buf) + 4 && Payload(PacketOf(buf)) == DataOf(buf)
  {
  }

  method InterpretFragment(responseType: Byte, data: seq<Byte>) returns (status: Status, fragment: Fragment)
    requires data != [] && data[0] == responseType
    ensures status == FragmentStatus(data)
    ensures status == Ok ==> fragment == FragmentOf(responseType, data) && |fragment.bytes| <= MAX_FRAGMENT
  {
    status, fragment := Ok, Fragment(0, 0, []);
    if |data| < 3 || |data| > 35 {
      status := DdcData;
    } else {
      assert data[0] == responseType;
      var readLength := |data| - 3;
      assert readLength <= MAX_FRAGMENT;
      fragment := Fragment(responseType, Word(data[1], data[2]), data[3..3 + readLength]);
    }
  }

  method InterpretVcp(data: seq<Byte>, requested: Byte) returns (status: Status, response: VcpResponse)
    ensures status == VcpStatus(data, requested)
    ensures status == Ok ==> response == VcpOf(data)
  {
    status, response := Ok, VcpResponse(0, false, false, 0, 0, 0, 0);
    if |data| != 8 {
      status := DdcData;
    } else {
      response := response.(vcpCode := data[2]);
      if data[2] != requested {
        status := DdcData;
      } else if data[1] != 0 {
        if data[1] == 0x01 {
          response := response.(validResponse := true);
        } else {
          status := DdcData;
        }
      } else {
        response := response.(validResponse := true, supportedOpcode := true);
        response := response.(mh := data[4], ml := data[5], sh := data[6], sl := data[7]);
      }
    }
  }

  method CreateTypedResponse(response: array<Byte>, expected: Byte, subtype: Byte)
    returns (status: Status, packet: DdcPacket?)
    requires Readable(Strip(response[..]))
    ensures status == TypedStatus(Strip(response[..]), expected, subtype)
    ensures packet != null <==> status == Ok
    ensures packet != null ==> fresh(packet) && packet.Valid()
                               && packet.Bytes() == PacketOf(Strip(response[..])) && packet.typ == expected
                               && packet.parsed == ParsedOf(expected, DataOf(Strip(response[..])))
  {
    status, packet := CreateResponse(response, expected);
    if status == Ok {
      var data := packet.Data();
      if expected == TYPE_CAPABILITIES_RESPONSE || expected == TYPE_TABLE_READ_RESPONSE {
        var fragment;
        status, fragment := InterpretFragment(expected, data);
        packet.parsed := ParsedFragment(fragment);
      } else if expected == TYPE_QUERY_VCP_RESPONSE {
        var vcp;
        status, vcp := InterpretVcp(data, subtype);
        packet.parsed := ParsedVcp(vcp);
      } else {
        status := InternalError;
      }
      if status != Ok {
        packet := null;
      }
    }
  }

  // What is accepted

  lemma FrameIsReadable(lengthByte: Byte, payload: seq<Byte>, buf: seq<Byte>)
    requires Announces(lengthByte, |payload|) && |payload| <= MAX_DDC_DATA_SIZE
    requires ResponseBytes(lengthByte, payload) <= buf
    ensures Readable(buf) && BaseStatus(buf) == Ok && DataOf(buf) == payload
  {
    var rb := ResponseBytes(lengthByte, payload);
    assert buf[..|rb|] == rb;
    assert buf[1] == rb[1] && buf[|payload| + 2] == rb[|payload| + 2];
    assert buf[..|payload| + 2] == rb[..|payload| + 2] == [0x6e as Byte, lengthByte] + payload;
    assert buf[2..|payload| + 2] == payload;
  }

  lemma AcceptedIsFramed(buf: seq<Byte>)
    requires Readable(buf) && BaseStatus(buf) == Ok
    ensures Announces(buf[1], |DataOf(buf)|) && ResponseBytes(buf[1], DataOf(buf)) <= buf
  {
    assert buf[..DataCt(buf) + 2] == [0x6e as Byte, buf[1]] + DataOf(buf);
  }

  /** A response is accepted exactly when it is an answer; it is a null response exactly when
      it frames an empty payload. */
  lemma AcceptedIffAnswer(buf: seq<Byte>, expected: Byte, subtype: Byte)
    requires Readable(buf)
    ensures TypedStatus(buf, expected, subtype) == Ok <==> IsAnswer(buf, expected, subtype)
    ensures TypedStatus(buf, expected, subtype) == NullResponse <==>
              exists lengthByte: Byte :: Announces(lengthByte, 0) && ResponseBytes(lengthByte, []) <= buf
  {
    forall lengthByte: Byte, payload: seq<Byte>
      | Announces(lengthByte, |payload|) && ResponseBytes(lengthByte, payload) <= buf && |payload| <= MAX_DDC_DATA_SIZE
      ensures BaseStatus(buf) == Ok && DataOf(buf) == payload
    {
      FrameIsReadable(lengthByte, payload, buf);
    }
    if BaseStatus(buf) == Ok {
      AcceptedIsFramed(buf);
    }
  }

  /** The double byte quirk is not mistaken for a frame: no frame begins with two 0x6e, and
      a frame behind an extra 0x6e is parsed as the frame alone. */
  lemma StripFindsFrame(lengthByte: Byte, payload: seq<Byte>, rest: seq<Byte>)
    requires Announces(lengthByte, |payload|) && |payload| <= MAX_DDC_DATA_SIZE
    ensures Strip(ResponseBytes(lengthByte, payload) + rest) == ResponseBytes(lengthByte, payload) + rest
    ensures Strip([0x6e as Byte] + ResponseBytes(lengthByte, payload) + rest)
         == ResponseBytes(lengthByte, payload) + rest
  {
    assert lengthByte != 0x6e;
    var doubled := [0x6e as Byte] + ResponseBytes(lengthByte, payload) + rest;
    assert doubled[1..] == ResponseBytes(lengthByte, payload) + rest;
  }

  /** Parsing undoes framing: with or without the quirk, whatever follows, the packet kept
      for a framed payload of 1 to 35 bytes has that payload as its data. */
  lemma ParsingUndoesFraming(payload: seq<Byte>, rest: seq<Byte>, doubled: bool)
    requires 1 <= |payload| <= MAX_DDC_DATA_SIZE
    ensures var frame := ResponseBytes((|payload| as Byte) | 0x80, payload);
            var buf := Strip((if doubled then [0x6e as Byte] else []) + frame + rest);
            && Readable(buf)
            && ResponseStatus(buf, payload[0]) == Ok
            && Payload(PacketOf(buf)) == payload
  {
    var lengthByte := (|payload| as Byte) | 0x80;
    LengthByteAnnounces(|payload|);
    var frame := ResponseBytes(lengthByte, payload);
    StripFindsFrame(lengthByte, payload, rest);
    assert [] + frame + rest == frame + rest;
    FrameIsReadable(lengthByte, payload, frame + rest);
    PayloadOfPacket(frame + rest);
  }

  lemma LengthByteAnnounces(n: nat)
    requires n < 128
    ensures Announces((n as Byte) | 0x80, n)
  {
    ByteRound(n);
    TopBitOff(n as Byte);
  }

  lemma TopBitOff(b: Byte)
    requires b < 0x80
    ensures (b | 0x80) & 0x7f == b
  {
  }

  lemma {:induction false} XorUpdate(s: seq<Byte>, i: nat, v: Byte)
    requires i < |s|
    ensures Xor(s[i := v]) == Xor(s) ^ s[i] ^ v
    decreases |s|
  {
    var n := |s| - 1;
    if i == n {
      assert s[i := v][..n] == s[..n];
    } else {
      XorUpdate(s[..n], i, v);
      assert s[i := v][..n] == s[..n][i := v];
    }
  }

  /** Changing any one byte of a frame but its length byte makes it rejected. */
  lemma CorruptionIsDetected(lengthByte: Byte, payload: seq<Byte>, rest: seq<Byte>, i: nat, v: Byte)
    requires Announces(lengthByte, |payload|) && |payload| <= MAX_DDC_DATA_SIZE
    requires i < |payload| + 3 && i != 1 && v != ResponseBytes(lengthByte, payload)[i]
    ensures var bad := ResponseBytes(lengthByte, payload)[i := v] + rest;
            Readable(bad) && BaseStatus(bad) == DdcData
  {
    var framed := [0x6e as Byte, lengthByte] + payload;
    var bad := ResponseBytes(lengthByte, payload)[i := v] + rest;
    var n := |payload| + 2;
    assert bad[1] == lengthByte;
    if i == n {
      assert bad[..n] == framed;
    } else if i >= 2 {
      assert bad[..n] == framed[i := v];
      CorruptChecksum(framed, i, v);
    }
  }

  lemma CorruptChecksum(framed: seq<Byte>, i: nat, v: Byte)
    requires i < |framed| && framed[i] != v
    ensures ResponseChecksum(framed[i := v]) != ResponseChecksum(framed)
  {
    XorUpdate(framed, i, v);
    XorDiffers(Xor(framed), framed[i], v);
  }

  lemma XorDiffers(x: Byte, a: Byte, b: Byte)
    requires a != b
    ensures 0x50 ^ (x ^ a ^ b) != 0x50 ^ x
  {
  }

  /** The framing layer accepts what XORs to 0x50 up to its announced end. */
  lemma AcceptedIffXor(buf: seq<Byte>)
    requires Readable(buf) && buf[0] == 0x6e && DataCt(buf) <= MAX_DDC_DATA_SIZE
    ensures BaseStatus(buf) == Ok <==> Xor(buf[..DataCt(buf) + 3]) == 0x50
  {
    var n := DataCt(buf) + 2;
    assert buf[..n + 1][..n] == buf[..n];
    XorCancels(Xor(buf[..n]), buf[n]);
  }

  lemma XorCancels(x: Byte, y: Byte)
    ensures 0x50 ^ x == y <==> x ^ y == 0x50
  {
  }

  /** The bytes between two ends of a frame in a buffer. */
  function Between(buf: seq<Byte>, m: nat, n: nat): seq<Byte>
    requires m + 3 <= |buf| && n + 3 <= |buf|
  {
    if m < n then buf[m + 3..n + 3] else buf[n + 3..m + 3]
  }

  lemma XorToEnd(buf: seq<Byte>, m: nat, n: nat)
    requires m + 3 <= |buf| && n + 3 <= |buf|
    ensures Xor(buf[..m + 3]) == Xor(buf[..n + 3]) ^ Xor(Between(buf, m, n))
  {
    if m < n {
      assert buf[..n + 3] == buf[..m + 3] + buf[m + 3..n + 3];
      XorAppend(buf[..m + 3], buf[m + 3..n + 3]);
      XorTwice(Xor(buf[..m + 3]), Xor(buf[m + 3..n + 3]));
    } else {
      assert buf[..m + 3] == buf[..n + 3] + buf[n + 3..m + 3];
      XorAppend(buf[..n + 3], buf[n + 3..m + 3]);
    }
  }

  lemma XorTwice(x: Byte, y: Byte)
    ensures x ^ y ^ y == x
  {
  }

  /** The bytes added XOR to the change of one byte that keeps the whole at 0x50. */
  predicate Balances(changed: Byte, between: Byte, old': Byte, new': Byte) {
    changed == 0x50 <==> between == new' ^ old'
  }

  lemma XorMoves(total: Byte, between: Byte, old': Byte, new': Byte, further: Byte, changed: Byte)
    requires total == 0x50 && further == total ^ between && changed == further ^ old' ^ new'
    ensures Balances(changed, between, old', new')
  {
  }

  lemma XorToChangedEnd(buf: seq<Byte>, m: nat, n: nat, v: Byte)
    requires m + 3 <= |buf| && n + 3 <= |buf| && Xor(buf[..n + 3]) == 0x50
    ensures Balances(Xor(buf[1 := v][..m + 3]), Xor(Between(buf, m, n)), buf[1], v)
  {
    hide Xor, Between, Balances;
    var further, changed := buf[..m + 3], buf[1 := v][..m + 3];
    assert changed == further[1 := v] && further[1] == buf[1];
    XorUpdate(further, 1, v);
    XorToEnd(buf, m, n);
    XorMoves(Xor(buf[..n + 3]), Xor(Between(buf, m, n)), buf[1], v, Xor(further), Xor(changed));
  }

  function NewLength(v: Byte): nat {
    (v & 0x7f) as int
  }

  /** The length byte is the exception.  An accepted response whose length byte is changed
      stays accepted if and only if the length now announced is allowed and the bytes that it
      cuts off the frame, or takes in from behind it, XOR to the change. */
  lemma ChangedLengthPassesIff(buf: seq<Byte>, v: Byte)
    requires Readable(buf) && BaseStatus(buf) == Ok && Readable(buf[1 := v])
    ensures NewLength(v) <= MAX_DDC_DATA_SIZE ==> NewLength(v) + 3 <= |buf|
    ensures BaseStatus(buf[1 := v]) == Ok <==>
              NewLength(v) <= MAX_DDC_DATA_SIZE && Xor(Between(buf, NewLength(v), DataCt(buf))) == v ^ buf[1]
  {
    hide Xor, Between;
    AcceptedIffXor(buf);
    assert DataCt(buf[1 := v]) == NewLength(v);
    if NewLength(v) <= MAX_DDC_DATA_SIZE {
      hide BaseStatus, NewLength, DataCt;
      AcceptedIffXor(buf[1 := v]);
      XorToChangedEnd(buf, NewLength(v), DataCt(buf), v);
    }
  }

  /** The same of a frame and whatever follows it. */
  lemma CorruptLengthPassesIff(lengthByte: Byte, payload: seq<Byte>, rest: seq<Byte>, v: Byte)
    requires Announces(lengthByte, |payload|) && |payload| <= MAX_DDC_DATA_SIZE
    requires Readable((ResponseBytes(lengthByte, payload) + rest)[1 := v])
    ensures var buf := ResponseBytes(lengthByte, payload) + rest;
            && (NewLength(v) <= MAX_DDC_DATA_SIZE ==> NewLength(v) + 3 <= |buf|)
            && (BaseStatus(buf[1 := v]) == Ok <==>
                  NewLength(v) <= MAX_DDC_DATA_SIZE
                  && Xor(Between(buf, NewLength(v), |payload|)) == v ^ lengthByte)
  {
    hide Xor, Between, BaseStatus, NewLength, ResponseChecksum, Readable;
    var buf := ResponseBytes(lengthByte, payload) + rest;
    FrameIsReadable(lengthByte, payload, buf);
    assert |DataOf(buf)| == DataCt(buf);
    ChangedLengthPassesIff(buf, v);
  }

  /** So a change of the top bit alone is always detected, although that bit is not looked at. */
  lemma CorruptTopBitIsDetected(lengthByte: Byte, payload: seq<Byte>, rest: seq<Byte>)
    requires Announces(lengthByte, |payload|) && |payload| <= MAX_DDC_DATA_SIZE
    ensures var bad := (ResponseBytes(lengthByte, payload) + rest)[1 := lengthByte ^ 0x80];
            Readable(bad) && BaseStatus(bad) == DdcData
  {
    hide Xor, ResponseChecksum;
    var buf := ResponseBytes(lengthByte, payload) + rest;
    var n := |payload|;
    OtherTopBit(lengthByte);
    CorruptLengthPassesIff(lengthByte, payload, rest, lengthByte ^ 0x80);
    assert Between(buf, n, n) == [];
    XorOfNone();
  }

  lemma XorOfNone()
    ensures Xor([]) == 0
  {
  }

  lemma OtherTopBit(b: Byte)
    ensures (b ^ 0x80) & 0x7f == b & 0x7f && (b ^ 0x80) ^ b != 0
  {
  }

  /** A buffer that begins with a header and some data passes if the next byte is their checksum. */
  lemma BeginningPassesIff(buf: seq<Byte>, v: Byte, data: seq<Byte>)
    requires |data| == NewLength(v) <= MAX_DDC_DATA_SIZE && |data| + 2 < |buf|
    requires buf[..|data| + 2] == [0x6e as Byte, v] + data
    ensures Readable(buf)
    ensures BaseStatus(buf) == Ok <==> buf[|data| + 2] == ResponseChecksum([0x6e as Byte, v] + data)
    ensures BaseStatus(buf) == Ok ==> DataOf(buf) == data
  {
    hide ResponseChecksum;
    assert buf[0] == 0x6e && buf[1] == v;
    assert buf[2..|data| + 2] == buf[..|data| + 2][2..];
  }

  /** A length that cuts the frame short passes exactly when the byte it ends at happens to be
      the checksum of what is left, which is then taken for the data. */
  lemma CutShortPassesIff(lengthByte: Byte, payload: seq<Byte>, rest: seq<Byte>, v: Byte)
    requires Announces(lengthByte, |payload|) && |payload| <= MAX_DDC_DATA_SIZE && NewLength(v) < |payload|
    ensures var bad, m := (ResponseBytes(lengthByte, payload) + rest)[1 := v], NewLength(v);
            && Readable(bad)
            && (BaseStatus(bad) == Ok <==> payload[m] == ResponseChecksum([0x6e as Byte, v] + payload[..m]))
            && (BaseStatus(bad) == Ok ==> DataOf(bad) == payload[..m])
  {
    hide ResponseChecksum, BaseStatus, DataOf, Readable, NewLength, DataCt, Announces;
    var m := NewLength(v);
    var tail := [ResponseChecksum([0x6e as Byte, lengthByte] + payload)] + rest;
    assert ResponseBytes(lengthByte, payload) + rest == [0x6e as Byte, lengthByte] + payload + tail;
    BytesOfCutFrame([0x6e as Byte, lengthByte], payload, tail, v, m);
    BeginningPassesIff((ResponseBytes(lengthByte, payload) + rest)[1 := v], v, payload[..m]);
  }

  lemma BytesOfCutFrame(header: seq<Byte>, payload: seq<Byte>, tail: seq<Byte>, v: Byte, m: nat)
    requires |header| == 2 && m < |payload|
    ensures var bad := (header + payload + tail)[1 := v];
            m + 2 < |bad| && bad[..m + 2] == [header[0], v] + payload[..m] && bad[m + 2] == payload[m]
  {
  }

  /** This one byte payload, its length changed to zero, is a well formed null response. */
  lemma CorruptLengthIsNotDetected()
    ensures var frame := ResponseBytes(0x81, [0xbe]);
            Readable(frame[1 := 0x80]) && BaseStatus(frame[1 := 0x80]) == Ok && DataOf(frame[1 := 0x80]) == []
  {
    var bad := ResponseBytes(0x81, [0xbe])[1 := 0x80];
    assert bad[..2] == [0x6e, 0x80];
    assert [0x6e as Byte, 0x80][..1] == [0x6e as Byte];
    XorOne(0x6e);
  }

  // What an accepted response is read as

  /** Where the frame begins: behind a doubled first byte, if there is one. */
  function FrameAt(buf: seq<Byte>): nat {
    if |buf| > 2 && buf[0] == 0x6e && buf[1] == 0x6e then 1 else 0
  }

  /** The data of an accepted response are the bytes behind the header, as many as it says. */
  lemma AcceptedData(buf: seq<Byte>)
    requires Readable(Strip(buf)) && BaseStatus(Strip(buf)) == Ok
    ensures var at := FrameAt(buf);
            && |buf| >= at + 3 + DataCt(Strip(buf)) && buf[at] == 0x6e
            && DataOf(Strip(buf)) == buf[at + 2..at + 2 + DataCt(Strip(buf))]
  {
    var at, n := FrameAt(buf), DataCt(Strip(buf));
    hide BaseStatus, DataCt;
    assert Strip(buf) == buf[at..];
    assert buf[at..][2..n + 2] == buf[at + 2..at + 2 + n];
  }

  /** An accepted value reply is read, from the bytes in the buffer, as a valid response with the
      code of the requested feature.  The feature is supported if and only if the result byte is
      0; then the four bytes of the values are taken over, and else they are 0. */
  lemma AcceptedValueReads(buf: seq<Byte>, requested: Byte)
    requires Readable(Strip(buf)) && TypedStatus(Strip(buf), 0x02, requested) == Ok
    ensures var at := FrameAt(buf);
            var parsed := ParsedOf(0x02, DataOf(Strip(buf)));
            && |buf| >= at + 11 && buf[at] == 0x6e && buf[at + 2] == 0x02 && buf[at + 4] == requested
            && parsed.ParsedVcp?
            && var r := parsed.response;
            && r.validResponse && r.vcpCode == requested
            && (r.supportedOpcode <==> buf[at + 3] == 0) && (!r.supportedOpcode <==> buf[at + 3] == 1)
            && [r.mh, r.ml, r.sh, r.sl] == if buf[at + 3] == 0 then buf[at + 6..at + 10] else [0, 0, 0, 0]
  {
    AcceptedLayers(Strip(buf), 0x02, requested);
    hide BaseStatus, DataOf, Strip, Readable, VcpStatus, ParsedOf, DataCt;
    AcceptedData(buf);
    var at := FrameAt(buf);
    var data := DataOf(Strip(buf));
    ValueIsRead(data, requested);
    assert data == buf[at + 2..at + 10];
    assert buf[at + 6..at + 10] == data[4..] == [data[4], data[5], data[6], data[7]];
  }

  /** So of any reply framed around an answer to a value query, with or without the doubled byte
      and whatever follows, the parser makes this. */
  lemma ValueReplyIsRead(lengthByte: Byte, payload: seq<Byte>, rest: seq<Byte>, doubled: bool, requested: Byte)
    requires Announces(lengthByte, 8) && |payload| == 8
    requires payload[0] == 0x02 && payload[1] in {0, 1} && payload[2] == requested
    ensures var buf := (if doubled then [0x6e as Byte] else []) + ResponseBytes(lengthByte, payload) + rest;
            && Readable(Strip(buf)) && TypedStatus(Strip(buf), 0x02, requested) == Ok
            && ParsedOf(0x02, DataOf(Strip(buf)))
               == ParsedVcp(if payload[1] == 0
                            then VcpResponse(requested, true, true, payload[4], payload[5], payload[6], payload[7])
                            else VcpResponse(requested, true, false, 0, 0, 0, 0))
  {
    hide ResponseChecksum;
    StripFindsFrame(lengthByte, payload, rest);
    assert [] + ResponseBytes(lengthByte, payload) + rest == ResponseBytes(lengthByte, payload) + rest;
    FrameIsReadable(lengthByte, payload, ResponseBytes(lengthByte, payload) + rest);
  }

  /** An accepted fragment is read as its offset, high byte first, and what follows that. */
  lemma AcceptedFragmentReads(buf: seq<Byte>, expected: Byte, subtype: Byte)
    requires expected in {0xe3, 0xe4}
    requires Readable(Strip(buf)) && TypedStatus(Strip(buf), expected, subtype) == Ok
    ensures var at, n := FrameAt(buf), DataCt(Strip(buf));
            var parsed := ParsedOf(expected, DataOf(Strip(buf)));
            && 3 <= n <= 35 && |buf| >= at + n + 3 && buf[at] == 0x6e && buf[at + 2] == expected
            && parsed == ParsedFragment(Fragment(expected, 256 * (buf[at + 3] as int) + buf[at + 4] as int,
                                                 buf[at + 5..at + n + 2]))
  {
    AcceptedLayers(Strip(buf), expected, subtype);
    hide BaseStatus, DataOf, Strip, Readable, FragmentStatus, ParsedOf, DataCt;
    AcceptedData(buf);
    FragmentIsRead(expected, DataOf(Strip(buf)));
    var at, n := FrameAt(buf), DataCt(Strip(buf));
    assert DataOf(Strip(buf))[3..] == buf[at + 5..at + n + 2];
  }

  lemma AcceptedLayers(buf: seq<Byte>, expected: Byte, subtype: Byte)
    requires Readable(buf) && TypedStatus(buf, expected, subtype) == Ok
    ensures BaseStatus(buf) == Ok && DataOf(buf) != [] && DataOf(buf)[0] == expected && DataCt(buf) <= 35
    ensures if expected in {0xe3, 0xe4} then FragmentStatus(DataOf(buf)) == Ok
            else expected == 0x02 && VcpStatus(DataOf(buf), subtype) == Ok
  {
    hide ResponseChecksum;
  }

  lemma FragmentIsRead(expected: Byte, data: seq<Byte>)
    requires expected in {0xe3, 0xe4} && FragmentStatus(data) == Ok
    ensures 3 <= |data| <= 35
    ensures ParsedOf(expected, data)
            == ParsedFragment(Fragment(expected, 256 * (data[1] as int) + data[2] as int, data[3..]))
  {
    hide Word;
    WordValue(data[1], data[2]);
  }

  lemma ValueIsRead(data: seq<Byte>, requested: Byte)
    requires VcpStatus(data, requested) == Ok
    ensures |data| == 8 && data[1] in {0, 1} && data[2] == requested
    ensures ParsedOf(0x02, data)
            == ParsedVcp(if data[1] == 0 then VcpResponse(requested, true, true, data[4], data[5], data[6], data[7])
                         else VcpResponse(requested, true, false, 0, 0, 0, 0))
  {
  }

  /** A response of an expected type is accepted, or bad, or null; the internal error is left for
      a type that the parser does not know. */
  lemma StatusIs(buf: seq<Byte>, expected: Byte, subtype: Byte)
    requires Readable(buf)
    ensures expected in {0x02, 0xe3, 0xe4} ==> TypedStatus(buf, expected, subtype) in {Ok, DdcData, NullResponse}
    ensures expected !in {0x02, 0xe3, 0xe4} ==>
              TypedStatus(buf, expected, subtype)
              == if ResponseStatus(buf, expected) == Ok then InternalError else ResponseStatus(buf, expected)
  {
  }

  // A changed length byte at the upper layers

  /** A length byte changed to 0x6e looks like the double byte quirk.  This frame, of which no
      length that long is allowed, is then taken for a null response. */
  lemma QuirkMakesNullResponse(expected: Byte)
    ensures var bad := ResponseBytes(0x82, [0x00, 0x3e])[1 := 0x6e];
            && NewLength(0x6e) > MAX_DDC_DATA_SIZE
            && Readable(Strip(bad)) && ResponseStatus(Strip(bad), expected) == NullResponse
  {
    var bad := ResponseBytes(0x82, [0x00, 0x3e])[1 := 0x6e];
    var buf := Strip(bad);
    assert buf[..2] == [0x6e, 0x00];
    assert [0x6e as Byte, 0x00][..1] == [0x6e as Byte];
    XorOne(0x6e);
  }

  /** Which buffer a changed length byte makes the parser look at. */
  lemma StripChanged(lengthByte: Byte, payload: seq<Byte>, rest: seq<Byte>, v: Byte)
    requires payload != []
    ensures var bad := (ResponseBytes(lengthByte, payload) + rest)[1 := v];
            && (v != 0x6e ==> Strip(bad) == bad)
            && (v == 0x6e ==> |Strip(bad)| >= 2 && Strip(bad)[0] == 0x6e && Strip(bad)[1] == payload[0])
  {
  }

  lemma ReplyTypesAsLengths()
    ensures NewLength(TYPE_QUERY_VCP_RESPONSE) == 2
    ensures NewLength(TYPE_CAPABILITIES_RESPONSE) == 99 && NewLength(TYPE_TABLE_READ_RESPONSE) == 100
    ensures NewLength(0x6e) == 110
  {
  }

  lemma SameLengthIsTopBit(b: Byte, v: Byte)
    requires v != b && NewLength(v) == NewLength(b)
    ensures v == b ^ 0x80
  {
    LowBitsDecide(b, v);
  }

  lemma LowBitsDecide(b: Byte, v: Byte)
    ensures NewLength(v) == NewLength(b) ==> v & 0x7f == b & 0x7f
    ensures v & 0x7f == b & 0x7f && v != b ==> v == b ^ 0x80
  {
  }

  /** A value reply with any change of its length byte is rejected by the parser, whatever
      follows it: only eight bytes of data are accepted. */
  lemma ValueLengthIsProtected(lengthByte: Byte, payload: seq<Byte>, rest: seq<Byte>, subtype: Byte, v: Byte)
    requires Announces(lengthByte, |payload|) && Answers(payload, TYPE_QUERY_VCP_RESPONSE, subtype) && v != lengthByte
    requires Readable(Strip((ResponseBytes(lengthByte, payload) + rest)[1 := v]))
    ensures var bad := (ResponseBytes(lengthByte, payload) + rest)[1 := v];
            TypedStatus(Strip(bad), TYPE_QUERY_VCP_RESPONSE, subtype) != Ok
  {
    hide Xor, ResponseChecksum;
    var bad := (ResponseBytes(lengthByte, payload) + rest)[1 := v];
    StripChanged(lengthByte, payload, rest, v);
    ReplyTypesAsLengths();
    if v != 0x6e && NewLength(v) == 8 {
      SameLengthIsTopBit(lengthByte, v);
      CorruptTopBitIsDetected(lengthByte, payload, rest);
    }
  }

  predicate IsFragmentType(t: Byte) {
    t == TYPE_CAPABILITIES_RESPONSE || t == TYPE_TABLE_READ_RESPONSE
  }

  /** A fragment with a changed length byte is accepted by the parser if and only if the length
      now announced leaves it its header, is allowed, and passes the framing layer. */
  lemma FragmentLengthPassesIff(lengthByte: Byte, payload: seq<Byte>, rest: seq<Byte>, expected: Byte,
                                subtype: Byte, v: Byte)
    requires Announces(lengthByte, |payload|) && IsFragmentType(expected) && Answers(payload, expected, subtype)
    requires Readable((ResponseBytes(lengthByte, payload) + rest)[1 := v])
    requires Readable(Strip((ResponseBytes(lengthByte, payload) + rest)[1 := v]))
    ensures var buf := ResponseBytes(lengthByte, payload) + rest;
            && (NewLength(v) <= MAX_DDC_DATA_SIZE ==> NewLength(v) + 3 <= |buf|)
            && (TypedStatus(Strip(buf[1 := v]), expected, subtype) == Ok <==>
                  3 <= NewLength(v) <= MAX_DDC_DATA_SIZE
                  && Xor(Between(buf, NewLength(v), |payload|)) == v ^ lengthByte)
  {
    hide Xor, ResponseChecksum, Between;
    var buf := ResponseBytes(lengthByte, payload) + rest;
    StripChanged(lengthByte, payload, rest, v);
    ReplyTypesAsLengths();
    CorruptLengthPassesIff(lengthByte, payload, rest, v);
    FragmentAccepted(buf[1 := v], expected, subtype);
  }

  /** The upper layers accept a framed fragment of the expected type if it has its header. */
  lemma FragmentAccepted(buf: seq<Byte>, expected: Byte, subtype: Byte)
    requires Readable(buf) && IsFragmentType(expected) && |buf| > 2 && buf[2] == expected
    ensures TypedStatus(buf, expected, subtype) == Ok <==> BaseStatus(buf) == Ok && DataCt(buf) >= 3
  {
    hide ResponseChecksum, Xor;
  }

  /** What a display that supports a feature answers. */
  function ValuePayload(vcpCode: Byte, typeCode: Byte, mh: Byte, ml: Byte, sh: Byte, sl: Byte): seq<Byte> {
    [TYPE_QUERY_VCP_RESPONSE, 0, vcpCode, typeCode, mh, ml, sh, sl]
  }

  lemma ValuePayloadAnswers(vcpCode: Byte, typeCode: Byte, mh: Byte, ml: Byte, sh: Byte, sl: Byte)
    ensures VcpOf(ValuePayload(vcpCode, typeCode, mh, ml, sh, sl)) == VcpResponse(vcpCode, true, true, mh, ml, sh, sl)
    ensures Answers(ValuePayload(vcpCode, typeCode, mh, ml, sh, sl), TYPE_QUERY_VCP_RESPONSE, vcpCode)
  {
  }

  /** A maximum and a current value of sixteen bits are read back from the answer. */
  lemma ValueIsReadBack(vcpCode: Byte, typeCode: Byte, maximum: int, current: int)
    requires 0 <= maximum < 0x1_0000 && 0 <= current < 0x1_0000
    ensures var r := VcpOf(ValuePayload(vcpCode, typeCode, HighByte(maximum), LowByte(maximum),
                                        HighByte(current), LowByte(current)));
            && r.supportedOpcode && r.vcpCode == vcpCode
            && Word(r.mh, r.ml) == maximum && Word(r.sh, r.sl) == current
  {
    WordOfBytes(maximum);
    WordOfBytes(current);
    ValuePayloadAnswers(vcpCode, typeCode, HighByte(maximum), LowByte(maximum), HighByte(current), LowByte(current));
  }
}

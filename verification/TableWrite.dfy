/** Table values written in fragments, and what a display that stores them by offset ends up with. */
module TableWrite {

  import opened CArith
  import opened DdcPackets

  /** The write loop's own limit; with the four bytes before them this fills a request. */
  const MAX_WRITE_FRAGMENT := 28

  function WriteData(vcpCode: Byte, offset: int, bytes: seq<Byte>): seq<Byte> {
    [TYPE_TABLE_WRITE_REQUEST, vcpCode, CreatedHighByte(offset), LowByte(offset)] + bytes
  }

  /** The assert that ends the program: the one on the write request, or the one on the
      base request that it is made into. */
  datatype Ended = NotEnded | AtWriteAssert | AtBaseAssert

  /** create_ddc_multi_part_write_request_packet().  Its own assert admits up to 31 bytes, but
      the assert on the base request does not admit more than 28. */
  method CreateMultiPartWriteRequest(vcpCode: Byte, offset: int, bytes: seq<Byte>)
    returns (p: DdcPacket?, ended: Ended)
    ensures p == null <==> |bytes| > MAX_WRITE_FRAGMENT
    ensures ended.NotEnded? <==> |bytes| <= MAX_WRITE_FRAGMENT
    ensures ended.AtBaseAssert? <==> MAX_WRITE_FRAGMENT < |bytes| <= 31
    ensures p != null ==> fresh(p) && fresh(p.raw) && p.Valid() && p.typ == TYPE_TABLE_WRITE_REQUEST
                          && p.Bytes() == RequestBytes(0x51, WriteData(vcpCode, offset, bytes))
  {
    if |bytes| + 4 > MAX_DDC_DATA_SIZE {
      return null, AtWriteAssert;
    }
    var hi := CreatedHighByte(offset);
    var lo := LowByte(offset);
    var data := [TYPE_TABLE_WRITE_REQUEST, vcpCode, hi, lo] + bytes;
    if |data| > MAX_REQUEST_DATA {
      return null, AtBaseAssert;
    }
    p := CreateBaseRequest(0x51, data);
    ended := NotEnded;
  }

  // The write loop

  function FragmentSize(value: seq<Byte>, offset: nat): (n: nat)
    requires offset <= |value|
    ensures offset + n <= |value| && n <= MAX_WRITE_FRAGMENT
    ensures n == 0 <==> offset == |value|
  {
    Min(|value| - offset, MAX_WRITE_FRAGMENT)
  }

  function Fragment(value: seq<Byte>, offset: nat): seq<Byte>
    requires offset <= |value|
  {
    value[offset..offset + FragmentSize(value, offset)]
  }

  function WriteRequest(value: seq<Byte>, vcpCode: Byte, offset: nat): seq<Byte>
    requires offset <= |value|
  {
    RequestBytes(0x51, WriteData(vcpCode, offset, Fragment(value, offset)))
  }

  /** The requests for a value from an offset on, with an empty one to end it. */
  function WriteRequests(value: seq<Byte>, vcpCode: Byte, offset: nat): (rs: seq<seq<Byte>>)
    requires offset <= |value|
    ensures rs != []
    decreases |value| - offset
  {
    var n := FragmentSize(value, offset);
    [WriteRequest(value, vcpCode, offset)] + if n == 0 then [] else WriteRequests(value, vcpCode, offset + n)
  }

  /** A fragment of the write loop's size never ends the program. */
  method MakeRequest(value: seq<Byte>, vcpCode: Byte, offset: nat, count: nat) returns (written: seq<Byte>)
    requires offset <= |value| && count == FragmentSize(value, offset)
    ensures written == WriteRequest(value, vcpCode, offset)
  {
    var request, ended := CreateMultiPartWriteRequest(vcpCode, offset, value[offset..offset + count]);
    assert ended.NotEnded?;
    written := request.raw[..request.len];
  }

  /** try_multi_part_write(), where `status` gives what writing each request comes to: every
      request is written in turn up to the first that fails. */
  method TryMultiPartWrite(value: seq<Byte>, vcpCode: Byte, status: nat -> int) returns (rc: int, sent: seq<seq<Byte>>)
    ensures sent != [] && sent <= WriteRequests(value, vcpCode, 0)
    ensures forall k :: 0 <= k < |sent| - 1 ==> status(k) == 0
    ensures rc == status(|sent| - 1)
    ensures rc == 0 ==> sent == WriteRequests(value, vcpCode, 0)
  {
    hide WriteRequest;
    rc, sent := 0, [];
    var bytesRemaining := |value|;
    var offset := 0;
    ghost var rest := WriteRequests(value, vcpCode, 0);
    while bytesRemaining >= 0 && rc == 0
      invariant 0 <= offset <= |value| && bytesRemaining == |value| - offset
      invariant sent + rest == WriteRequests(value, vcpCode, 0)
      invariant rc == 0 ==> rest == WriteRequests(value, vcpCode, offset)
      invariant rc != 0 ==> sent != [] && rc == status(|sent| - 1)
      invariant forall k :: 0 <= k < |sent| - 1 ==> status(k) == 0
      invariant rc == 0 && sent != [] ==> status(|sent| - 1) == 0
      decreases bytesRemaining, if rc == 0 then 1 else 0
    {
      var count := if bytesRemaining <= MAX_WRITE_FRAGMENT then bytesRemaining else MAX_WRITE_FRAGMENT;
      var written := MakeRequest(value, vcpCode, offset, count);
      rc := status(|sent|);
      NextSent(sent, rest, written);
      sent, rest := sent + [written], rest[1..];
      if rc == 0 {
        if count == 0 {
          break;
        }
        offset := offset + count;
        bytesRemaining := bytesRemaining - count;
      }
    }
  }

  lemma NextSent<T>(sent: seq<T>, rest: seq<T>, next: T)
    requires rest != [] && rest[0] == next
    ensures sent + rest == (sent + [next]) + rest[1..]
  {
  }

  // A display that stores what it is sent at the offset it is sent for

  type Memory = map<nat, Byte>

  /** The bytes put at a place in memory. */
  function Put(m: Memory, at: nat, bytes: seq<Byte>): Memory {
    if bytes == [] then m
    else
      var n := |bytes| - 1;
      Put(m, at, bytes[..n])[at + n := bytes[n]]
  }

  lemma {:induction false} PutHolds(m: Memory, at: nat, bytes: seq<Byte>, i: nat)
    ensures i in Put(m, at, bytes) <==> at <= i < at + |bytes| || i in m
    decreases |bytes|
  {
    if bytes != [] {
      PutHolds(m, at, bytes[..|bytes| - 1], i);
    }
  }

  lemma {:induction false} PutAppend(m: Memory, at: nat, a: seq<Byte>, b: seq<Byte>)
    ensures Put(Put(m, at, a), at + |a|, b) == Put(m, at, a + b)
    decreases |b|
  {
    if b == [] {
      assert a + b == a;
    } else {
      PutAppend(m, at, a, b[..|b| - 1]);
      assert (a + b)[..|a + b| - 1] == a + b[..|b| - 1];
    }
  }

  predicate IsWriteRequest(r: seq<Byte>) {
    IsRequest(r) && |r| >= 8
  }

  /** A display takes the offset from a request by the rule that fragments are read with. */
  function Store(m: Memory, r: seq<Byte>): Memory
    requires IsWriteRequest(r)
  {
    Put(m, Word(r[5], r[6]), r[7..|r| - 1])
  }

  function StoreAll(m: Memory, rs: seq<seq<Byte>>): Memory
    requires forall k :: 0 <= k < |rs| ==> IsWriteRequest(rs[k])
    decreases |rs|
  {
    if rs == [] then m else StoreAll(Store(m, rs[0]), rs[1..])
  }

  /** The offset that a created write request carries. */
  function CarriedOffset(offset: nat): (c: nat)
    ensures c <= offset
    ensures c == offset <==> offset < 0x100
  {
    CarriedIsSmaller(offset);
    0x100 * (offset / 0x1_0000 % 0x100) + offset % 0x100
  }

  lemma CarriedIsSmaller(offset: nat)
    ensures var c := 0x100 * (offset / 0x1_0000 % 0x100) + offset % 0x100;
            c <= offset && (c == offset <==> offset < 0x100)
  {
    var q := offset / 0x100;
    assert offset / 0x1_0000 == q / 0x100;
    assert q / 0x100 % 0x100 <= q / 0x100;
    assert q > 0 ==> q / 0x100 < q;
  }

  lemma CarriedIsCarried(offset: nat)
    ensures Word(CreatedHighByte(offset), LowByte(offset)) == CarriedOffset(offset)
  {
    hide Word;
    WordOfPair(offset / 0x1_0000 % 0x100, offset % 0x100);
  }

  lemma RequestLayout(vcpCode: Byte, offset: nat, bytes: seq<Byte>)
    requires |bytes| + 4 <= MAX_REQUEST_DATA
    ensures var r := RequestBytes(0x51, WriteData(vcpCode, offset, bytes));
            && IsWriteRequest(r) && r[5] == CreatedHighByte(offset) && r[6] == LowByte(offset)
            && r[7..|r| - 1] == bytes
  {
    hide RequestBytes, IsRequest, CreatedHighByte, LowByte;
    var data := WriteData(vcpCode, offset, bytes);
    var r := RequestBytes(0x51, data);
    RequestIsWellFormed(0x51, data);
    RequestHolds(r, data);
  }

  lemma RequestHolds(r: seq<Byte>, data: seq<Byte>)
    requires |r| >= 8 && Payload(r) == data
    ensures r[5] == data[2] && r[6] == data[3] && r[7..|r| - 1] == data[4..]
  {
    assert data == r[3..|r| - 1];
  }

  lemma StoresFragment(m: Memory, value: seq<Byte>, vcpCode: Byte, offset: nat)
    requires offset <= |value|
    ensures IsWriteRequest(WriteRequest(value, vcpCode, offset))
    ensures Store(m, WriteRequest(value, vcpCode, offset)) == Put(m, CarriedOffset(offset), Fragment(value, offset))
  {
    hide RequestBytes, IsRequest, CreatedHighByte, LowByte, Word, CarriedOffset, Put;
    RequestLayout(vcpCode, offset, Fragment(value, offset));
    CarriedIsCarried(offset);
  }

  /** A fragment of 28 bytes follows the other until less is left, and then an empty one. */
  lemma {:induction false} RequestIsFor(value: seq<Byte>, vcpCode: Byte, offset: nat, k: nat)
    requires offset <= |value| && k < |WriteRequests(value, vcpCode, offset)|
    ensures var o := if offset + 28 * k <= |value| then offset + 28 * k else |value|;
            WriteRequests(value, vcpCode, offset)[k] == WriteRequest(value, vcpCode, o)
    ensures |WriteRequests(value, vcpCode, offset)| == (|value| - offset + 27) / 28 + 1
    decreases |value| - offset
  {
    hide WriteRequest;
    var n := FragmentSize(value, offset);
    if n > 0 {
      RequestIsFor(value, vcpCode, offset + n, if k > 0 then k - 1 else 0);
    }
  }

  /** What every request of a write says, byte for byte: that it writes a table, the feature,
      the offset with the wrong high byte, and up to 28 bytes of the value from the offset on. */
  lemma RequestsName(value: seq<Byte>, vcpCode: Byte, k: nat)
    requires k < |WriteRequests(value, vcpCode, 0)|
    ensures |WriteRequests(value, vcpCode, 0)| == (|value| + 27) / 28 + 1
    ensures var r := WriteRequests(value, vcpCode, 0)[k];
            var o := if 28 * k <= |value| then 28 * k else |value|;
            && IsWriteRequest(r) && r[0] == 0x6e && r[1] == 0x51 && r[3] == 0xe7 && r[4] == vcpCode
            && 256 * (r[5] as int) + r[6] as int == 256 * (o / 65536 % 256) + o % 256
            && r[7..|r| - 1] == if o + 28 <= |value| then value[o..o + 28] else value[o..]
  {
    hide WriteRequest, WriteRequests, IsWriteRequest;
    RequestIsFor(value, vcpCode, 0, k);
    RequestNames(value, vcpCode, if 28 * k <= |value| then 28 * k else |value|);
  }

  lemma RequestNames(value: seq<Byte>, vcpCode: Byte, offset: nat)
    requires offset <= |value|
    ensures var r := WriteRequest(value, vcpCode, offset);
            && IsWriteRequest(r) && r[0] == 0x6e && r[1] == 0x51 && r[3] == 0xe7 && r[4] == vcpCode
            && 256 * (r[5] as int) + r[6] as int == 256 * (offset / 65536 % 256) + offset % 256
            && r[7..|r| - 1] == Fragment(value, offset)
  {
    hide Word, CreatedHighByte, LowByte;
    var data := WriteData(vcpCode, offset, Fragment(value, offset));
    RequestIsWellFormed(0x51, data);
    RequestLayout(vcpCode, offset, Fragment(value, offset));
    CarriedIsCarried(offset);
    WordValue(CreatedHighByte(offset), LowByte(offset));
    assert Payload(WriteRequest(value, vcpCode, offset))[..2] == data[..2];
  }

  /** What the display holds once the fragments from an offset on have arrived. */
  function Received(m: Memory, value: seq<Byte>, offset: nat): Memory
    requires offset <= |value|
    decreases |value| - offset
  {
    var n := FragmentSize(value, offset);
    var m' := Put(m, CarriedOffset(offset), Fragment(value, offset));
    if n == 0 then m' else Received(m', value, offset + n)
  }

  lemma {:induction false} ReceivedIsStored(m: Memory, value: seq<Byte>, vcpCode: Byte, offset: nat)
    requires offset <= |value|
    ensures var rs := WriteRequests(value, vcpCode, offset);
            && (forall k :: 0 <= k < |rs| ==> IsWriteRequest(rs[k]))
            && StoreAll(m, rs) == Received(m, value, offset)
    decreases |value| - offset
  {
    hide WriteRequest, IsWriteRequest, Store, Fragment, CarriedOffset;
    var n := FragmentSize(value, offset);
    var rs := WriteRequests(value, vcpCode, offset);
    StoresFragment(m, value, vcpCode, offset);
    if n > 0 {
      ReceivedIsStored(Store(m, rs[0]), value, vcpCode, offset + n);
      assert rs[1..] == WriteRequests(value, vcpCode, offset + n);
    } else {
      assert rs[1..] == [];
    }
  }

  /** Fragments begin at multiples of 28, until the value ends. */
  predicate OnGrid(value: seq<Byte>, offset: nat) {
    offset <= |value| && (offset % MAX_WRITE_FRAGMENT == 0 || offset == |value|)
  }

  /** The most that can be written before an offset no longer fits its low byte. */
  const LONGEST := 280

  lemma {:induction false} ShortValueArrives(value: seq<Byte>, offset: nat)
    requires |value| <= LONGEST && OnGrid(value, offset)
    ensures Received(Put(map[], 0, value[..offset]), value, offset) == Put(map[], 0, value)
    decreases |value| - offset
  {
    var n := FragmentSize(value, offset);
    if n == 0 {
      assert value[..offset] == value;
    } else {
      assert CarriedOffset(offset) == offset;
      PutAppend(map[], 0, value[..offset], Fragment(value, offset));
      assert value[..offset] + Fragment(value, offset) == value[..offset + n];
      ShortValueArrives(value, offset + n);
    }
  }

  lemma FragmentEndsEarly(value: seq<Byte>, offset: nat)
    requires |value| > LONGEST && OnGrid(value, offset) && offset < |value|
    ensures CarriedOffset(offset) + FragmentSize(value, offset) < |value|
  {
    assert CarriedOffset(offset) == offset ==> offset <= 252;
  }

  lemma {:induction false} LastByteIsLost(m: Memory, value: seq<Byte>, offset: nat)
    requires |value| > LONGEST && OnGrid(value, offset) && |value| - 1 !in m
    ensures |value| - 1 !in Received(m, value, offset)
    decreases |value| - offset
  {
    hide CarriedOffset;
    var n := FragmentSize(value, offset);
    PutHolds(m, CarriedOffset(offset), Fragment(value, offset), |value| - 1);
    if n > 0 {
      FragmentEndsEarly(value, offset);
      LastByteIsLost(Put(m, CarriedOffset(offset), Fragment(value, offset)), value, offset + n);
    }
  }

  /** A table value arrives whole if and only if it is at most 280 bytes long: creation
      writes bits 16 to 23 of an offset where its bits 8 to 15 belong. */
  lemma ValueArrivesIff(value: seq<Byte>, vcpCode: Byte)
    ensures var rs := WriteRequests(value, vcpCode, 0);
            && (forall k :: 0 <= k < |rs| ==> IsWriteRequest(rs[k]))
            && (StoreAll(map[], rs) == Put(map[], 0, value) <==> |value| <= LONGEST)
  {
    ReceivedIsStored(map[], value, vcpCode, 0);
    if |value| <= LONGEST {
      assert value[..0] == [];
      ShortValueArrives(value, 0);
    } else {
      LastByteIsLost(map[], value, 0);
      PutHolds(map[], 0, value, |value| - 1);
    }
  }
}

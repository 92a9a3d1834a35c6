/** Capabilities strings and table values that take more than one packet. */
module MultiPart {

  import opened DdcPackets
  import opened DdcResponses

  const ACCUMULATOR_SIZE := 2048
  /** What buffer_append() keeps free. */
  const SPARE := 2

  // Reading

  /** What comes of writing a request and reading its reply, tries included. */
  datatype Exchange = NoReply(rc: int) | Reply(buf: seq<Byte>)

  /** The n-th exchange of a read, by the request that was written. */
  type Link = (nat, seq<Byte>) -> Exchange

  ghost predicate ReadableLink(link: Link) {
    forall n: nat, req: seq<Byte> :: link(n, req).Reply? ==> Readable(Strip(link(n, req).buf))
  }

  datatype Failure = NotExchanged(rc: int) | Rejected(status: Status) | WrongOffset

  datatype Outcome = Complete(bytes: seq<Byte>) | Failed(why: Failure) | Aborted

  function ResponseType(t: Byte): Byte {
    if t == TYPE_CAPABILITIES_REQUEST then TYPE_CAPABILITIES_RESPONSE else TYPE_TABLE_READ_RESPONSE
  }

  /** The request for what lies at an offset. */
  function RequestFor(t: Byte, subtype: Byte, offset: int): (r: seq<Byte>)
    requires IsMultiPartType(t)
    ensures IsMultiPartRequest(r) && r[3] == t && RequestedOffset(r) == offset % 0x1_0000
  {
    UpdatedRequest(t, subtype, 0, offset);
    var created := RequestBytes(0x51, MultiPartData(t, subtype, 0));
    UpdateOffsetIsFaithful(created, offset);
    WithOffset(created, offset)
  }

  /** How the parser reads a reply. */
  datatype Reading = Refused(status: Status) | Part(offset: int, bytes: seq<Byte>)

  function ReadingOf(buf: seq<Byte>, t: Byte, subtype: Byte): Reading
    requires Readable(Strip(buf))
  {
    var status := TypedStatus(Strip(buf), ResponseType(t), subtype);
    if status != Ok then Refused(status)
    else
      var fragment := FragmentOf(ResponseType(t), DataOf(Strip(buf)));
      Part(fragment.offset, fragment.bytes)
  }

  datatype Fetch = Got(bytes: seq<Byte>) | Lost(why: Failure)

  /** A fragment is only taken for the offset that was asked for. */
  function Accept(reading: Reading, offset: nat): Fetch {
    if reading.Refused? then Lost(Rejected(reading.status))
    else if reading.offset != offset then Lost(WrongOffset)
    else Got(reading.bytes)
  }

  /** The fragment that exchange n brings for an offset. */
  ghost function FetchAt(link: Link, t: Byte, subtype: Byte, n: nat, offset: nat): Fetch
    requires IsMultiPartType(t) && ReadableLink(link)
  {
    var e := link(n, RequestFor(t, subtype, offset));
    if e.NoReply? then Lost(NotExchanged(e.rc)) else Accept(ReadingOf(e.buf, t, subtype), offset)
  }

  ghost function Fetching(link: Link, t: Byte, subtype: Byte): (nat, nat) -> Fetch
    requires IsMultiPartType(t) && ReadableLink(link)
  {
    (n: nat, offset: nat) => FetchAt(link, t, subtype, n, offset)
  }

  lemma FetchingAt(link: Link, t: Byte, subtype: Byte, n: nat, offset: nat)
    requires IsMultiPartType(t) && ReadableLink(link)
    ensures Fetching(link, t, subtype)(n, offset) == FetchAt(link, t, subtype, n, offset)
  {
  }

  /** What a read that has `got` some bytes by exchange n ends with, whatever the display does:
      each fragment makes it longer, and it is never longer than the accumulator. */
  ghost function ReadOn(fetch: (nat, nat) -> Fetch, n: nat, got: seq<Byte>): (r: Outcome)
    requires |got| + SPARE <= ACCUMULATOR_SIZE
    ensures r.Complete? ==> got <= r.bytes && |r.bytes| + SPARE <= ACCUMULATOR_SIZE
    decreases ACCUMULATOR_SIZE - |got|
  {
    match fetch(n, |got|)
    case Lost(why) => Failed(why)
    case Got(bytes) =>
      if bytes == [] then Complete(got)
      else if |got| + SPARE + |bytes| > ACCUMULATOR_SIZE then Aborted
      else ReadOn(fetch, n + 1, got + bytes)
  }

  /** try_multi_part_read(): what was in the accumulator before does not matter. */
  method TryMultiPartRead(link: Link, t: Byte, subtype: Byte, accumulator: array<Byte>)
    returns (outcome: Outcome, len: nat)
    requires IsMultiPartType(t) && ReadableLink(link) && accumulator.Length == ACCUMULATOR_SIZE
    modifies accumulator
    ensures outcome == ReadOn(Fetching(link, t, subtype), 0, [])
    ensures outcome.Complete? ==> len <= accumulator.Length && accumulator[..len] == outcome.bytes
  {
    hide FetchAt, Fetching, IsRequestFor;
    var request := StartRequest(t, subtype);
    ghost var fetch := Fetching(link, t, subtype);
    len := 0;
    var n := 0;
    while true
      invariant len + SPARE <= ACCUMULATOR_SIZE
      invariant request.Valid() && fresh(request) && fresh(request.raw)
      invariant IsRequestFor(request, t, subtype)
      invariant ReadOn(fetch, n, accumulator[..len]) == ReadOn(fetch, 0, [])
      decreases ACCUMULATOR_SIZE - len
    {
      var fetched := FetchFragment(link, request, t, subtype, n, len);
      FetchingAt(link, t, subtype, n, len);
      match fetched {
        case Lost(why) =>
          outcome := Failed(why);
          return;
        case Got(bytes) =>
          if |bytes| == 0 {
            outcome := Complete(accumulator[..len]);
            return;
          }
          if len + SPARE + |bytes| > ACCUMULATOR_SIZE {
            outcome := Aborted;
            return;
          }
          AppendTo(accumulator, len, bytes);
          len := len + |bytes|;
          n := n + 1;
      }
    }
  }

  /** The request is the created one, at whatever offset. */
  ghost predicate IsRequestFor(request: DdcPacket, t: Byte, subtype: Byte)
    requires IsMultiPartType(t) && request.Valid()
    reads request, request.raw
  {
    var created := RequestBytes(0x51, MultiPartData(t, subtype, 0));
    && request.typ == t
    && IsMultiPartRequest(created)
    && (request.Bytes() == created || exists o: int :: request.Bytes() == WithOffset(created, o))
  }

  method StartRequest(t: Byte, subtype: Byte) returns (request: DdcPacket)
    requires IsMultiPartType(t)
    ensures fresh(request) && fresh(request.raw) && request.Valid() && IsRequestFor(request, t, subtype)
  {
    request := CreateMultiPartReadRequest(t, subtype, 0);
    UpdatedRequest(t, subtype, 0, 0);
  }

  method FetchFragment(link: Link, request: DdcPacket, t: Byte, subtype: Byte, n: nat, offset: nat) returns (r: Fetch)
    requires IsMultiPartType(t) && ReadableLink(link) && request.Valid() && IsRequestFor(request, t, subtype)
    modifies request.raw
    ensures request.Valid() && IsRequestFor(request, t, subtype)
    ensures r == FetchAt(link, t, subtype, n, offset)
  {
    hide ReadingOf;
    SetOffset(request, t, subtype, offset);
    var e := link(n, request.raw[..request.len]);
    if e.NoReply? {
      return Lost(NotExchanged(e.rc));
    }
    var reading := ReadFragment(e.buf, t, subtype);
    r := Accept(reading, offset);
  }

  method SetOffset(request: DdcPacket, t: Byte, subtype: Byte, offset: nat)
    requires IsMultiPartType(t) && request.Valid() && IsRequestFor(request, t, subtype)
    modifies request.raw
    ensures request.Valid() && IsRequestFor(request, t, subtype)
    ensures request.Bytes() == RequestFor(t, subtype, offset)
  {
    ghost var created := RequestBytes(0x51, MultiPartData(t, subtype, 0));
    UpdatedRequest(t, subtype, 0, offset);
    if request.Bytes() != created {
      ghost var o: int :| request.Bytes() == WithOffset(created, o);
      UpdateOffsetIsFaithful(created, o);
      UpdateOffsetOverwrites(created, o, offset);
    }
    UpdateOffset(request, offset);
  }

  method ReadFragment(buf: seq<Byte>, t: Byte, subtype: Byte) returns (reading: Reading)
    requires IsMultiPartType(t) && Readable(Strip(buf))
    ensures reading == ReadingOf(buf, t, subtype)
  {
    var response := new Byte[|buf|](i requires 0 <= i < |buf| => buf[i]);
    assert response[..] == buf;
    var status, packet := CreateTypedResponse(response, ResponseType(t), subtype);
    if packet == null {
      reading := Refused(status);
    } else {
      var fragment := packet.parsed.fragment;
      reading := Part(fragment.offset, fragment.bytes);
    }
  }

  method AppendTo(a: array<Byte>, len: nat, bytes: seq<Byte>)
    requires len + |bytes| <= a.Length
    modifies a
    ensures a[..len + |bytes|] == old(a[..len]) + bytes
  {
    forall k | 0 <= k < |bytes| {
      a[len + k] := bytes[k];
    }
  }

  // Reading from any display

  /** The request for a fragment says, byte for byte, what is read and from which offset on. */
  lemma RequestAsks(t: Byte, subtype: Byte, offset: nat)
    requires IsMultiPartType(t)
    ensures var r := RequestFor(t, subtype, offset);
            var at := if t == 0xf3 then 4 else 5;
            && |r| == at + 3 && r[0] == 0x6e && r[1] == 0x51 && r[2] == (if t == 0xf3 then 0x83 else 0x84)
            && r[3] == t && t in {0xf3, 0xe2} && (t == 0xe2 ==> r[4] == subtype)
            && 256 * (r[at] as int) + r[at + 1] as int == offset % 0x1_0000
            && Xor(r) == 0
  {
    RequestNames(t, subtype, 0, offset);
  }

  /** What one exchange brings, from the bytes of the reply.  A fragment is taken if and only if
      the parser accepts the reply and the offset in it is the one asked for. */
  lemma FetchBrings(link: Link, t: Byte, subtype: Byte, n: nat, offset: nat)
    requires IsMultiPartType(t) && ReadableLink(link)
    ensures var e := link(n, RequestFor(t, subtype, offset));
            var expected: Byte := if t == 0xf3 then 0xe3 else 0xe4;
            var fetched := FetchAt(link, t, subtype, n, offset);
            match e
            case NoReply(rc) => fetched == Lost(NotExchanged(rc))
            case Reply(buf) =>
              var status := TypedStatus(Strip(buf), expected, subtype);
              if status != Ok then fetched == Lost(Rejected(status))
              else
                var at, count := FrameAt(buf), DataCt(Strip(buf));
                && 3 <= count <= 35 && |buf| >= at + count + 3
                && fetched == if 256 * (buf[at + 3] as int) + buf[at + 4] as int == offset
                              then Got(buf[at + 5..at + count + 2]) else Lost(WrongOffset)
  {
    hide Readable, TypedStatus, Strip, DataCt, FrameAt, RequestFor, DataOf, FragmentOf, FragmentStatus, ParsedOf,
         IsMultiPartRequest;
    var e := link(n, RequestFor(t, subtype, offset));
    if e.Reply? && TypedStatus(Strip(e.buf), ResponseType(t), subtype) == Ok {
      AcceptedFragmentReads(e.buf, ResponseType(t), subtype);
      FragmentIsParsed(Strip(e.buf), ResponseType(t), subtype);
    }
  }

  lemma FragmentIsParsed(buf: seq<Byte>, expected: Byte, subtype: Byte)
    requires expected in {0xe3, 0xe4} && Readable(buf) && TypedStatus(buf, expected, subtype) == Ok
    ensures FragmentStatus(DataOf(buf)) == Ok
    ensures ParsedOf(expected, DataOf(buf)) == ParsedFragment(FragmentOf(expected, DataOf(buf)))
  {
  }

  function Flatten(parts: seq<seq<Byte>>): seq<Byte> {
    if parts == [] then [] else Flatten(parts[..|parts| - 1]) + parts[|parts| - 1]
  }

  /** Each exchange brought a part, asked for where the parts before it end. */
  ghost predicate Brought(fetch: (nat, nat) -> Fetch, parts: seq<seq<Byte>>) {
    parts == []
    || (var n := |parts| - 1;
        && Brought(fetch, parts[..n]) && parts[n] != []
        && fetch(n, |Flatten(parts[..n])|) == Got(parts[n]) && |Flatten(parts)| <= 2046)
  }

  /** Whatever a display does, a read is a run of parts, each taken for the offset that it was
      asked for, and ends with the first exchange that brings none: completely if it brings an
      empty part, at the assert if it brings one too many, and else with what went wrong. */
  ghost predicate EndsAfter(fetch: (nat, nat) -> Fetch, parts: seq<seq<Byte>>, r: Outcome) {
    var got := Flatten(parts);
    && Brought(fetch, parts)
    && match fetch(|parts|, |got|)
       case Lost(why) => r == Failed(why)
       case Got(bytes) =>
         if bytes == [] then r == Complete(got) else r == Aborted && |got| + |bytes| > 2046
  }

  lemma {:induction false} ReadOnEnds(fetch: (nat, nat) -> Fetch, before: seq<seq<Byte>>)
      returns (parts: seq<seq<Byte>>)
    requires Brought(fetch, before) && |Flatten(before)| <= 2046
    ensures EndsAfter(fetch, parts, ReadOn(fetch, |before|, Flatten(before)))
    decreases 2046 - |Flatten(before)|
  {
    var got := Flatten(before);
    parts := before;
    var f := fetch(|before|, |got|);
    if f.Got? && f.bytes != [] && |got| + |f.bytes| <= 2046 {
      var more := before + [f.bytes];
      assert more[..|before|] == before;
      parts := ReadOnEnds(fetch, more);
    }
  }

  lemma ReadIsARun(fetch: (nat, nat) -> Fetch) returns (parts: seq<seq<Byte>>)
    ensures EndsAfter(fetch, parts, ReadOn(fetch, 0, []))
  {
    parts := ReadOnEnds(fetch, []);
  }

  // Reading from a display that answers what it is asked

  /** A fragment of the content, empty only at its end. */
  predicate IsPart(f: Fetch, content: seq<Byte>, offset: nat)
    requires offset <= |content|
  {
    && f.Got? && offset + |f.bytes| <= |content|
    && f.bytes == content[offset..offset + |f.bytes|]
    && (f.bytes == [] ==> offset == |content|)
  }

  ghost predicate Serves(fetch: (nat, nat) -> Fetch, content: seq<Byte>) {
    forall n: nat, offset: nat :: offset <= |content| && offset + SPARE <= ACCUMULATOR_SIZE ==>
      IsPart(fetch(n, offset), content, offset)
  }

  lemma {:induction false} PartsAddUp(fetch: (nat, nat) -> Fetch, content: seq<Byte>, n: nat, k: nat)
    requires Serves(fetch, content) && k <= |content| && k + SPARE <= ACCUMULATOR_SIZE
    ensures ReadOn(fetch, n, content[..k])
         == if |content| + SPARE <= ACCUMULATOR_SIZE then Complete(content) else Aborted
    decreases |content| - k
  {
    var f := fetch(n, k);
    assert IsPart(f, content, k);
    if f.bytes == [] {
      assert content[..k] == content;
    } else if k + |f.bytes| + SPARE <= ACCUMULATOR_SIZE {
      assert content[..k] + f.bytes == content[..k + |f.bytes|];
      PartsAddUp(fetch, content, n + 1, k + |f.bytes|);
    }
  }

  /** What a display sends for a multi part read request: as much of its content from the
      requested offset on as it likes, but at least a byte unless it is at the end. */
  function PartPayload(t: Byte, req: seq<Byte>, bytes: seq<Byte>): (payload: seq<Byte>)
    requires IsMultiPartRequest(req)
    ensures |payload| == 3 + |bytes|
  {
    [ResponseType(t), req[OffsetAt(req[3])], req[OffsetAt(req[3]) + 1]] + bytes
  }

  ghost predicate IsHonestReply(e: Exchange, content: seq<Byte>, t: Byte, req: seq<Byte>)
    requires IsMultiPartRequest(req)
  {
    exists bytes: seq<Byte>, rest: seq<Byte>, doubled: bool ::
      && RequestedOffset(req) <= |content|
      && IsPart(Got(bytes), content, RequestedOffset(req))
      && |bytes| <= MAX_FRAGMENT
      && e == Reply(Framed(PartPayload(t, req, bytes), rest, doubled))
  }

  /** A framed payload as it is read: perhaps behind a doubled byte, with anything after it. */
  function Framed(payload: seq<Byte>, rest: seq<Byte>, doubled: bool): seq<Byte>
    requires |payload| <= MAX_DDC_DATA_SIZE
  {
    (if doubled then [0x6e as Byte] else []) + ResponseBytes((|payload| as Byte) | 0x80, payload) + rest
  }

  ghost predicate HonestLink(link: Link, content: seq<Byte>, t: Byte) {
    forall n: nat, req: seq<Byte> ::
      IsMultiPartRequest(req) && req[3] == t && RequestedOffset(req) <= |content| ==>
        IsHonestReply(link(n, req), content, t, req)
  }

  lemma FramedIsRead(payload: seq<Byte>, rest: seq<Byte>, doubled: bool, t: Byte, subtype: Byte)
    requires 3 <= |payload| <= MAX_DDC_DATA_SIZE && payload[0] == ResponseType(t)
    ensures var buf := Framed(payload, rest, doubled);
            Readable(Strip(buf)) && ReadingOf(buf, t, subtype) == Part(Word(payload[1], payload[2]), payload[3..])
  {
    ParsingUndoesFraming(payload, rest, doubled);
    PayloadOfPacket(Strip(Framed(payload, rest, doubled)));
  }

  lemma PartIsRead(t: Byte, subtype: Byte, req: seq<Byte>, bytes: seq<Byte>, rest: seq<Byte>, doubled: bool)
    requires IsMultiPartRequest(req) && |bytes| <= MAX_FRAGMENT
    ensures var buf := Framed(PartPayload(t, req, bytes), rest, doubled);
            Readable(Strip(buf)) && ReadingOf(buf, t, subtype) == Part(RequestedOffset(req), bytes)
  {
    var payload := PartPayload(t, req, bytes);
    FramedIsRead(payload, rest, doubled, t, subtype);
    assert payload[3..] == bytes;
  }

  lemma HonestReplyIsRead(e: Exchange, content: seq<Byte>, t: Byte, subtype: Byte, req: seq<Byte>)
    requires IsMultiPartRequest(req) && IsHonestReply(e, content, t, req)
    ensures e.Reply? && Readable(Strip(e.buf))
    ensures var reading := ReadingOf(e.buf, t, subtype);
            reading.Part? && reading.offset == RequestedOffset(req) <= |content|
            && IsPart(Got(reading.bytes), content, RequestedOffset(req))
  {
    hide ReadingOf, Framed, Strip, Readable, PartPayload, RequestedOffset;
    var bytes: seq<Byte>, rest: seq<Byte>, doubled: bool :|
      && IsPart(Got(bytes), content, RequestedOffset(req))
      && |bytes| <= MAX_FRAGMENT
      && e == Reply(Framed(PartPayload(t, req, bytes), rest, doubled));
    PartIsRead(t, subtype, req, bytes, rest, doubled);
  }

  lemma HonestFetch(link: Link, content: seq<Byte>, t: Byte, subtype: Byte, n: nat, offset: nat)
    requires IsMultiPartType(t) && ReadableLink(link) && HonestLink(link, content, t)
    requires offset <= |content| && offset < 0x1_0000
    ensures IsPart(FetchAt(link, t, subtype, n, offset), content, offset)
  {
    hide ReadingOf, IsHonestReply, Readable, RequestFor, RequestedOffset, IsRequest, IsPart;
    var req := RequestFor(t, subtype, offset);
    assert IsHonestReply(link(n, req), content, t, req);
    HonestReplyIsRead(link(n, req), content, t, subtype, req);
  }

  /** A read from a display that answers honestly, in fragments of whatever sizes, brings its
      whole content if and only if that fits the accumulator; otherwise the program ends. */
  lemma ReadDeliversIff(link: Link, content: seq<Byte>, t: Byte, subtype: Byte)
    requires IsMultiPartType(t) && ReadableLink(link) && HonestLink(link, content, t)
    ensures ReadOn(Fetching(link, t, subtype), 0, [])
         == if |content| + SPARE <= ACCUMULATOR_SIZE then Complete(content) else Aborted
  {
    var fetch := Fetching(link, t, subtype);
    forall n: nat, offset: nat | offset <= |content| && offset + SPARE <= ACCUMULATOR_SIZE
      ensures IsPart(fetch(n, offset), content, offset)
    {
      HonestFetch(link, content, t, subtype, n, offset);
    }
    PartsAddUp(fetch, content, 0, 0);
  }

  /** A display that answers honestly, in fragments as large as they may be. */
  function FullFragments(content: seq<Byte>, t: Byte): Link {
    (n: nat, req: seq<Byte>) =>
      if IsMultiPartRequest(req) && RequestedOffset(req) <= |content|
      then Reply(Framed(PartPayload(t, req, FullFragment(content, RequestedOffset(req))), [], false))
      else NoReply(-1)
  }

  function FullFragment(content: seq<Byte>, offset: nat): (bytes: seq<Byte>)
    requires offset <= |content|
    ensures |bytes| <= MAX_FRAGMENT
  {
    if offset + MAX_FRAGMENT <= |content| then content[offset..offset + MAX_FRAGMENT] else content[offset..]
  }

  lemma FullFragmentIsPart(content: seq<Byte>, offset: nat)
    requires offset <= |content|
    ensures IsPart(Got(FullFragment(content, offset)), content, offset)
  {
  }

  lemma FullFragmentsReply(content: seq<Byte>, t: Byte, n: nat, req: seq<Byte>)
    requires IsMultiPartRequest(req) && RequestedOffset(req) <= |content|
    ensures var e := FullFragments(content, t)(n, req);
            e.Reply? && Readable(Strip(e.buf)) && IsHonestReply(e, content, t, req)
  {
    hide Framed, Strip, Readable, PartPayload, RequestedOffset, IsPart, FullFragment, ReadingOf;
    var bytes := FullFragment(content, RequestedOffset(req));
    FullFragmentIsPart(content, RequestedOffset(req));
    PartIsRead(t, 0, req, bytes, [], false);
    assert IsHonestReply(Reply(Framed(PartPayload(t, req, bytes), [], false)), content, t, req);
  }

  /** There is such a display for every content, so a read of more than 2046 bytes does end
      the program. */
  lemma FullFragmentsAreHonest(content: seq<Byte>, t: Byte, subtype: Byte)
    requires IsMultiPartType(t)
    ensures var link := FullFragments(content, t);
            && ReadableLink(link) && HonestLink(link, content, t)
            && (|content| + SPARE > ACCUMULATOR_SIZE ==> ReadOn(Fetching(link, t, subtype), 0, []) == Aborted)
  {
    var link := FullFragments(content, t);
    forall n: nat, req: seq<Byte> | link(n, req).Reply?
      ensures Readable(Strip(link(n, req).buf))
    {
      FullFragmentsReply(content, t, n, req);
    }
    forall n: nat, req: seq<Byte> | IsMultiPartRequest(req) && req[3] == t && RequestedOffset(req) <= |content|
      ensures IsHonestReply(link(n, req), content, t, req)
    {
      FullFragmentsReply(content, t, n, req);
    }
    ReadDeliversIff(link, content, t, subtype);
  }
}

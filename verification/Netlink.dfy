/** The generic-netlink codec and the walk over reply datagrams. Native-endian fields are little-endian. */
module Netlink {
  import opened Wrappers
  import opened Ints

  const NLMSG_HDRLEN := 16
  const GENL_HDRLEN := 4
  const NLA_HDRLEN := 4
  const NLMSG_ERROR: u16 := 2
  const NLMSG_DONE: u16 := 3
  /** The error code and the header of the message it answers. */
  const NLMSGERR_LEN := 20
  const MAX_PAYLOAD := 65531

  datatype Attr = Attr(ty: u16, payload: Bytes)

  datatype Header = Header(len: u32, ty: u16, flags: u16, seqno: u32, pid: u32)

  /** Rounding up to the 4-byte alignment of messages and attributes. */
  function Align(n: nat): (r: nat)
    ensures r % 4 == 0 && n <= r < n + 4
  {
    var m := n + 3;
    m - m % 4
  }

  function Zeros(n: nat): (z: Bytes)
    ensures |z| == n
  {
    seq(n, _ => 0)
  }

  // ---- Attributes ----

  /** The encoding of one attribute; its 16-bit length field is truncated by the cast. */
  function EncodeAttr(a: Attr): (s: Bytes)
    ensures |s| == Align(NLA_HDRLEN + |a.payload|)
  {
    var len := NLA_HDRLEN + |a.payload|;
    Le16(len % 0x1_0000) + Le16(a.ty) + a.payload + Zeros(Align(len) - len)
  }

  function EncodeAttrs(attrs: seq<Attr>): Bytes {
    if attrs == [] then [] else EncodeAttr(attrs[0]) + EncodeAttrs(attrs[1..])
  }

  method PushNlattr(buf: Bytes, ty: u16, payload: Bytes) returns (grown: Bytes)
    ensures grown == buf + EncodeAttr(Attr(ty, payload))
  {
    var start := |buf|;
    grown := buf + Le16((NLA_HDRLEN + |payload|) % 0x1_0000) + Le16(ty);
    grown := grown + payload;
    var pad := Align(|grown| - start) - (|grown| - start);
    if pad > 0 {
      grown := grown + Zeros(pad);
    }
  }

  function ParseAttrs(data: Bytes): seq<Attr> {
    if |data| < NLA_HDRLEN then []
    else
      var len := U16At(data, 0);
      if len < NLA_HDRLEN || len > |data| then []
      else
        [Attr(U16At(data, 2), data[NLA_HDRLEN..len])]
        + if Align(len) > |data| then [] else ParseAttrs(data[Align(len)..])
  }

  /** The attribute at the head of well-formed data, and what is parsed behind it. */
  lemma ParseUnfolds(data: Bytes)
    requires |data| >= NLA_HDRLEN && NLA_HDRLEN <= U16At(data, 0) <= |data|
    ensures var len := U16At(data, 0);
            && (Align(len) > |data| ==> ParseAttrs(data) == [Attr(U16At(data, 2), data[NLA_HDRLEN..len])])
            && (Align(len) <= |data| ==>
                  ParseAttrs(data) == [Attr(U16At(data, 2), data[NLA_HDRLEN..len])] + ParseAttrs(data[Align(len)..]))
  {
  }

  lemma ParseStops(data: Bytes)
    requires |data| < NLA_HDRLEN || U16At(data, 0) < NLA_HDRLEN || U16At(data, 0) > |data|
    ensures ParseAttrs(data) == []
  {
  }

  method ParseAttrsLoop(data: Bytes) returns (out: seq<Attr>)
    ensures out == ParseAttrs(data)
  {
    hide ParseAttrs, U16At, Align;
    out := [];
    var rest := data;
    while |rest| >= NLA_HDRLEN
      invariant out + ParseAttrs(rest) == ParseAttrs(data)
      decreases |rest|
    {
      var len := U16At(rest, 0);
      if len < NLA_HDRLEN || len > |rest| {
        break;
      }
      ParseUnfolds(rest);
      var a := Attr(U16At(rest, 2), rest[NLA_HDRLEN..len]);
      if Align(len) > |rest| {
        return out + [a];
      }
      assert out + ([a] + ParseAttrs(rest[Align(len)..])) == out + [a] + ParseAttrs(rest[Align(len)..]);
      out := out + [a];
      rest := rest[Align(len)..];
    }
    ParseStops(rest);
  }

  /** Parsing what one attribute was pushed in front of. */
  lemma ParsePushed(a: Attr, rest: Bytes)
    requires |a.payload| <= MAX_PAYLOAD
    ensures ParseAttrs(EncodeAttr(a) + rest) == [a] + ParseAttrs(rest)
  {
    var data := EncodeAttr(a) + rest;
    var len := NLA_HDRLEN + |a.payload|;
    assert data[0..2] == Le16(len);
    assert data[2..4] == Le16(a.ty);
    Le16Inverse(len, data, 0);
    Le16Inverse(a.ty, data, 2);
    assert data[NLA_HDRLEN..len] == a.payload;
    assert data[Align(len)..] == rest;
  }

  /** A payload too long for the length field is never recovered. */
  lemma OversizeLost(a: Attr, rest: Bytes)
    requires |a.payload| > MAX_PAYLOAD
    ensures var out := ParseAttrs(EncodeAttr(a) + rest); out == [] || |out[0].payload| < |a.payload|
  {
    var data := EncodeAttr(a) + rest;
    var len := NLA_HDRLEN + |a.payload|;
    assert data[0..2] == Le16(len % 0x1_0000);
    Le16Inverse(len % 0x1_0000, data, 0);
  }

  /** An attribute list is recovered from its encoding exactly when every payload fits the length field. */
  lemma {:induction false} AttrsRoundTrip(attrs: seq<Attr>)
    ensures ParseAttrs(EncodeAttrs(attrs)) == attrs
       <==> forall i :: 0 <= i < |attrs| ==> |attrs[i].payload| <= MAX_PAYLOAD
  {
    if attrs == [] {
    } else {
      var rest := EncodeAttrs(attrs[1..]);
      AttrsRoundTrip(attrs[1..]);
      if |attrs[0].payload| <= MAX_PAYLOAD {
        ParsePushed(attrs[0], rest);
        assert attrs == [attrs[0]] + attrs[1..];
        if ParseAttrs(EncodeAttrs(attrs)) == attrs {
          assert ParseAttrs(rest) == attrs[1..];
        }
      } else {
        OversizeLost(attrs[0], rest);
      }
    }
  }

  /** Where the `i`-th parsed attribute begins. */
  ghost function AttrOffset(out: seq<Attr>, i: nat): nat
    requires i <= |out|
  {
    if i == 0 then 0 else AttrOffset(out, i - 1) + Align(NLA_HDRLEN + |out[i - 1].payload|)
  }

  lemma {:induction false} AttrOffsetTail(out: seq<Attr>, i: nat)
    requires 0 < i <= |out|
    ensures AttrOffset(out, i) == Align(NLA_HDRLEN + |out[0].payload|) + AttrOffset(out[1..], i - 1)
  {
    if i > 1 {
      AttrOffsetTail(out, i - 1);
    }
  }

  lemma SliceOfSuffix(data: Bytes, step: nat, i: nat, j: nat)
    requires i <= j && step + j <= |data|
    ensures data[step..][i..j] == data[step + i..step + j]
  {
  }

  lemma U16OfSuffix(data: Bytes, step: nat, at: nat)
    requires step + at + 2 <= |data|
    ensures U16At(data[step..], at) == U16At(data, step + at)
  {
    SliceOfSuffix(data, step, at, at + 2);
  }

  /** The slice at `at` is the attribute `a` behind its own header. */
  ghost predicate SliceAt(data: Bytes, at: nat, a: Attr) {
    var len := NLA_HDRLEN + |a.payload|;
    && at + len <= |data| && len <= 0xFFFF && data[at + NLA_HDRLEN..at + len] == a.payload
    && U16At(data, at) == len && U16At(data, at + 2) == a.ty
  }

  lemma SliceAtShift(data: Bytes, step: nat, at: nat, a: Attr)
    requires step <= |data| && SliceAt(data[step..], at, a)
    ensures SliceAt(data, step + at, a)
  {
    var len := NLA_HDRLEN + |a.payload|;
    U16OfSuffix(data, step, at);
    U16OfSuffix(data, step, at + 2);
    SliceOfSuffix(data, step, at + NLA_HDRLEN, at + len);
  }

  lemma ParsedFirst(data: Bytes)
    requires ParseAttrs(data) != []
    ensures var out := ParseAttrs(data);
            && SliceAt(data, 0, out[0])
            && (|out| > 1 ==>
                  var step := Align(NLA_HDRLEN + |out[0].payload|);
                  step <= |data| && out[1..] == ParseAttrs(data[step..]))
  {
  }

  /** An attribute begins no earlier than the one before it ends. */
  lemma OffsetsInOrder(out: seq<Attr>, i: nat)
    requires 0 < i <= |out|
    ensures AttrOffset(out, i - 1) + NLA_HDRLEN + |out[i - 1].payload| <= AttrOffset(out, i)
  {
  }

  /** On arbitrary bytes, each parsed attribute is a slice of the input behind its own header, and begins no
      earlier than the one before it ends. */
  lemma {:induction false} ParsedSlices(data: Bytes, i: nat)
    requires i < |ParseAttrs(data)|
    ensures var out := ParseAttrs(data);
            && SliceAt(data, AttrOffset(out, i), out[i])
            && (i > 0 ==> AttrOffset(out, i - 1) + NLA_HDRLEN + |out[i - 1].payload| <= AttrOffset(out, i))
    decreases i
  {
    hide ParseAttrs, Align, SliceAt;
    var out := ParseAttrs(data);
    ParsedFirst(data);
    if i == 0 {
    } else {
      var step := Align(NLA_HDRLEN + |out[0].payload|);
      ParsedSlices(data[step..], i - 1);
      AttrOffsetTail(out, i);
      hide AttrOffset;
      SliceAtShift(data, step, AttrOffset(out[1..], i - 1), out[i]);
      OffsetsInOrder(out, i);
    }
  }

  /** Encoding whatever was parsed, and parsing again, changes nothing. */
  lemma ParseStable(data: Bytes)
    ensures ParseAttrs(EncodeAttrs(ParseAttrs(data))) == ParseAttrs(data)
  {
    var out := ParseAttrs(data);
    forall i | 0 <= i < |out|
      ensures |out[i].payload| <= MAX_PAYLOAD
    {
      ParsedSlices(data, i);
    }
    AttrsRoundTrip(out);
  }

  // ---- Messages ----

  function ParseHeader(buf: Bytes, off: nat): Option<Header> {
    if off + NLMSG_HDRLEN > |buf| then None
    else
      Some(Header(U32At(buf, off), U16At(buf, off + 4), U16At(buf, off + 6), U32At(buf, off + 8), U32At(buf, off + 12)))
  }

  function EncodeHeader(h: Header): (s: Bytes)
    ensures |s| == NLMSG_HDRLEN
  {
    Le32(h.len) + Le16(h.ty) + Le16(h.flags)
    + Le32(h.seqno) + Le32(h.pid)
  }

  /** A request as `build_packet_genl_msg` lays it out; the 32-bit length field is truncated by the cast. */
  function EncodeRequest(
      ty: u16, flags: u16, seqno: u32, pid: u32, cmd: u8, version: u8, attrs: seq<Attr>): Bytes {
    var body := EncodeAttrs(attrs);
    var total := NLMSG_HDRLEN + GENL_HDRLEN + |body|;
    EncodeHeader(Header(total % 0x1_0000_0000, ty, flags, seqno, pid)) + GenlHeader(cmd, version) + body
  }

  /** Command, version and two reserved bytes. */
  function GenlHeader(cmd: u8, version: u8): (s: Bytes)
    ensures |s| == GENL_HDRLEN
  {
    [cmd, version, 0, 0]
  }

  lemma GenlAppended(buf: Bytes, cmd: u8, version: u8)
    ensures buf + [cmd] + [version] + [0, 0] == buf + GenlHeader(cmd, version)
  {
  }

  lemma AttrAppended(buf: Bytes, attrs: seq<Attr>, i: nat)
    requires i < |attrs|
    ensures buf + EncodeAttr(attrs[i]) + EncodeAttrs(attrs[i + 1..]) == buf + EncodeAttrs(attrs[i..])
  {
    hide EncodeAttr;
    assert attrs[i..][0] == attrs[i] && attrs[i..][1..] == attrs[i + 1..];
  }

  method BuildPacketGenlMsg(
      ty: u16, flags: u16, seqno: u32, pid: u32, cmd: u8, version: u8, attrs: seq<Attr>) returns (buf: Bytes)
    ensures buf == EncodeRequest(ty, flags, seqno, pid, cmd, version, attrs)
  {
    hide EncodeAttr, EncodeAttrs, GenlHeader, Le16, Le32;
    var attrsBuf: Bytes := [];
    assert attrs[0..] == attrs && [] + EncodeAttrs(attrs) == EncodeAttrs(attrs);
    for i := 0 to |attrs|
      invariant attrsBuf + EncodeAttrs(attrs[i..]) == EncodeAttrs(attrs)
    {
      AttrAppended(attrsBuf, attrs, i);
      attrsBuf := PushNlattr(attrsBuf, attrs[i].ty, attrs[i].payload);
    }
    NoAttrsLeft(attrsBuf, attrs);
    var total := NLMSG_HDRLEN + GENL_HDRLEN + |attrsBuf|;
    buf := Le32(total % 0x1_0000_0000);
    buf := buf + Le16(ty);
    buf := buf + Le16(flags);
    buf := buf + Le32(seqno);
    buf := buf + Le32(pid);
    GenlAppended(buf, cmd, version);
    buf := buf + [cmd];
    buf := buf + [version];
    buf := buf + [0, 0];
    buf := buf + attrsBuf;
  }

  lemma NoAttrsLeft(buf: Bytes, attrs: seq<Attr>)
    ensures buf + EncodeAttrs(attrs[|attrs|..]) == buf
  {
  }

  lemma FieldsOf(a: Bytes, b: Bytes, c: Bytes, d: Bytes, e: Bytes, buf: Bytes, off: nat)
    requires |a| == 4 && |b| == 2 && |c| == 2 && |d| == 4 && |e| == 4
    requires off + NLMSG_HDRLEN <= |buf| && buf[off..off + NLMSG_HDRLEN] == a + b + c + d + e
    ensures buf[off..off + 4] == a && buf[off + 4..off + 6] == b && buf[off + 6..off + 8] == c
    ensures buf[off + 8..off + 12] == d && buf[off + 12..off + 16] == e
  {
    var s := a + b + c + d + e;
    assert a == s[0..4] && b == s[4..6] && c == s[6..8] && d == s[8..12] && e == s[12..16];
    assert buf[off..off + NLMSG_HDRLEN][0..4] == buf[off..off + 4];
    assert buf[off..off + NLMSG_HDRLEN][4..6] == buf[off + 4..off + 6];
    assert buf[off..off + NLMSG_HDRLEN][6..8] == buf[off + 6..off + 8];
    assert buf[off..off + NLMSG_HDRLEN][8..12] == buf[off + 8..off + 12];
    assert buf[off..off + NLMSG_HDRLEN][12..16] == buf[off + 12..off + 16];
  }

  lemma HeaderRoundTrip(h: Header, buf: Bytes, off: nat)
    requires off + NLMSG_HDRLEN <= |buf| && buf[off..off + NLMSG_HDRLEN] == EncodeHeader(h)
    ensures ParseHeader(buf, off) == Some(h)
  {
    FieldsOf(Le32(h.len), Le16(h.ty), Le16(h.flags),
             Le32(h.seqno), Le32(h.pid), buf, off);
    Le32Inverse(h.len, buf, off);
    Le16Inverse(h.ty, buf, off + 4);
    Le16Inverse(h.flags, buf, off + 6);
    Le32Inverse(h.seqno, buf, off + 8);
    Le32Inverse(h.pid, buf, off + 12);
  }

  lemma {:induction false} AttrsAligned(attrs: seq<Attr>)
    ensures |EncodeAttrs(attrs)| % 4 == 0
  {
    hide EncodeAttr, Align;
    if attrs == [] {
    } else {
      AttrsAligned(attrs[1..]);
    }
  }

  lemma PartsOf(header: Bytes, genl: Bytes, body: Bytes)
    requires |header| == NLMSG_HDRLEN && |genl| == GENL_HDRLEN
    ensures var buf := header + genl + body;
            && buf[0..NLMSG_HDRLEN] == header && buf[NLMSG_HDRLEN + GENL_HDRLEN..] == body
            && buf[NLMSG_HDRLEN] == genl[0] && buf[NLMSG_HDRLEN + 1] == genl[1]
  {
  }

  /** A built request parses back to its header fields, its command and version, and, exactly when every payload
      fits its length field, its attributes; its length is a multiple of 4, and the length field states it
      exactly when it is below 2^32. */
  lemma RequestRoundTrip(ty: u16, flags: u16, seqno: u32, pid: u32, cmd: u8, version: u8, attrs: seq<Attr>)
    ensures var buf := EncodeRequest(ty, flags, seqno, pid, cmd, version, attrs);
            && |buf| % 4 == 0 && NLMSG_HDRLEN + GENL_HDRLEN <= |buf|
            && ParseHeader(buf, 0) == Some(Header(|buf| % 0x1_0000_0000, ty, flags, seqno, pid))
            && (ParseHeader(buf, 0).value.len == |buf| <==> |buf| < 0x1_0000_0000)
            && buf[NLMSG_HDRLEN] == cmd && buf[NLMSG_HDRLEN + 1] == version
            && (ParseAttrs(buf[NLMSG_HDRLEN + GENL_HDRLEN..]) == attrs
                <==> forall i :: 0 <= i < |attrs| ==> |attrs[i].payload| <= MAX_PAYLOAD)
  {
    hide EncodeHeader, EncodeAttrs, EncodeRequest, ParseAttrs, ParseHeader;
    var buf := EncodeRequest(ty, flags, seqno, pid, cmd, version, attrs);
    var h := Header(|buf| % 0x1_0000_0000, ty, flags, seqno, pid);
    RequestParts(ty, flags, seqno, pid, cmd, version, attrs);
    HeaderRoundTrip(h, buf, 0);
    AttrsRoundTrip(attrs);
  }

  lemma RequestParts(ty: u16, flags: u16, seqno: u32, pid: u32, cmd: u8, version: u8, attrs: seq<Attr>)
    ensures var buf := EncodeRequest(ty, flags, seqno, pid, cmd, version, attrs);
            && |buf| % 4 == 0 && NLMSG_HDRLEN + GENL_HDRLEN <= |buf|
            && buf[0..NLMSG_HDRLEN] == EncodeHeader(Header(|buf| % 0x1_0000_0000, ty, flags, seqno, pid))
            && buf[NLMSG_HDRLEN] == cmd && buf[NLMSG_HDRLEN + 1] == version
            && buf[NLMSG_HDRLEN + GENL_HDRLEN..] == EncodeAttrs(attrs)
  {
    hide EncodeHeader, EncodeAttr, EncodeAttrs;
    var body := EncodeAttrs(attrs);
    AttrsAligned(attrs);
    RequestLength(ty, flags, seqno, pid, cmd, version, attrs);
    var total := NLMSG_HDRLEN + GENL_HDRLEN + |body|;
    PartsOf(EncodeHeader(Header(total % 0x1_0000_0000, ty, flags, seqno, pid)), GenlHeader(cmd, version), body);
  }

  lemma RequestLength(ty: u16, flags: u16, seqno: u32, pid: u32, cmd: u8, version: u8, attrs: seq<Attr>)
    ensures |EncodeRequest(ty, flags, seqno, pid, cmd, version, attrs)|
         == NLMSG_HDRLEN + GENL_HDRLEN + |EncodeAttrs(attrs)|
  {
  }

  // ---- The walk over reply datagrams ----

  /** Why a walk ends badly. `OutOfBounds` is the slice whose end lies before its start. */
  datatype Fault =
    | InvalidLength
    | Truncated
    | BadGenlHeader
    | ShortError
    | ErrorCode(code: u32)
    | NoResponse
    | TooSmall
    | OutOfBounds

  /** What the walk is for: every value of an attribute, one value, or an acknowledgement. */
  datatype Purpose = Dump(attr: u16, size: nat) | Fetch(attr: u16, size: nat) | Ack

  datatype Verdict = Continue(values: seq<Bytes>) | Stop(values: seq<Bytes>) | Fail(fault: Fault)

  /** How a walk stands; a waiting one asks for another datagram. */
  datatype End = Waiting | Finished | Failed(fault: Fault)

  /** The values delivered, in order, and how the walk stands. */
  datatype Walk = Walk(values: seq<Bytes>, end: End)

  /** The values a dump hands to its handler: attributes of the type that are large enough, cut to size. */
  function Matching(attrs: seq<Attr>, attr: u16, size: nat): seq<Bytes> {
    if attrs == [] then []
    else
      (if attrs[0].ty == attr && |attrs[0].payload| >= size then [attrs[0].payload[..size]] else [])
      + Matching(attrs[1..], attr, size)
  }

  /** A fetch takes the first attribute of the type, whatever its size. */
  function FirstMatching(attrs: seq<Attr>, attr: u16, size: nat): Verdict {
    if attrs == [] then Continue([])
    else if attrs[0].ty == attr then
      if |attrs[0].payload| < size then Fail(TooSmall) else Stop([attrs[0].payload[..size]])
    else FirstMatching(attrs[1..], attr, size)
  }

  /** The verdict on one message with the request's sequence number: `body` follows its header and `room` bytes
      follow its header in the datagram. */
  function Visit(purpose: Purpose, ty: u16, body: Bytes, room: nat): Verdict {
    if ty == NLMSG_ERROR then
      if |body| < NLMSGERR_LEN then Fail(ShortError)
      else if U32At(body, 0) != 0 then Fail(ErrorCode(U32At(body, 0)))
      else if purpose.Ack? then Stop([])
      else Continue([])
    else if ty == NLMSG_DONE then
      if purpose.Fetch? then Fail(NoResponse) else Stop([])
    else if purpose.Ack? then Continue([])
    else if room < GENL_HDRLEN then Fail(BadGenlHeader)
    else if |body| < GENL_HDRLEN then Fail(OutOfBounds)
    else
      var attrs := ParseAttrs(body[GENL_HDRLEN..]);
      if purpose.Dump? then Continue(Matching(attrs, purpose.attr, purpose.size))
      else FirstMatching(attrs, purpose.attr, purpose.size)
  }

  function Prepend(values: seq<Bytes>, w: Walk): Walk {
    Walk(values + w.values, w.end)
  }

  /** Goes on with `more` if the walk `w` is waiting. */
  function Then(w: Walk, more: Walk): Walk {
    if w.end.Waiting? then Prepend(w.values, more) else w
  }

  function Reached(v: Verdict): Walk {
    match v
    case Continue(values) => Walk(values, Waiting)
    case Stop(values) => Walk(values, Finished)
    case Fail(fault) => Walk([], Failed(fault))
  }

  /** The walk of one datagram from an offset. */
  function WalkFrom(purpose: Purpose, seqno: u32, rx: Bytes, off: nat): Walk
    decreases if off <= |rx| then |rx| - off else 0
  {
    match ParseHeader(rx, off)
    case None => Walk([], Waiting)
    case Some(h) =>
      if h.len < NLMSG_HDRLEN then Walk([], Failed(InvalidLength))
      else if off + h.len > |rx| then Walk([], Failed(Truncated))
      else
        var rest := WalkFrom(purpose, seqno, rx, off + Align(h.len));
        if h.seqno != seqno then rest
        else
          var body := rx[off + NLMSG_HDRLEN..off + h.len];
          Then(Reached(Visit(purpose, h.ty, body, |rx| - off - NLMSG_HDRLEN)), rest)
  }

  /** The walk over the datagrams received so far. */
  function WalkAll(purpose: Purpose, seqno: u32, rxs: seq<Bytes>): Walk {
    if rxs == [] then Walk([], Waiting)
    else Then(WalkFrom(purpose, seqno, rxs[0], 0), WalkAll(purpose, seqno, rxs[1..]))
  }

  lemma WalkStep(purpose: Purpose, seqno: u32, rx: Bytes, off: nat, h: Header)
    requires ParseHeader(rx, off) == Some(h) && NLMSG_HDRLEN <= h.len && off + h.len <= |rx|
    ensures var rest := WalkFrom(purpose, seqno, rx, off + Align(h.len));
            WalkFrom(purpose, seqno, rx, off)
              == if h.seqno != seqno then rest
                 else Then(Reached(Visit(purpose, h.ty, rx[off + NLMSG_HDRLEN..off + h.len],
                                         |rx| - off - NLMSG_HDRLEN)), rest)
  {
  }

  lemma ThenAssociates(a: Walk, b: Walk, c: Walk)
    ensures Then(Then(a, b), c) == Then(a, Then(b, c))
  {
    assert a.values + b.values + c.values == a.values + (b.values + c.values);
  }

  /** The receive loops of `dump_structs`, `receive_struct` and `send_struct`, which share their shape. */
  method ReceiveLoop(purpose: Purpose, seqno: u32, rxs: seq<Bytes>) returns (w: Walk)
    ensures w == WalkAll(purpose, seqno, rxs)
  {
    w := Walk([], Waiting);
    for i := 0 to |rxs|
      invariant w.end == Waiting
      invariant Then(w, WalkAll(purpose, seqno, rxs[i..])) == WalkAll(purpose, seqno, rxs)
    {
      assert rxs[i..][0] == rxs[i] && rxs[i..][1..] == rxs[i + 1..];
      ThenAssociates(w, WalkFrom(purpose, seqno, rxs[i], 0), WalkAll(purpose, seqno, rxs[i + 1..]));
      w := WalkDatagram(purpose, seqno, rxs[i], w);
      if !w.end.Waiting? {
        return;
      }
    }
    assert rxs[|rxs|..] == [];
  }

  /** Where the walk of a datagram comes to its end. */
  lemma WalkEnds(purpose: Purpose, seqno: u32, rx: Bytes, off: nat)
    ensures off + NLMSG_HDRLEN > |rx| ==> WalkFrom(purpose, seqno, rx, off) == Walk([], Waiting)
    ensures off + NLMSG_HDRLEN <= |rx| && U32At(rx, off) < NLMSG_HDRLEN ==>
              WalkFrom(purpose, seqno, rx, off) == Walk([], Failed(InvalidLength))
    ensures off + NLMSG_HDRLEN <= |rx| && NLMSG_HDRLEN <= U32At(rx, off) && off + U32At(rx, off) > |rx| ==>
              WalkFrom(purpose, seqno, rx, off) == Walk([], Failed(Truncated))
  {
  }

  /** The inner loop over the messages of one datagram, continuing a waiting walk. */
  method WalkDatagram(purpose: Purpose, seqno: u32, rx: Bytes, before: Walk) returns (w: Walk)
    requires before.end == Waiting
    ensures w == Then(before, WalkFrom(purpose, seqno, rx, 0))
  {
    w := before;
    ghost var target := Then(before, WalkFrom(purpose, seqno, rx, 0));
    var off: nat := 0;
    while off + NLMSG_HDRLEN <= |rx|
      invariant w.end == Waiting
      invariant Then(w, WalkFrom(purpose, seqno, rx, off)) == target
      decreases |rx| - off
    {
      WalkEnds(purpose, seqno, rx, off);
      var h := ParseHeader(rx, off).value;
      if h.len < NLMSG_HDRLEN {
        return Then(w, Walk([], Failed(InvalidLength)));
      }
      if off + h.len > |rx| {
        return Then(w, Walk([], Failed(Truncated)));
      }
      WalkStep(purpose, seqno, rx, off, h);
      if h.seqno == seqno {
        var v := VisitMessage(purpose, rx, off, h);
        ThenAssociates(w, v, WalkFrom(purpose, seqno, rx, off + Align(h.len)));
        w := Then(w, v);
        if !w.end.Waiting? {
          return;
        }
      }
      off := off + Align(h.len);
    }
    WalkEnds(purpose, seqno, rx, off);
    assert w.values + [] == w.values;
  }

  /** One message with the request's sequence number. */
  method VisitMessage(purpose: Purpose, rx: Bytes, off: nat, h: Header) returns (v: Walk)
    requires NLMSG_HDRLEN <= h.len && off + h.len <= |rx|
    ensures v == Reached(Visit(purpose, h.ty, rx[off + NLMSG_HDRLEN..off + h.len], |rx| - off - NLMSG_HDRLEN))
  {
    hide ParseAttrs;
    var body := rx[off + NLMSG_HDRLEN..off + h.len];
    if h.ty == NLMSG_ERROR {
      if |body| < NLMSGERR_LEN {
        return Walk([], Failed(ShortError));
      }
      if U32At(body, 0) != 0 {
        return Walk([], Failed(ErrorCode(U32At(body, 0))));
      }
      return Walk([], if purpose.Ack? then Finished else Waiting);
    }
    if h.ty == NLMSG_DONE {
      return Walk([], if purpose.Fetch? then Failed(NoResponse) else Finished);
    }
    if purpose.Ack? {
      return Walk([], Waiting);
    }
    if off + NLMSG_HDRLEN + GENL_HDRLEN > |rx| {
      return Walk([], Failed(BadGenlHeader));
    }
    if |body| < GENL_HDRLEN {
      return Walk([], Failed(OutOfBounds));
    }
    var attrs := ParseAttrsLoop(body[GENL_HDRLEN..]);
    v := VisitAttrs(purpose, attrs);
  }

  /** The loop over the attributes of a data message: a dump hands on each match, a fetch stops at the first. */
  method VisitAttrs(purpose: Purpose, attrs: seq<Attr>) returns (v: Walk)
    requires !purpose.Ack?
    ensures v == Reached(if purpose.Dump? then Continue(Matching(attrs, purpose.attr, purpose.size))
                         else FirstMatching(attrs, purpose.attr, purpose.size))
  {
    var attr, size := purpose.attr, purpose.size;
    var values: seq<Bytes> := [];
    for i := 0 to |attrs|
      invariant values + Matching(attrs[i..], attr, size) == Matching(attrs, attr, size) || purpose.Fetch?
      invariant purpose.Fetch? ==>
                  values == [] && FirstMatching(attrs[i..], attr, size) == FirstMatching(attrs, attr, size)
    {
      assert attrs[i..][0] == attrs[i] && attrs[i..][1..] == attrs[i + 1..];
      var payload := attrs[i].payload;
      if attrs[i].ty == attr {
        if purpose.Fetch? {
          return Walk(if |payload| < size then [] else [payload[..size]],
                      if |payload| < size then Failed(TooSmall) else Finished);
        }
        if |payload| >= size {
          values := values + [payload[..size]];
        }
      }
    }
    assert attrs[|attrs|..] == [];
    v := Walk(values, Waiting);
  }

  /** A message of a reply stream. */
  datatype Msg = Msg(ty: u16, flags: u16, seqno: u32, pid: u32, body: Bytes)

  function MsgLen(m: Msg): nat {
    NLMSG_HDRLEN + |m.body|
  }

  /** Messages whose length fits the field, data messages with a full generic header: as kernels send them. */
  ghost predicate WellFormed(m: Msg) {
    && MsgLen(m) < 0x1_0000_0000
    && (m.ty != NLMSG_ERROR && m.ty != NLMSG_DONE ==> |m.body| >= GENL_HDRLEN)
  }

  ghost function EncodeMsg(m: Msg): (s: Bytes)
    requires WellFormed(m)
    ensures |s| == Align(MsgLen(m))
  {
    EncodeHeader(Header(MsgLen(m), m.ty, m.flags, m.seqno, m.pid)) + m.body + Zeros(Align(MsgLen(m)) - MsgLen(m))
  }

  /** The walk of a stream of messages, without bytes or datagrams. */
  ghost function WalkStream(purpose: Purpose, seqno: u32, ms: seq<Msg>): Walk {
    if ms == [] then Walk([], Waiting)
    else
      var rest := WalkStream(purpose, seqno, ms[1..]);
      if ms[0].seqno != seqno then rest
      else Then(Reached(Visit(purpose, ms[0].ty, ms[0].body, |ms[0].body|)), rest)
  }

  /** The bytes from `off` on are the message, except that padding at the end of the datagram may be missing. */
  ghost predicate Begins(rx: Bytes, off: nat, m: Msg)
    requires WellFormed(m)
  {
    && off + MsgLen(m) <= |rx|
    && rx[off..off + MsgLen(m)] == EncodeMsg(m)[..MsgLen(m)]
  }

  /** From `off` on, a datagram carries the messages whole, each at a 4-byte boundary. */
  ghost predicate Packs(rx: Bytes, off: nat, ms: seq<Msg>)
    requires forall m :: m in ms ==> WellFormed(m)
    decreases |ms|
  {
    if ms == [] then off >= |rx|
    else Begins(rx, off, ms[0]) && Packs(rx, off + Align(MsgLen(ms[0])), ms[1..])
  }

  /** What follows a message in its datagram changes the verdict on it exactly when it is a data message too short
      for the generic header: alone it is a bad header, followed by another it is a slice out of bounds. */
  lemma RoomMattersOnlyWhenShort(purpose: Purpose, m: Msg)
    ensures (forall room: nat :: room >= |m.body| ==>
                Visit(purpose, m.ty, m.body, room) == Visit(purpose, m.ty, m.body, |m.body|))
       <==> purpose.Ack? || m.ty == NLMSG_ERROR || m.ty == NLMSG_DONE || |m.body| >= GENL_HDRLEN
  {
    assert |m.body| < GENL_HDRLEN ==> Visit(purpose, m.ty, m.body, GENL_HDRLEN) != Fail(BadGenlHeader);
  }

  /** A message is read as it was sent. */
  lemma ReadsBack(rx: Bytes, off: nat, m: Msg)
    requires WellFormed(m) && Begins(rx, off, m)
    ensures ParseHeader(rx, off) == Some(Header(MsgLen(m), m.ty, m.flags, m.seqno, m.pid))
    ensures rx[off + NLMSG_HDRLEN..off + MsgLen(m)] == m.body
  {
    var h := Header(MsgLen(m), m.ty, m.flags, m.seqno, m.pid);
    var s := EncodeMsg(m)[..MsgLen(m)];
    assert s == EncodeHeader(h) + m.body;
    assert rx[off..off + NLMSG_HDRLEN] == rx[off..off + MsgLen(m)][..NLMSG_HDRLEN] == EncodeHeader(h);
    HeaderRoundTrip(h, rx, off);
    assert rx[off + NLMSG_HDRLEN..off + MsgLen(m)] == rx[off..off + MsgLen(m)][NLMSG_HDRLEN..] == m.body;
  }

  /** The walk past one message, told by the message. */
  lemma WalkPast(purpose: Purpose, seqno: u32, rx: Bytes, off: nat, m: Msg)
    requires WellFormed(m) && Begins(rx, off, m)
    ensures var rest := WalkFrom(purpose, seqno, rx, off + Align(MsgLen(m)));
            WalkFrom(purpose, seqno, rx, off)
              == if m.seqno != seqno then rest
                 else Then(Reached(Visit(purpose, m.ty, m.body, |m.body|)), rest)
  {
    hide EncodeHeader, EncodeMsg, Visit, WalkFrom, ParseHeader, Then, Reached;
    var h := Header(MsgLen(m), m.ty, m.flags, m.seqno, m.pid);
    ReadsBack(rx, off, m);
    WalkStep(purpose, seqno, rx, off, h);
    RoomMattersOnlyWhenShort(purpose, m);
    assert rx[off + NLMSG_HDRLEN..off + h.len] == m.body;
  }

  lemma {:induction false} WalkPacked(purpose: Purpose, seqno: u32, rx: Bytes, off: nat, ms: seq<Msg>)
    requires forall m :: m in ms ==> WellFormed(m)
    requires Packs(rx, off, ms)
    ensures WalkFrom(purpose, seqno, rx, off) == WalkStream(purpose, seqno, ms)
    decreases |ms|
  {
    hide EncodeHeader, EncodeMsg, Visit, ParseHeader, Then, Reached, Align;
    WalkEnds(purpose, seqno, rx, off);
    if ms == [] {
    } else {
      var m := ms[0];
      WalkPast(purpose, seqno, rx, off, m);
      WalkPacked(purpose, seqno, rx, off + Align(MsgLen(m)), ms[1..]);
    }
  }

  ghost function Flatten(groups: seq<seq<Msg>>): seq<Msg> {
    if groups == [] then [] else groups[0] + Flatten(groups[1..])
  }

  lemma {:induction false} StreamAppend(purpose: Purpose, seqno: u32, ms: seq<Msg>, more: seq<Msg>)
    ensures WalkStream(purpose, seqno, ms + more)
         == Then(WalkStream(purpose, seqno, ms), WalkStream(purpose, seqno, more))
  {
    if ms == [] {
      assert ms + more == more;
    } else {
      StreamAppend(purpose, seqno, ms[1..], more);
      assert (ms + more)[1..] == ms[1..] + more;
      ThenAssociates(Reached(Visit(purpose, ms[0].ty, ms[0].body, |ms[0].body|)),
                     WalkStream(purpose, seqno, ms[1..]), WalkStream(purpose, seqno, more));
    }
  }

  /** The outcome of a dump, a fetch or an acknowledged request does not depend on how the kernel groups its
      messages into datagrams: it is that of the plain stream of messages. */
  lemma {:induction false} GroupingIrrelevant(
      purpose: Purpose, seqno: u32, rxs: seq<Bytes>, groups: seq<seq<Msg>>)
    requires |rxs| == |groups|
    requires forall ms, m :: ms in groups && m in ms ==> WellFormed(m)
    requires forall g :: 0 <= g < |groups| ==> Packs(rxs[g], 0, groups[g])
    ensures WalkAll(purpose, seqno, rxs) == WalkStream(purpose, seqno, Flatten(groups))
  {
    if groups == [] {
    } else {
      WalkPacked(purpose, seqno, rxs[0], 0, groups[0]);
      StreamAppend(purpose, seqno, groups[0], Flatten(groups[1..]));
      GroupingIrrelevant(purpose, seqno, rxs[1..], groups[1..]);
    }
  }

  // ---- What the walk delivers, told without bytes ----

  /** A reply as the kernel means it: attributes of a family, the result of a request, or the end of a dump. */
  datatype Reply =
    | Data(ty: u16, cmd: u8, version: u8, attrs: seq<Attr>)
    | Result(code: u32, request: Bytes)
    | Done(trailer: Bytes)

  datatype Answer = Answer(flags: u16, seqno: u32, pid: u32, reply: Reply)

  /** Attributes that fit their length fields under a type of their own, and results that quote a header. */
  ghost predicate Sendable(r: Reply) {
    match r
    case Data(ty, _, _, attrs) =>
      && ty != NLMSG_ERROR && ty != NLMSG_DONE
      && forall i :: 0 <= i < |attrs| ==> |attrs[i].payload| <= MAX_PAYLOAD
    case Result(_, request) => |request| >= NLMSG_HDRLEN
    case Done(_) => true
  }

  ghost function TypeOf(r: Reply): u16 {
    match r
    case Data(ty, _, _, _) => ty
    case Result(_, _) => NLMSG_ERROR
    case Done(_) => NLMSG_DONE
  }

  ghost function BodyOf(r: Reply): Bytes {
    match r
    case Data(_, cmd, version, attrs) => GenlHeader(cmd, version) + EncodeAttrs(attrs)
    case Result(code, request) => Le32(code) + request
    case Done(trailer) => trailer
  }

  ghost function MsgOf(a: Answer): Msg {
    Msg(TypeOf(a.reply), a.flags, a.seqno, a.pid, BodyOf(a.reply))
  }

  ghost function MsgsOf(answers: seq<Answer>): (ms: seq<Msg>)
    ensures |ms| == |answers|
  {
    seq(|answers|, i requires 0 <= i < |answers| => MsgOf(answers[i]))
  }

  /** The replies that answer this request, in order. */
  ghost function Mine(seqno: u32, answers: seq<Answer>): seq<Reply> {
    if answers == [] then []
    else (if answers[0].seqno == seqno then [answers[0].reply] else []) + Mine(seqno, answers[1..])
  }

  /** Whether a reply ends the walk. */
  ghost predicate Closes(purpose: Purpose, r: Reply) {
    match r
    case Data(_, _, _, attrs) => purpose.Fetch? && exists i :: 0 <= i < |attrs| && attrs[i].ty == purpose.attr
    case Result(code, _) => code != 0 || purpose.Ack?
    case Done(_) => true
  }

  /** The walk that a closing reply leaves. */
  ghost function Closing(purpose: Purpose, r: Reply): Walk {
    match r
    case Data(_, _, _, attrs) =>
      if purpose.Fetch? then Reached(FirstMatching(attrs, purpose.attr, purpose.size)) else Walk([], Waiting)
    case Result(code, _) => Walk([], if code != 0 then Failed(ErrorCode(code)) else Finished)
    case Done(_) => Walk([], if purpose.Fetch? then Failed(NoResponse) else Finished)
  }

  /** All the values that the replies hold for a dump, in order; other walks collect none on the way. */
  ghost function Collected(purpose: Purpose, rs: seq<Reply>): seq<Bytes> {
    if rs == [] || !purpose.Dump? then []
    else
      (if rs[0].Data? then Matching(rs[0].attrs, purpose.attr, purpose.size) else [])
      + Collected(purpose, rs[1..])
  }

  /** The first reply that closes the walk, or all of them. */
  ghost predicate ClosedAt(purpose: Purpose, rs: seq<Reply>, k: nat) {
    && k <= |rs|
    && (forall i :: 0 <= i < k ==> !Closes(purpose, rs[i]))
    && (k < |rs| ==> Closes(purpose, rs[k]))
  }

  lemma {:induction false} FirstMatchingFinds(attrs: seq<Attr>, attr: u16, size: nat)
    ensures FirstMatching(attrs, attr, size) != Continue([])
       <==> exists i :: 0 <= i < |attrs| && attrs[i].ty == attr
    ensures FirstMatching(attrs, attr, size).Continue? ==> FirstMatching(attrs, attr, size) == Continue([])
  {
    if attrs != [] && attrs[0].ty != attr {
      FirstMatchingFinds(attrs[1..], attr, size);
      forall i | 0 <= i < |attrs| && attrs[i].ty == attr
        ensures attrs[1..][i - 1].ty == attr
      {
      }
    }
  }

  lemma BodyReadsBack(r: Reply)
    requires Sendable(r)
    ensures r.Data? ==> |BodyOf(r)| >= GENL_HDRLEN && ParseAttrs(BodyOf(r)[GENL_HDRLEN..]) == r.attrs
    ensures r.Result? ==> |BodyOf(r)| >= NLMSGERR_LEN && U32At(BodyOf(r), 0) == r.code
  {
    hide ParseAttrs, EncodeAttrs, Le32, U32At;
    match r
    case Data(_, _, _, attrs) =>
      AttrsRoundTrip(attrs);
      assert BodyOf(r)[GENL_HDRLEN..] == EncodeAttrs(attrs);
    case Result(code, _) =>
      assert BodyOf(r)[0..4] == Le32(code);
      Le32Inverse(code, BodyOf(r), 0);
    case Done(_) =>
  }

  /** The verdict on a reply: it closes the walk, or adds what it holds for a dump. */
  lemma VisitReply(purpose: Purpose, r: Reply)
    requires Sendable(r)
    ensures Reached(Visit(purpose, TypeOf(r), BodyOf(r), |BodyOf(r)|))
         == if Closes(purpose, r) then Closing(purpose, r) else Walk(Collected(purpose, [r]), Waiting)
  {
    hide ParseAttrs, BodyOf, U32At, FirstMatching, Matching;
    BodyReadsBack(r);
    if r.Data? && purpose.Fetch? {
      FirstMatchingFinds(r.attrs, purpose.attr, purpose.size);
    }
    assert Collected(purpose, [r])
        == if r.Data? && purpose.Dump? then Matching(r.attrs, purpose.attr, purpose.size) else [];
  }

  /** What the replies say: the values of those up to the first closing one, and the end that one gives. */
  ghost function Meaning(purpose: Purpose, rs: seq<Reply>, k: nat): Walk
    requires k <= |rs|
  {
    Prepend(Collected(purpose, rs[..k]), if k < |rs| then Closing(purpose, rs[k]) else Walk([], Waiting))
  }

  /** The meaning of a longer list of replies, told by its first. */
  lemma MeaningStep(purpose: Purpose, r: Reply, rest: seq<Reply>, k: nat)
    requires ClosedAt(purpose, [r] + rest, k)
    ensures Closes(purpose, r) ==> Meaning(purpose, [r] + rest, k) == Closing(purpose, r)
    ensures !Closes(purpose, r) ==>
              && k > 0 && ClosedAt(purpose, rest, k - 1)
              && Meaning(purpose, [r] + rest, k) == Prepend(Collected(purpose, [r]), Meaning(purpose, rest, k - 1))
  {
    hide Closes, Closing;
    var rs := [r] + rest;
    assert rs[0] == r;
    if !Closes(purpose, r) {
      assert forall i :: 0 <= i < |rest| ==> rest[i] == rs[i + 1];
      assert rs[..k] == [r] + rest[..k - 1];
      assert rs[..k][1..] == rest[..k - 1];
      assert Collected(purpose, rs[..k]) == Collected(purpose, [r]) + Collected(purpose, rest[..k - 1]);
    }
  }

  /** The walk of a stream of replies, told by its first. */
  lemma StreamStep(purpose: Purpose, seqno: u32, answers: seq<Answer>)
    requires answers != [] && Sendable(answers[0].reply)
    ensures var r, rest := answers[0].reply, WalkStream(purpose, seqno, MsgsOf(answers[1..]));
            WalkStream(purpose, seqno, MsgsOf(answers))
              == if answers[0].seqno != seqno then rest
                 else if Closes(purpose, r) then Then(Closing(purpose, r), rest)
                 else Prepend(Collected(purpose, [r]), rest)
  {
    hide Visit, Reached, TypeOf, BodyOf, Closes, Closing, Collected;
    var ms := MsgsOf(answers);
    assert ms[1..] == MsgsOf(answers[1..]);
    VisitReply(purpose, answers[0].reply);
  }

  /** A closing reply never leaves the walk waiting. */
  lemma ClosingEnds(purpose: Purpose, r: Reply)
    requires Closes(purpose, r)
    ensures !Closing(purpose, r).end.Waiting?
  {
    if r.Data? {
      FirstMatchingFinds(r.attrs, purpose.attr, purpose.size);
    }
  }

  /** The stream of messages means what the replies to this request say; other replies do not show. */
  lemma {:induction false} StreamMeaning(purpose: Purpose, seqno: u32, answers: seq<Answer>, k: nat)
    requires forall a :: a in answers ==> Sendable(a.reply)
    requires ClosedAt(purpose, Mine(seqno, answers), k)
    ensures WalkStream(purpose, seqno, MsgsOf(answers)) == Meaning(purpose, Mine(seqno, answers), k)
  {
    hide Closes, Closing, Sendable, Visit, TypeOf, BodyOf;
    if answers == [] {
    } else {
      var r, rest := answers[0].reply, Mine(seqno, answers[1..]);
      StreamStep(purpose, seqno, answers);
      if answers[0].seqno != seqno {
        assert Mine(seqno, answers) == rest;
        StreamMeaning(purpose, seqno, answers[1..], k);
      } else {
        MeaningStep(purpose, r, rest, k);
        if Closes(purpose, r) {
          ClosingEnds(purpose, r);
        } else {
          StreamMeaning(purpose, seqno, answers[1..], k - 1);
        }
      }
    }
  }

  /** However the kernel groups its replies into datagrams, the receive loop delivers exactly the values of the
      replies to this request, in order, up to the first closing one. */
  lemma DatagramsMeaning(
      purpose: Purpose, seqno: u32, rxs: seq<Bytes>, groups: seq<seq<Msg>>, answers: seq<Answer>, k: nat)
    requires |rxs| == |groups| && Flatten(groups) == MsgsOf(answers)
    requires forall a :: a in answers ==> Sendable(a.reply)
    requires forall ms, m :: ms in groups && m in ms ==> WellFormed(m)
    requires forall g :: 0 <= g < |groups| ==> Packs(rxs[g], 0, groups[g])
    requires ClosedAt(purpose, Mine(seqno, answers), k)
    ensures WalkAll(purpose, seqno, rxs) == Meaning(purpose, Mine(seqno, answers), k)
  {
    GroupingIrrelevant(purpose, seqno, rxs, groups);
    StreamMeaning(purpose, seqno, answers, k);
  }
}

/** What netlink requests look like byte by byte, and which values their replies deliver, told from the attributes. */
module Deliveries {
  import opened Wrappers
  import opened Ints
  import opened Netlink

  // ---- Requests ----

  /** An attribute begins with its length and its type; its payload follows, and zeros up to the next multiple of 4. */
  lemma AttrLayout(a: Attr)
    ensures var s, n := EncodeAttr(a), 4 + |a.payload|;
            && n <= |s| < n + 4 && |s| % 4 == 0
            && s[0..2] == Le16(n % 0x1_0000) && s[2..4] == Le16(a.ty) && s[4..n] == a.payload
            && forall i :: n <= i < |s| ==> s[i] == 0
  {
    var s, n := EncodeAttr(a), 4 + |a.payload|;
    assert s == Le16(n % 0x1_0000) + Le16(a.ty) + a.payload + Zeros(|s| - n);
  }

  /** A request begins with its length, type, flags, sequence number and port id, then command and version and two
      zeros; its attributes follow. */
  lemma RequestLayout(ty: u16, flags: u16, seqno: u32, pid: u32, cmd: u8, version: u8, attrs: seq<Attr>)
    ensures var s := EncodeRequest(ty, flags, seqno, pid, cmd, version, attrs);
            && |s| >= 20 && s[0..4] == Le32(|s| % 0x1_0000_0000) && s[4..6] == Le16(ty) && s[6..8] == Le16(flags)
            && s[8..12] == Le32(seqno) && s[12..16] == Le32(pid)
            && s[16..20] == [cmd, version, 0, 0] && s[20..] == EncodeAttrs(attrs)
  {
    hide EncodeRequest, EncodeHeader, EncodeAttrs, Le16, Le32;
    var s := EncodeRequest(ty, flags, seqno, pid, cmd, version, attrs);
    RequestParts(ty, flags, seqno, pid, cmd, version, attrs);
    GenlPart(ty, flags, seqno, pid, cmd, version, attrs);
    HeaderFields(Header(|s| % 0x1_0000_0000, ty, flags, seqno, pid), s);
  }

  lemma HeaderFields(h: Header, s: Bytes)
    requires |s| >= 16 && s[0..16] == EncodeHeader(h)
    ensures s[0..4] == Le32(h.len) && s[4..6] == Le16(h.ty) && s[6..8] == Le16(h.flags)
    ensures s[8..12] == Le32(h.seqno) && s[12..16] == Le32(h.pid)
  {
    FieldsOf(Le32(h.len), Le16(h.ty), Le16(h.flags), Le32(h.seqno), Le32(h.pid), s, 0);
  }

  lemma GenlPart(ty: u16, flags: u16, seqno: u32, pid: u32, cmd: u8, version: u8, attrs: seq<Attr>)
    ensures var s := EncodeRequest(ty, flags, seqno, pid, cmd, version, attrs);
            |s| >= 20 && s[16..20] == [cmd, version, 0, 0]
  {
    hide EncodeHeader, EncodeAttrs;
  }

  // ---- The values of a dump ----

  /** These are the places of the attributes of the type that hold at least `size` bytes. */
  ghost predicate PlacesOf(attrs: seq<Attr>, attr: u16, size: nat, ids: seq<int>) {
    && Increasing(ids)
    && forall i :: i in ids <==> 0 <= i < |attrs| && attrs[i].ty == attr && |attrs[i].payload| >= size
  }

  /** The values are the first `size` bytes of the payloads at these places. */
  ghost predicate ValuesAt(attrs: seq<Attr>, size: nat, ids: seq<int>, values: seq<Bytes>) {
    && |values| == |ids|
    && forall j :: 0 <= j < |ids| ==>
         0 <= ids[j] < |attrs| && |attrs[ids[j]].payload| >= size && values[j] == attrs[ids[j]].payload[..size]
  }

  lemma MatchingFirst(a: Attr, rest: seq<Attr>, attr: u16, size: nat)
    ensures Matching([a] + rest, attr, size) == Matching([a], attr, size) + Matching(rest, attr, size)
  {
    assert ([a] + rest)[1..] == rest && [a][1..] == [];
  }

  lemma {:induction false} MatchingAppend(attrs: seq<Attr>, more: seq<Attr>, attr: u16, size: nat)
    ensures Matching(attrs + more, attr, size) == Matching(attrs, attr, size) + Matching(more, attr, size)
  {
    if attrs == [] {
      assert attrs + more == more;
    } else {
      hide Matching;
      var a, rest := attrs[0], attrs[1..];
      assert attrs == [a] + rest && attrs + more == [a] + (rest + more);
      MatchingFirst(a, rest, attr, size);
      MatchingFirst(a, rest + more, attr, size);
      MatchingAppend(rest, more, attr, size);
    }
  }

  lemma PlacesGrow(attrs: seq<Attr>, last: Attr, attr: u16, size: nat, ids: seq<int>)
    requires PlacesOf(attrs, attr, size, ids)
    ensures PlacesOf(attrs + [last], attr, size,
                     if last.ty == attr && |last.payload| >= size then ids + [|attrs|] else ids)
  {
    assert forall j :: 0 <= j < |ids| ==> ids[j] in ids;
  }

  lemma ValuesGrow(attrs: seq<Attr>, last: Attr, size: nat, ids: seq<int>, values: seq<Bytes>)
    requires ValuesAt(attrs, size, ids, values)
    ensures ValuesAt(attrs + [last], size, ids, values)
    ensures |last.payload| >= size ==>
              ValuesAt(attrs + [last], size, ids + [|attrs|], values + [last.payload[..size]])
  {
  }

  lemma MatchingOne(a: Attr, attr: u16, size: nat)
    ensures Matching([a], attr, size) == if a.ty == attr && |a.payload| >= size then [a.payload[..size]] else []
  {
    assert [a][1..] == [];
  }

  lemma MatchingNone(attr: u16, size: nat)
    ensures PlacesOf([], attr, size, []) && ValuesAt([], size, [], Matching([], attr, size))
  {
  }

  lemma OneMore(attrs: seq<Attr>, last: Attr, attr: u16, size: nat, ids: seq<int>)
    requires PlacesOf(attrs, attr, size, ids) && ValuesAt(attrs, size, ids, Matching(attrs, attr, size))
    ensures var longer := if last.ty == attr && |last.payload| >= size then ids + [|attrs|] else ids;
            && PlacesOf(attrs + [last], attr, size, longer)
            && ValuesAt(attrs + [last], size, longer, Matching(attrs + [last], attr, size))
  {
    hide *;
    var values := Matching(attrs, attr, size);
    PlacesGrow(attrs, last, attr, size, ids);
    ValuesGrow(attrs, last, size, ids, values);
    MatchingAppend(attrs, [last], attr, size);
    MatchingOne(last, attr, size);
    assert values + [] == values;
  }

  /** A dump takes from a list of attributes exactly those of the type that are large enough, in order, each cut to
      size. */
  lemma {:induction false} MatchingPicks(attrs: seq<Attr>, attr: u16, size: nat) returns (ids: seq<int>)
    ensures PlacesOf(attrs, attr, size, ids) && ValuesAt(attrs, size, ids, Matching(attrs, attr, size))
    decreases |attrs|
  {
    hide *;
    if attrs == [] {
      ids := [];
      MatchingNone(attr, size);
    } else {
      var n := |attrs| - 1;
      var front, last := attrs[..n], attrs[n];
      ids := MatchingPicks(front, attr, size);
      OneMore(front, last, attr, size, ids);
      assert attrs == front + [last];
      if last.ty == attr && |last.payload| >= size {
        ids := ids + [n];
      }
    }
  }

  /** All the attributes that data replies carry, in order. */
  ghost function AllAttrs(rs: seq<Reply>): seq<Attr> {
    if rs == [] then [] else (if rs[0].Data? then rs[0].attrs else []) + AllAttrs(rs[1..])
  }

  lemma {:induction false} CollectedFromAll(purpose: Purpose, rs: seq<Reply>)
    requires purpose.Dump?
    ensures Collected(purpose, rs) == Matching(AllAttrs(rs), purpose.attr, purpose.size)
  {
    if rs != [] {
      CollectedFromAll(purpose, rs[1..]);
      MatchingAppend(if rs[0].Data? then rs[0].attrs else [], AllAttrs(rs[1..]), purpose.attr, purpose.size);
    }
  }

  // ---- The value of a fetch ----

  /** The first attribute of the type. */
  ghost predicate FirstOfType(attrs: seq<Attr>, attr: u16, i: int) {
    0 <= i < |attrs| && attrs[i].ty == attr && forall j :: 0 <= j < i ==> attrs[j].ty != attr
  }

  lemma {:induction false} FirstMatchingFrom(attrs: seq<Attr>, attr: u16, size: nat, i: nat)
    requires FirstOfType(attrs, attr, i)
    ensures FirstMatching(attrs, attr, size)
         == if |attrs[i].payload| < size then Fail(TooSmall) else Stop([attrs[i].payload[..size]])
    decreases i
  {
    if i > 0 {
      assert attrs[0].ty != attr;
      assert FirstOfType(attrs[1..], attr, i - 1);
      FirstMatchingFrom(attrs[1..], attr, size, i - 1);
    }
  }

  lemma {:induction false} SomeFirst(attrs: seq<Attr>, attr: u16) returns (i: int)
    ensures FirstOfType(attrs, attr, i) || (i == |attrs| && forall j :: 0 <= j < |attrs| ==> attrs[j].ty != attr)
  {
    if attrs == [] || attrs[0].ty == attr {
      i := 0;
    } else {
      var k := SomeFirst(attrs[1..], attr);
      i := k + 1;
      assert forall j :: 0 < j < |attrs| ==> attrs[j] == attrs[1..][j - 1];
    }
  }

  /** A fetch goes on where no attribute has the type, and otherwise takes the first that has it: its payload cut to
      size, or a failure if that is too short. */
  lemma FirstMatchingExact(attrs: seq<Attr>, attr: u16, size: nat)
    ensures var v := FirstMatching(attrs, attr, size);
            if forall j :: 0 <= j < |attrs| ==> attrs[j].ty != attr then v == Continue([])
            else exists i :: FirstOfType(attrs, attr, i)
                   && v == if |attrs[i].payload| < size then Fail(TooSmall) else Stop([attrs[i].payload[..size]])
  {
    var i := SomeFirst(attrs, attr);
    if i == |attrs| {
      FirstMatchingFinds(attrs, attr, size);
    } else {
      FirstMatchingFrom(attrs, attr, size, i);
    }
  }

  // ---- Malformed messages ----

  /** Which messages are refused for their shortness: results under 20 bytes, data without room for four bytes of
      generic header, and data that has the room but only from the message behind it. */
  lemma RefusedWhenShort(purpose: Purpose, ty: u16, body: Bytes, room: nat)
    ensures var v, data := Visit(purpose, ty, body, room), ty != 2 && ty != 3 && !purpose.Ack?;
            && (v == Fail(ShortError) <==> ty == 2 && |body| < 20)
            && (v == Fail(BadGenlHeader) <==> data && room < 4)
            && (v == Fail(OutOfBounds) <==> data && room >= 4 && |body| < 4)
  {
    hide ParseAttrs, FirstMatching, Matching;
    if |body| >= 4 && purpose.Fetch? {
      FirstMatchingExact(ParseAttrs(body[4..]), purpose.attr, purpose.size);
    }
  }

  // ---- Whole exchanges ----

  /** The datagrams carry these replies, whole messages in each. */
  ghost predicate Carry(rxs: seq<Bytes>, groups: seq<seq<Msg>>, answers: seq<Answer>) {
    && |rxs| == |groups| && Flatten(groups) == MsgsOf(answers)
    && (forall a :: a in answers ==> Sendable(a.reply))
    && (forall ms, m :: ms in groups && m in ms ==> WellFormed(m))
    && forall g :: 0 <= g < |groups| ==> Packs(rxs[g], 0, groups[g])
  }

  /** The `k`-th reply to the request is the first that ends a dump: an error, or the end of the listing. */
  ghost predicate DumpEnds(rs: seq<Reply>, k: nat) {
    && k <= |rs|
    && (forall i :: 0 <= i < k ==> rs[i].Data? || (rs[i].Result? && rs[i].code == 0))
    && (k < |rs| ==> rs[k].Done? || (rs[k].Result? && rs[k].code != 0))
  }

  /** However the replies are grouped into datagrams, a dump delivers exactly the attributes of its type, large enough,
      that come before the reply that ends it, in order and cut to size; it ends well at the end of the listing, badly
      at an error, and waits if there is neither. */
  lemma DumpDeliversExactly(
      attr: u16, size: nat, seqno: u32, rxs: seq<Bytes>, groups: seq<seq<Msg>>, answers: seq<Answer>, k: nat)
    returns (ids: seq<int>)
    requires Carry(rxs, groups, answers) && DumpEnds(Mine(seqno, answers), k)
    ensures var w, rs := WalkAll(Dump(attr, size), seqno, rxs), Mine(seqno, answers);
            && PlacesOf(AllAttrs(rs[..k]), attr, size, ids) && ValuesAt(AllAttrs(rs[..k]), size, ids, w.values)
            && w.end == if k == |rs| then Waiting
                        else if rs[k].Done? then End.Finished else End.Failed(ErrorCode(rs[k].code))
  {
    hide WalkAll, MsgsOf, Flatten, Packs, WellFormed, Sendable, Mine, Collected, PlacesOf, ValuesAt, Matching, AllAttrs;
    var purpose, rs := Dump(attr, size), Mine(seqno, answers);
    assert ClosedAt(purpose, rs, k);
    DatagramsMeaning(purpose, seqno, rxs, groups, answers, k);
    CollectedFromAll(purpose, rs[..k]);
    ids := MatchingPicks(AllAttrs(rs[..k]), attr, size);
    assert Collected(purpose, rs[..k]) + [] == Collected(purpose, rs[..k]);
  }

  /** The `k`-th reply to the request is the first that ends a fetch: one with an attribute of the type, an error, or
      the end of a listing. */
  ghost predicate FetchEnds(attr: u16, rs: seq<Reply>, k: nat) {
    && k <= |rs|
    && (forall i :: 0 <= i < k ==>
          || (rs[i].Data? && forall j :: 0 <= j < |rs[i].attrs| ==> rs[i].attrs[j].ty != attr)
          || (rs[i].Result? && rs[i].code == 0))
    && (k < |rs| && rs[k].Data? ==> exists j :: FirstOfType(rs[k].attrs, attr, j))
    && (k < |rs| && rs[k].Result? ==> rs[k].code != 0)
  }

  /** However the replies are grouped, a fetch gives the first attribute of its type in the reply that ends it, cut to
      size, if that reply has one and it is large enough. */
  lemma FetchGivesExactly(
      attr: u16, size: nat, seqno: u32, rxs: seq<Bytes>, groups: seq<seq<Msg>>, answers: seq<Answer>, k: nat, i: int)
    requires Carry(rxs, groups, answers) && FetchEnds(attr, Mine(seqno, answers), k)
    requires var rs := Mine(seqno, answers);
             k < |rs| && rs[k].Data? ==> FirstOfType(rs[k].attrs, attr, i)
    ensures var w, rs := WalkAll(Fetch(attr, size), seqno, rxs), Mine(seqno, answers);
            if k == |rs| then w == Walk([], Waiting)
            else match rs[k]
                 case Data(_, _, _, attrs) =>
                   w == if |attrs[i].payload| < size then Walk([], End.Failed(TooSmall))
                        else Walk([attrs[i].payload[..size]], End.Finished)
                 case Result(code, _) => w == Walk([], End.Failed(ErrorCode(code)))
                 case Done(_) => w == Walk([], End.Failed(NoResponse))
  {
    hide WalkAll, MsgsOf, Flatten, Packs, WellFormed, Sendable, Mine;
    var purpose, rs := Fetch(attr, size), Mine(seqno, answers);
    assert ClosedAt(purpose, rs, k);
    DatagramsMeaning(purpose, seqno, rxs, groups, answers, k);
    if k < |rs| && rs[k].Data? {
      FirstMatchingFrom(rs[k].attrs, attr, size, i);
    }
  }

  /** An acknowledged request delivers nothing. The first result, or end of a listing, ends it: well, unless it is an
      error. */
  lemma AckEndsExactly(
      seqno: u32, rxs: seq<Bytes>, groups: seq<seq<Msg>>, answers: seq<Answer>, k: nat)
    requires Carry(rxs, groups, answers) && k <= |Mine(seqno, answers)|
    requires var rs := Mine(seqno, answers);
             (forall i :: 0 <= i < k ==> rs[i].Data?) && (k < |rs| ==> !rs[k].Data?)
    ensures var w, rs := WalkAll(Ack, seqno, rxs), Mine(seqno, answers);
            w == Walk([], if k == |rs| then Waiting
                          else if rs[k].Result? && rs[k].code != 0 then End.Failed(ErrorCode(rs[k].code))
                          else End.Finished)
  {
    hide WalkAll, MsgsOf, Flatten, Packs, WellFormed, Sendable, Mine;
    assert ClosedAt(Ack, Mine(seqno, answers), k);
    DatagramsMeaning(Ack, seqno, rxs, groups, answers, k);
  }
}

/** `dump`, which prints the configuration as commands, and `script`, which runs commands from text. */
module DumpScript {
  import opened Wrappers
  import opened Ints
  import opened Net
  import opened Text
  import opened Helper
  import opened Commands

  /** The order in which the kernel lists a table, and how the commands go that only look or manage interfaces. */
  datatype Listing = Listing(
    egress: Kernel -> seq<EgressKey>,
    users: Kernel -> seq<u8>,
    aside: (Kernel, seq<string>) -> Outcome)

  ghost predicate Complete(ls: Listing) {
    && (forall k :: Enumerates(ls.egress(k), k.egress))
    && (forall k :: Enumerates(ls.users(k), k.users))
  }

  // ---- Running a script ----

  predicate LeavesTables(word: string) {
    word == "load" || word == "unload" || word == "status" || word == "dump"
  }

  /** One split command line. Other words, which are `version`, `reaper` and unknown commands, succeed. */
  function Dispatch(env: Env, ls: Listing, k: Kernel, words: seq<string>): (Kernel, Outcome)
    requires words != []
  {
    var args := words[1..];
    if words[0] == "server" then ServerMode(k, args, CALM)
    else if words[0] == "client" then ClientMode(k, CALM)
    else if words[0] == "client-add" then ClientAdd(env, k, args, CALM)
    else if words[0] == "client-del" then ClientDel(env, k, args, ls.egress(k), CALM)
    else if words[0] == "server-add" then ServerAdd(env, k, args, CALM)
    else if words[0] == "server-del" then ServerDel(env, k, args, CALM)
    else if LeavesTables(words[0]) then (k, ls.aside(k, words))
    else (k, Ok)
  }

  function RunPiece(env: Env, ls: Listing, k: Kernel, piece: string): (Kernel, Outcome) {
    var text := Trim(piece);
    if text == "" then (k, Ok)
    else
      match env.lib.split(text)
      case None => (k, Err(ParseError))
      case Some(words) => if words == [] then (k, Ok) else Dispatch(env, ls, k, words)
  }

  function RunPieces(env: Env, ls: Listing, k: Kernel, pieces: seq<string>): (Kernel, Outcome)
    decreases |pieces|
  {
    if pieces == [] then (k, Ok)
    else
      var (k1, r) := RunPiece(env, ls, k, pieces[0]);
      if r != Ok then (k1, r) else RunPieces(env, ls, k1, pieces[1..])
  }

  function RunLine(env: Env, ls: Listing, k: Kernel, line: string): (Kernel, Outcome) {
    var raw := Trim(line);
    if raw == "" || raw[0] == '#' then (k, Ok) else RunPieces(env, ls, k, SplitOn(raw, ';'))
  }

  /** The tables and the outcome after the lines, stopping at the first failure. */
  function RunLines(env: Env, ls: Listing, k: Kernel, lines: seq<string>): (Kernel, Outcome)
    decreases |lines|
  {
    if lines == [] then (k, Ok)
    else
      var (k1, r) := RunLine(env, ls, k, lines[0]);
      if r != Ok then (k1, r) else RunLines(env, ls, k1, lines[1..])
  }

  method RunCommand(tool: Ktuctl, ls: Listing, words: seq<string>) returns (r: Outcome)
    requires words != [] && Complete(ls)
    modifies tool
    ensures (tool.kernel, r) == Dispatch(tool.env, ls, old(tool.kernel), words)
  {
    var args := words[1..];
    match words[0]
    case "server" => r := tool.ServerModeCmd(args, CALM);
    case "client" => r := tool.ClientModeCmd(CALM);
    case "client-add" => r := tool.ClientAddCmd(args, CALM);
    case "client-del" => r := tool.ClientDelCmd(args, ls.egress(tool.kernel), CALM);
    case "server-add" => r := tool.ServerAddCmd(args, CALM);
    case "server-del" => r := tool.ServerDelCmd(args, CALM);
    case _ => r := if LeavesTables(words[0]) then ls.aside(tool.kernel, words) else Ok;
  }

  method CmdScript(tool: Ktuctl, ls: Listing, lines: seq<string>) returns (r: Outcome)
    requires Complete(ls)
    modifies tool
    ensures (tool.kernel, r) == RunLines(tool.env, ls, old(tool.kernel), lines)
  {
    ghost var whole := RunLines(tool.env, ls, tool.kernel, lines);
    for i := 0 to |lines|
      invariant RunLines(tool.env, ls, tool.kernel, lines[i..]) == whole
    {
      assert lines[i..][1..] == lines[i + 1..];
      var raw := Trim(lines[i]);
      if raw == "" || raw[0] == '#' {
        continue;
      }
      r := RunLineOf(tool, ls, SplitOn(raw, ';'));
      if r != Ok {
        return;
      }
    }
    r := Ok;
  }

  method RunLineOf(tool: Ktuctl, ls: Listing, pieces: seq<string>) returns (r: Outcome)
    requires Complete(ls)
    modifies tool
    ensures (tool.kernel, r) == RunPieces(tool.env, ls, old(tool.kernel), pieces)
  {
    ghost var whole := RunPieces(tool.env, ls, tool.kernel, pieces);
    for i := 0 to |pieces|
      invariant RunPieces(tool.env, ls, tool.kernel, pieces[i..]) == whole
    {
      assert pieces[i..][1..] == pieces[i + 1..];
      var text := Trim(pieces[i]);
      if text == "" {
        continue;
      }
      var words := tool.env.lib.split(text);
      if words == None {
        return Err(ParseError);
      }
      if words.value == [] {
        continue;
      }
      r := RunCommand(tool, ls, words.value);
      if r != Ok {
        return;
      }
    }
    r := Ok;
  }

  // ---- Printing a dump ----

  /** `format_comment` for a dump. */
  function CommentPart(env: Env, c: Comment): string {
    var text := env.lib.lossy(UpToNul(c));
    if text == "" then "" else " comment " + text
  }

  function XorPart(key: Key, len: u8): string {
    if len > 0 then " xor " + HexOf(Used(key, len)) else ""
  }

  function PeerLine(env: Env, key: EgressKey, v: EgressValue): string {
    "client-add " + DumpedUser(env, v.uid) + " addr " + AddrText(env, key.address)
    + " port " + PrintDec(Swap16(key.port)) + XorPart(v.xorKey, v.xorKeyLen) + CommentPart(env, v.comment)
  }

  function UserLine(env: Env, uid: u8, u: UserInfo): string {
    "server-add " + DumpedUser(env, uid) + " addr " + AddrText(env, u.address)
    + " icmp-id " + PrintDec(Swap16(u.icmpId)) + " port " + PrintDec(Swap16(u.dport))
    + XorPart(u.xorKey, u.xorKeyLen) + CommentPart(env, u.comment)
  }

  function PeerLines(env: Env, k: Kernel, dump: seq<EgressKey>): seq<string> {
    if dump == [] then []
    else if dump[0] in k.egress && Swap16(dump[0].port) != 0 then
      [PeerLine(env, dump[0], k.egress[dump[0]])] + PeerLines(env, k, dump[1..])
    else PeerLines(env, k, dump[1..])
  }

  function UserLines(env: Env, k: Kernel, dump: seq<u8>): seq<string> {
    if dump == [] then []
    else if dump[0] in k.users then [UserLine(env, dump[0], k.users[dump[0]])] + UserLines(env, k, dump[1..])
    else UserLines(env, k, dump[1..])
  }

  /** The lines of a dump made at the time shown by `stamp`. */
  function DumpLines(env: Env, ls: Listing, k: Kernel, stamp: string): seq<string> {
    var head := ["#!/sbin/ktuctl script -", "# Auto-generated by \"ktuctl dump\" on " + stamp, ""];
    if k.config.isServer != 0 then
      head + ["server max-age " + PrintDec(k.config.sessionMaxAge), ""] + UserLines(env, k, ls.users(k))
    else
      head + ["client"] + PeerLines(env, k, ls.egress(k))
  }

  method DumpUsers(env: Env, k: Kernel, dump: seq<u8>) returns (lines: seq<string>)
    requires Enumerates(dump, k.users)
    ensures lines == UserLines(env, k, dump)
  {
    hide UserLine;
    lines := [];
    for i := 0 to |dump|
      invariant lines + UserLines(env, k, dump[i..]) == UserLines(env, k, dump)
    {
      assert dump[i] in dump && dump[i..][1..] == dump[i + 1..];
      var line := UserLine(env, dump[i], k.users[dump[i]]);
      assert UserLines(env, k, dump[i..]) == [line] + UserLines(env, k, dump[i + 1..]);
      lines := lines + [line];
    }
  }

  method DumpPeers(env: Env, k: Kernel, dump: seq<EgressKey>) returns (lines: seq<string>)
    requires Enumerates(dump, k.egress)
    ensures lines == PeerLines(env, k, dump)
  {
    hide PeerLine;
    lines := [];
    for i := 0 to |dump|
      invariant lines + PeerLines(env, k, dump[i..]) == PeerLines(env, k, dump)
    {
      assert dump[i] in dump && dump[i..][1..] == dump[i + 1..];
      if Swap16(dump[i].port) != 0 {
        var line := PeerLine(env, dump[i], k.egress[dump[i]]);
        assert PeerLines(env, k, dump[i..]) == [line] + PeerLines(env, k, dump[i + 1..]);
        lines := lines + [line];
      } else {
        assert PeerLines(env, k, dump[i..]) == PeerLines(env, k, dump[i + 1..]);
      }
    }
  }

  method CmdDump(tool: Ktuctl, ls: Listing, stamp: string) returns (lines: seq<string>)
    requires Complete(ls)
    ensures lines == DumpLines(tool.env, ls, tool.kernel, stamp)
  {
    var k, env := tool.kernel, tool.env;
    lines := ["#!/sbin/ktuctl script -", "# Auto-generated by \"ktuctl dump\" on " + stamp, ""];
    if k.config.isServer != 0 {
      var users := DumpUsers(env, k, ls.users(k));
      lines := lines + ["server max-age " + PrintDec(k.config.sessionMaxAge), ""] + users;
    } else {
      var peers := DumpPeers(env, k, ls.egress(k));
      lines := lines + ["client"] + peers;
    }
  }

  // ---- Lines as keyword and value pairs ----

  function Flat(ps: seq<(string, string)>): (r: seq<string>)
    ensures |r| == 2 * |ps|
  {
    if ps == [] then [] else [ps[0].0, ps[0].1] + Flat(ps[1..])
  }

  function Spelled(ps: seq<(string, string)>): string {
    if ps == [] then "" else " " + ps[0].0 + " " + ps[0].1 + Spelled(ps[1..])
  }

  lemma JoinCons(w: string, ws: seq<string>)
    requires ws != []
    ensures Join([w] + ws) == w + " " + Join(ws)
  {
    assert ([w] + ws)[1..] == ws;
  }

  lemma Regrouped(cmd: string, kw: string, value: string, rest: string)
    ensures cmd + " " + (kw + " " + (value + rest)) == cmd + (" " + kw + " " + value + rest)
  {
  }

  lemma {:induction false} SpelledIsJoined(cmd: string, ps: seq<(string, string)>)
    ensures Join([cmd] + Flat(ps)) == cmd + Spelled(ps)
    decreases |ps|
  {
    if ps == [] {
      assert [cmd] + Flat(ps) == [cmd];
    } else {
      hide Join;
      var kw, value, rest := ps[0].0, ps[0].1, Flat(ps[1..]);
      assert Flat(ps) == [kw] + ([value] + rest);
      JoinCons(cmd, [kw] + ([value] + rest));
      JoinCons(kw, [value] + rest);
      SpelledIsJoined(value, ps[1..]);
      Regrouped(cmd, kw, value, Spelled(ps[1..]));
    }
  }

  /** Reading pairs of a known keyword and its value. */
  function ReadPairs(env: Env, ps: seq<(string, string)>, a: Args): Result<Args, Error> {
    if ps == [] then Success(a)
    else
      match SetArg(env, a, KeywordOf(ps[0].0), ps[0].1)
      case Failure(e) => Failure(e)
      case Success(b) => ReadPairs(env, ps[1..], b)
  }

  lemma {:induction false} ScanPrefix(
      env: Env, form: Form, before: seq<string>, ps: seq<(string, string)>, after: seq<string>, a: Args)
    requires forall p :: p in ps ==> Knows(form, KeywordOf(p.0))
    ensures Scan(env, form, before + Flat(ps) + after, |before|, a)
         == match ReadPairs(env, ps, a)
            case Failure(e) => Failure(e)
            case Success(b) => Scan(env, form, before + Flat(ps) + after, |before| + 2 * |ps|, b)
    decreases |ps|
  {
    hide SetArg, KeywordOf, Knows;
    if ps == [] {
    } else {
      var args := before + Flat(ps) + after;
      var longer := before + [ps[0].0, ps[0].1];
      assert args == longer + Flat(ps[1..]) + after;
      assert args[|before|] == ps[0].0 && args[|before| + 1] == ps[0].1;
      assert ps[0] in ps;
      var next := SetArg(env, a, KeywordOf(ps[0].0), ps[0].1);
      if next.Success? {
        ScanPrefix(env, form, longer, ps[1..], after, next.value);
      }
    }
  }

  lemma ScanIsReadPairs(env: Env, form: Form, ps: seq<(string, string)>)
    requires forall p :: p in ps ==> Knows(form, KeywordOf(p.0))
    ensures Scan(env, form, Flat(ps), 0, NO_ARGS) == ReadPairs(env, ps, NO_ARGS)
  {
    ScanPrefix(env, form, [], ps, [], NO_ARGS);
    assert [] + Flat(ps) + [] == Flat(ps);
  }

  lemma KeywordTable()
    ensures KeywordOf("addr") == KwAddress && KeywordOf("port") == KwPort && KeywordOf("icmp-id") == KwIcmpId
    ensures KeywordOf("uid") == KwUid && KeywordOf("user") == KwUid
    ensures KeywordOf("comment") == KwComment && KeywordOf("xor") == KwXor
  {
    assert "addr"[0] == 'a' && "port"[0] == 'p' && "icmp-id"[0] == 'i' && "comment"[0] == 'c' && "xor"[0] == 'x';
    assert "uid"[0] == 'u' && "user"[0] == 'u' && "address"[0] == 'a';
  }

  /** A line of safe words runs as one command. */
  lemma SafeLineRuns(env: Env, ls: Listing, k: Kernel, ws: seq<string>)
    requires Honest(env.lib) && ws != [] && ws[0] != "" && forall w :: w in ws ==> SafeWord(w)
    requires SafeChar(ws[0][0])
    ensures RunLine(env, ls, k, Join(ws)) == Dispatch(env, ls, k, ws)
  {
    var line := Join(ws);
    JoinSafe(ws);
    assert line[0] in ws[0] && ws[0] in ws;
    TrimNothing(line);
    SplitNothing(line, ';');
    assert env.lib.split(line) == Some(ws);
    assert RunPieces(env, ls, k, [line]) == RunPiece(env, ls, k, line) by {
      assert [line][1..] == [];
    }
  }

  // ---- One dumped line, read back ----

  function XorPairs(key: Key, len: u8): seq<(string, string)> {
    if len > 0 then [("xor", HexOf(Used(key, len)))] else []
  }

  function CommentPairs(c: Comment): seq<(string, string)> {
    if UpToNul(c) == "" then [] else [("comment", UpToNul(c))]
  }

  /** A key field as the tool fills it: at most 64 bytes, zeros behind. */
  ghost predicate KeyRestorable(key: Key, len: u8) {
    len <= XOR_KEY_MAX && key == Padded(key[..len])
  }

  /** A comment that is one safe word, or nothing. */
  ghost predicate CommentSpeaks(c: Comment) {
    UpToNul(c) == "" || SafeWord(UpToNul(c))
  }

  /** A comment field that holds such a comment, and NULs behind. */
  ghost predicate CommentRestorable(c: Comment) {
    CommentSpeaks(c) && Copied(UpToNul(c)) == c
  }

  ghost predicate UserRestorable(env: Env, uid: u8) {
    UserReadsBack(env, uid) && SafeWord(UserWords(env, uid).1)
  }

  ghost predicate AddressRestorable(env: Env, a: Addr) {
    !IsCompatible(a) && FamilyAdmits(env.family, Shown(a))
  }

  ghost predicate PeerRestorable(env: Env, key: EgressKey, v: EgressValue) {
    && UserRestorable(env, v.uid) && AddressRestorable(env, key.address)
    && KeyRestorable(v.xorKey, v.xorKeyLen) && CommentRestorable(v.comment)
  }

  ghost predicate InfoRestorable(env: Env, uid: u8, u: UserInfo) {
    && UserRestorable(env, uid) && AddressRestorable(env, u.address)
    && KeyRestorable(u.xorKey, u.xorKeyLen) && CommentRestorable(u.comment)
  }

  /** The pairs of a line before its comment. */
  function PeerFront(env: Env, key: EgressKey, v: EgressValue): seq<(string, string)> {
    [UserWords(env, v.uid), ("addr", AddrText(env, key.address)), ("port", PrintDec(Swap16(key.port)))]
    + XorPairs(v.xorKey, v.xorKeyLen)
  }

  function InfoFront(env: Env, uid: u8, u: UserInfo): seq<(string, string)> {
    [UserWords(env, uid), ("addr", AddrText(env, u.address)),
     ("icmp-id", PrintDec(Swap16(u.icmpId))), ("port", PrintDec(Swap16(u.dport)))]
    + XorPairs(u.xorKey, u.xorKeyLen)
  }

  function PeerPairs(env: Env, key: EgressKey, v: EgressValue): seq<(string, string)> {
    PeerFront(env, key, v) + CommentPairs(v.comment)
  }

  function InfoPairs(env: Env, uid: u8, u: UserInfo): seq<(string, string)> {
    InfoFront(env, uid, u) + CommentPairs(u.comment)
  }

  lemma {:induction false} SpelledAppend(ps: seq<(string, string)>, qs: seq<(string, string)>)
    ensures Spelled(ps + qs) == Spelled(ps) + Spelled(qs)
  {
    if ps == [] {
      assert ps + qs == qs;
    } else {
      assert (ps + qs)[1..] == ps[1..] + qs;
      SpelledAppend(ps[1..], qs);
    }
  }

  lemma SpelledOne(kw: string, value: string)
    ensures Spelled([(kw, value)]) == " " + kw + " " + value
  {
  }

  /** A line grows by a pair; `sep` is its keyword between spaces. */
  lemma LineGrows(line: string, cmd: string, ps: seq<(string, string)>, kw: string, value: string, sep: string)
    requires line == cmd + Spelled(ps) && sep == " " + kw + " "
    ensures line + sep + value == cmd + Spelled(ps + [(kw, value)])
  {
    hide Spelled;
    SpelledAppend(ps, [(kw, value)]);
    SpelledOne(kw, value);
  }

  lemma SafeIsAscii(w: string)
    requires SafeWord(w)
    ensures IsAscii(w)
  {
  }

  lemma XorSpelled(key: Key, len: u8)
    ensures XorPart(key, len) == Spelled(XorPairs(key, len))
  {
    hide HexOf;
    SpelledOne("xor", HexOf(Used(key, len)));
    assert " xor " == " " + "xor" + " ";
  }

  lemma CommentSpelled(env: Env, c: Comment)
    requires Honest(env.lib) && CommentSpeaks(c)
    ensures CommentPart(env, c) == Spelled(CommentPairs(c))
  {
    var text := UpToNul(c);
    hide UpToNul, Copied;
    if text != "" {
      SafeIsAscii(text);
    }
    assert env.lib.lossy(text) == text;
    SpelledOne("comment", text);
    assert " comment " == " " + "comment" + " ";
  }

  /** The start of a line: the command, the user and the address. */
  lemma LineStarts(env: Env, start: string, cmd: string, uid: u8, a: Addr)
    requires start == cmd + " "
    ensures start + DumpedUser(env, uid) + " addr " + AddrText(env, a)
         == cmd + Spelled([UserWords(env, uid), ("addr", AddrText(env, a))])
  {
    hide UserWords, AddrText, Spelled;
    var w, addr := UserWords(env, uid), AddrText(env, a);
    SpelledOne(w.0, w.1);
    assert start + DumpedUser(env, uid) == cmd + Spelled([w]);
    LineGrows(start + DumpedUser(env, uid), cmd, [w], "addr", addr, " addr ");
    assert [w] + [("addr", addr)] == [w, ("addr", addr)];
  }

  lemma PeerFrontSpelled(env: Env, key: EgressKey, v: EgressValue) returns (line: string)
    ensures PeerLine(env, key, v) == line + CommentPart(env, v.comment)
    ensures line == "client-add" + Spelled(PeerFront(env, key, v))
  {
    hide DumpedUser, UserWords, AddrText, XorPart, CommentPart, XorPairs, Spelled, PrintDec, Swap16;
    var w, addr, port := UserWords(env, v.uid), AddrText(env, key.address), PrintDec(Swap16(key.port));
    var start := "client-add " + DumpedUser(env, v.uid) + " addr " + addr;
    var ps := [w, ("addr", addr)] + [("port", port)];
    LineStarts(env, "client-add ", "client-add", v.uid, key.address);
    LineGrows(start, "client-add", [w, ("addr", addr)], "port", port, " port ");
    XorSpelled(v.xorKey, v.xorKeyLen);
    SpelledAppend(ps, XorPairs(v.xorKey, v.xorKeyLen));
    assert ps == [w, ("addr", addr), ("port", port)];
    line := start + " port " + port + XorPart(v.xorKey, v.xorKeyLen);
  }

  lemma InfoFrontSpelled(env: Env, uid: u8, u: UserInfo) returns (line: string)
    ensures UserLine(env, uid, u) == line + CommentPart(env, u.comment)
    ensures line == "server-add" + Spelled(InfoFront(env, uid, u))
  {
    hide DumpedUser, UserWords, AddrText, XorPart, CommentPart, XorPairs, Spelled, PrintDec, Swap16;
    var w, addr := UserWords(env, uid), AddrText(env, u.address);
    var icmp, port := PrintDec(Swap16(u.icmpId)), PrintDec(Swap16(u.dport));
    var start := "server-add " + DumpedUser(env, uid) + " addr " + addr;
    var ps := [w, ("addr", addr)] + [("icmp-id", icmp)];
    LineStarts(env, "server-add ", "server-add", uid, u.address);
    LineGrows(start, "server-add", [w, ("addr", addr)], "icmp-id", icmp, " icmp-id ");
    LineGrows(start + " icmp-id " + icmp, "server-add", ps, "port", port, " port ");
    XorSpelled(u.xorKey, u.xorKeyLen);
    SpelledAppend(ps + [("port", port)], XorPairs(u.xorKey, u.xorKeyLen));
    assert ps + [("port", port)] == [w, ("addr", addr), ("icmp-id", icmp), ("port", port)];
    line := start + " icmp-id " + icmp + " port " + port + XorPart(u.xorKey, u.xorKeyLen);
  }

  lemma PeerLineSpelled(env: Env, key: EgressKey, v: EgressValue)
    requires Honest(env.lib) && CommentSpeaks(v.comment)
    ensures PeerLine(env, key, v) == "client-add" + Spelled(PeerPairs(env, key, v))
  {
    hide CommentSpeaks, Honest, PeerLine, PeerFront, CommentPart, CommentPairs, Spelled;
    var _ := PeerFrontSpelled(env, key, v);
    CommentSpelled(env, v.comment);
    SpelledAppend(PeerFront(env, key, v), CommentPairs(v.comment));
  }

  lemma UserLineSpelled(env: Env, uid: u8, u: UserInfo)
    requires Honest(env.lib) && CommentSpeaks(u.comment)
    ensures UserLine(env, uid, u) == "server-add" + Spelled(InfoPairs(env, uid, u))
  {
    hide CommentSpeaks, Honest, UserLine, InfoFront, CommentPart, CommentPairs, Spelled;
    var _ := InfoFrontSpelled(env, uid, u);
    CommentSpelled(env, u.comment);
    SpelledAppend(InfoFront(env, uid, u), CommentPairs(u.comment));
  }

  // ---- Safety of the words ----

  ghost predicate SafePairs(ps: seq<(string, string)>) {
    forall p :: p in ps ==> SafeWord(p.0) && SafeWord(p.1)
  }

  lemma {:induction false} FlatSafe(ps: seq<(string, string)>)
    requires SafePairs(ps)
    ensures forall w :: w in Flat(ps) ==> SafeWord(w)
  {
    if ps == [] {
    } else {
      FlatSafe(ps[1..]);
      assert ps[0] in ps;
    }
  }

  lemma {:induction false} HexOfSafe(b: Bytes)
    ensures forall c :: c in HexOf(b) ==> SafeChar(c)
  {
    if b == [] {
    } else {
      HexOfSafe(b[1..]);
    }
  }

  lemma KeywordsSafe()
    ensures SafeWord("client-add") && SafeWord("server-add") && SafeWord("addr") && SafeWord("port")
    ensures SafeWord("icmp-id") && SafeWord("uid") && SafeWord("user") && SafeWord("xor") && SafeWord("comment")
    ensures SafeWord("client") && SafeWord("server") && SafeWord("max-age")
  {
    hide SafeWord;
    CommandsSafe();
    PeerKeywordsSafe();
    OtherKeywordsSafe();
  }

  lemma CommandsSafe()
    ensures SafeWord("client-add") && SafeWord("server-add") && SafeWord("client") && SafeWord("server")
  {
  }

  lemma PeerKeywordsSafe()
    ensures SafeWord("uid") && SafeWord("user") && SafeWord("addr") && SafeWord("port")
  {
  }

  lemma OtherKeywordsSafe()
    ensures SafeWord("icmp-id") && SafeWord("xor") && SafeWord("comment") && SafeWord("max-age")
  {
  }

  lemma XorPairsSafe(key: Key, len: u8)
    ensures SafePairs(XorPairs(key, len))
  {
    KeywordsSafe();
    HexOfSafe(Used(key, len));
  }

  lemma PeerFrontSafe(env: Env, key: EgressKey, v: EgressValue)
    requires Honest(env.lib) && SafeWord(UserWords(env, v.uid).1)
    ensures SafePairs(PeerFront(env, key, v))
  {
    KeywordsSafe();
    PrintDecSafe(Swap16(key.port));
    XorPairsSafe(v.xorKey, v.xorKeyLen);
    assert SafeWord(AddrText(env, key.address));
  }

  lemma InfoFrontSafe(env: Env, uid: u8, u: UserInfo)
    requires Honest(env.lib) && SafeWord(UserWords(env, uid).1)
    ensures SafePairs(InfoFront(env, uid, u))
  {
    KeywordsSafe();
    PrintDecSafe(Swap16(u.icmpId));
    PrintDecSafe(Swap16(u.dport));
    XorPairsSafe(u.xorKey, u.xorKeyLen);
    assert SafeWord(AddrText(env, u.address));
  }

  lemma CommentPairsSafe(c: Comment)
    requires CommentSpeaks(c)
    ensures SafePairs(CommentPairs(c))
  {
    KeywordsSafe();
  }

  lemma PeerPairsSafe(env: Env, key: EgressKey, v: EgressValue)
    requires Honest(env.lib) && SafeWord(UserWords(env, v.uid).1) && CommentSpeaks(v.comment)
    ensures SafePairs(PeerPairs(env, key, v))
  {
    hide Honest, SafeWord, CommentSpeaks, CommentPairs, PeerFront;
    PeerFrontSafe(env, key, v);
    CommentPairsSafe(v.comment);
  }

  lemma InfoPairsSafe(env: Env, uid: u8, u: UserInfo)
    requires Honest(env.lib) && SafeWord(UserWords(env, uid).1) && CommentSpeaks(u.comment)
    ensures SafePairs(InfoPairs(env, uid, u))
  {
    hide Honest, SafeWord, CommentSpeaks, CommentPairs, InfoFront;
    InfoFrontSafe(env, uid, u);
    CommentPairsSafe(u.comment);
  }

  /** A command line spelled from safe pairs of known keywords is dispatched with these pairs as arguments. */
  lemma SpelledRuns(env: Env, ls: Listing, k: Kernel, cmd: string, ps: seq<(string, string)>)
    requires Honest(env.lib) && SafeWord(cmd) && SafePairs(ps)
    ensures RunLine(env, ls, k, cmd + Spelled(ps)) == Dispatch(env, ls, k, [cmd] + Flat(ps))
  {
    SpelledIsJoined(cmd, ps);
    FlatSafe(ps);
    assert cmd[0] in cmd;
    SafeLineRuns(env, ls, k, [cmd] + Flat(ps));
  }

  // ---- Reading the pairs ----

  lemma {:induction false} ReadPairsAppend(
      env: Env, ps: seq<(string, string)>, qs: seq<(string, string)>, a: Args)
    ensures ReadPairs(env, ps + qs, a)
         == match ReadPairs(env, ps, a)
            case Failure(e) => Failure(e)
            case Success(b) => ReadPairs(env, qs, b)
  {
    if ps == [] {
      assert ps + qs == qs;
    } else {
      assert (ps + qs)[1..] == ps[1..] + qs;
      var next := SetArg(env, a, KeywordOf(ps[0].0), ps[0].1);
      if next.Success? {
        ReadPairsAppend(env, ps[1..], qs, next.value);
      }
    }
  }

  lemma ReadOne(env: Env, kw: string, value: string, a: Args)
    ensures ReadPairs(env, [(kw, value)], a) == SetArg(env, a, KeywordOf(kw), value)
  {
    assert [(kw, value)][1..] == [];
  }

  lemma ReadTail(env: Env, key: Key, len: u8, c: Comment, a: Args)
    requires a.xorHex == "" && a.comment == ""
    ensures ReadPairs(env, XorPairs(key, len) + CommentPairs(c), a)
         == Success(a.(xorHex := HexOf(Used(key, len)), comment := UpToNul(c)))
  {
    KeywordTable();
    var b := a.(xorHex := HexOf(Used(key, len)));
    ReadPairsAppend(env, XorPairs(key, len), CommentPairs(c), a);
    ReadOne(env, "xor", HexOf(Used(key, len)), a);
    ReadOne(env, "comment", UpToNul(c), b);
  }

  /** The id for which a dumped user's word stands. */
  function Target(env: Env, uid: u8): Result<u8, Error> {
    ResolveUid(env, UserWords(env, uid).1)
  }

  /** The arguments with the id, if there is one. */
  function Targeted(target: Result<u8, Error>, a: Args): Result<Args, Error> {
    if target.Failure? then Failure(target.error) else Success(a.(uid := target.value, uidSet := true))
  }

  /** What an entry's line says, but for its user. */
  function PeerArgs(env: Env, key: EgressKey, v: EgressValue): Args {
    Args(AddrText(env, key.address), Swap16(key.port), 0, 0, false,
         UpToNul(v.comment), HexOf(Used(v.xorKey, v.xorKeyLen)))
  }

  function InfoArgs(env: Env, u: UserInfo): Args {
    Args(AddrText(env, u.address), Swap16(u.dport), Swap16(u.icmpId), 0, false,
         UpToNul(u.comment), HexOf(Used(u.xorKey, u.xorKeyLen)))
  }

  lemma UserRead(env: Env, uid: u8, a: Args)
    ensures ReadPairs(env, [UserWords(env, uid)], a)
         == Targeted(Target(env, uid), a)
  {
    KeywordTable();
    ReadOne(env, UserWords(env, uid).0, UserWords(env, uid).1, a);
  }

  lemma PortRead(env: Env, port: u16, a: Args)
    ensures ReadPairs(env, [("port", PrintDec(port))], a) == Success(a.(port := port))
    ensures ReadPairs(env, [("icmp-id", PrintDec(port))], a) == Success(a.(icmpId := port))
  {
    KeywordTable();
    DecRoundTrip(port, 0xFFFF);
    ReadOne(env, "port", PrintDec(port), a);
    ReadOne(env, "icmp-id", PrintDec(port), a);
  }

  lemma AddressRead(env: Env, addr: string, a: Args)
    ensures ReadPairs(env, [("addr", addr)], a) == Success(a.(address := addr))
  {
    KeywordTable();
    ReadOne(env, "addr", addr, a);
  }

  lemma PeerPairsRead(env: Env, key: EgressKey, v: EgressValue)
    ensures ReadPairs(env, PeerPairs(env, key, v), NO_ARGS)
         == Targeted(Target(env, v.uid), PeerArgs(env, key, v))
  {
    hide ReadPairs, ResolveUid, UserWords, AddrText, XorPairs, CommentPairs, PrintDec, Swap16, HexOf, Used, UpToNul;
    var addr, port := AddrText(env, key.address), Swap16(key.port);
    var tail := XorPairs(v.xorKey, v.xorKeyLen) + CommentPairs(v.comment);
    var us, ads, ps := [UserWords(env, v.uid)], [("addr", addr)], [("port", PrintDec(port))];
    assert PeerPairs(env, key, v) == us + (ads + (ps + tail));
    UserRead(env, v.uid, NO_ARGS);
    ReadPairsAppend(env, us, ads + (ps + tail), NO_ARGS);
    var target := Target(env, v.uid);
    if target.Failure? {
      return;
    }
    var a1 := NO_ARGS.(uid := target.value, uidSet := true);
    var a2 := a1.(address := addr);
    var a3 := a2.(port := port);
    AddressRead(env, addr, a1);
    ReadPairsAppend(env, ads, ps + tail, a1);
    PortRead(env, port, a2);
    ReadPairsAppend(env, ps, tail, a2);
    ReadTail(env, v.xorKey, v.xorKeyLen, v.comment, a3);
  }

  lemma InfoPairsRead(env: Env, uid: u8, u: UserInfo)
    ensures ReadPairs(env, InfoPairs(env, uid, u), NO_ARGS)
         == Targeted(Target(env, uid), InfoArgs(env, u))
  {
    hide ReadPairs, ResolveUid, UserWords, AddrText, XorPairs, CommentPairs, PrintDec, Swap16, HexOf, Used, UpToNul;
    var addr, icmp, port := AddrText(env, u.address), Swap16(u.icmpId), Swap16(u.dport);
    var tail := XorPairs(u.xorKey, u.xorKeyLen) + CommentPairs(u.comment);
    var us, ads := [UserWords(env, uid)], [("addr", addr)];
    var ics, ps := [("icmp-id", PrintDec(icmp))], [("port", PrintDec(port))];
    assert InfoPairs(env, uid, u) == us + (ads + (ics + (ps + tail)));
    UserRead(env, uid, NO_ARGS);
    ReadPairsAppend(env, us, ads + (ics + (ps + tail)), NO_ARGS);
    var target := Target(env, uid);
    if target.Failure? {
      return;
    }
    var a1 := NO_ARGS.(uid := target.value, uidSet := true);
    var a2 := a1.(address := addr);
    var a3 := a2.(icmpId := icmp);
    var a4 := a3.(port := port);
    AddressRead(env, addr, a1);
    ReadPairsAppend(env, ads, ics + (ps + tail), a1);
    PortRead(env, icmp, a2);
    ReadPairsAppend(env, ics, ps + tail, a2);
    PortRead(env, port, a3);
    ReadPairsAppend(env, ps, tail, a3);
    ReadTail(env, u.xorKey, u.xorKeyLen, u.comment, a4);
  }

  lemma KeyReads(key: Key, len: u8)
    requires KeyRestorable(key, len)
    ensures Commands.KeyOf(HexOf(Used(key, len))) == Success((key, len))
  {
    if len == 0 {
      assert Used(key, len) == [] && key[..0] == [];
    } else {
      XorFormatParse(key, len);
    }
  }

  /** What a dumped line says resolves to, its user's word standing for `target`. */
  lemma EntryResolves(
      env: Env, k: Kernel, mode: bool, address: Addr, port: u16, icmp: u16, target: u8, text: string, key: Key, len: u8)
    requires Honest(env.lib) && (k.config.isServer != 0) == mode && KeyRestorable(key, len)
    ensures Resolve(env, k, Args(AddrText(env, address), Swap16(port), icmp, target, true, text, HexOf(Used(key, len))),
                    mode, true)
         == if port == 0 then Failure(Unspecified)
            else if !FamilyAdmits(env.family, Shown(address)) then Failure(NoSuitableAddress)
            else Success(Peer(ToAddr(Shown(address)), port, target, Copied(text), key, len))
  {
    hide Shown, ToAddr, FamilyAdmits, HexOf, Used, KeyRestorable, Copied, ResolveIp, Commands.KeyOf, Swap16, AddrText;
    Swap16Twice(port);
    AddrResolves(env, address);
    KeyReads(key, len);
    AddressIsWord(env, address);
  }

  lemma AddressIsWord(env: Env, a: Addr)
    requires Honest(env.lib)
    ensures AddrText(env, a) != ""
  {
    assert SafeWord(AddrText(env, a));
  }

  function PeerOf(key: EgressKey, v: EgressValue): Peer {
    Peer(key.address, key.port, v.uid, v.comment, v.xorKey, v.xorKeyLen)
  }

  /** What can be read of an entry: its user's word is safe, its key filled, its comment one word at most. */
  ghost predicate PeerLegible(env: Env, v: EgressValue) {
    SafeWord(UserWords(env, v.uid).1) && KeyRestorable(v.xorKey, v.xorKeyLen) && CommentSpeaks(v.comment)
  }

  /** The entry that a legible line adds. */
  function PeerRead(key: EgressKey, v: EgressValue, target: u8): Peer {
    Peer(ToAddr(Shown(key.address)), key.port, target, Copied(UpToNul(v.comment)), v.xorKey, v.xorKeyLen)
  }

  /** A legible entry's line runs as a `client-add` whose arguments scan to the entry's fields. */
  lemma PeerLineDispatched(env: Env, ls: Listing, k: Kernel, key: EgressKey, v: EgressValue)
    returns (args: seq<string>)
    requires Honest(env.lib) && PeerLegible(env, v)
    ensures RunLine(env, ls, k, PeerLine(env, key, v)) == ClientAdd(env, k, args, CALM)
    ensures Scan(env, ClientAddForm, args, 0, NO_ARGS)
         == Targeted(Target(env, v.uid), PeerArgs(env, key, v))
  {
    hide Honest, RunLine, PeerLine, PeerPairs, ClientAdd, Scan, KeyRestorable, CommentSpeaks,
         Swap16, HexOf, UpToNul, Used, AddrText, UserWords, ResolveUid;
    var ps := PeerPairs(env, key, v);
    args := Flat(ps);
    PeerLineSpelled(env, key, v);
    PeerPairsSafe(env, key, v);
    KeywordsSafe();
    SpelledRuns(env, ls, k, "client-add", ps);
    assert (["client-add"] + args)[1..] == args;
    PeerPairsKnown(env, key, v);
    ScanIsReadPairs(env, ClientAddForm, ps);
    PeerPairsRead(env, key, v);
  }

  /** Running the line of a legible entry adds what was read, or fails for want of an id or an address. */
  lemma PeerLineDoes(env: Env, ls: Listing, k: Kernel, key: EgressKey, v: EgressValue)
    requires Honest(env.lib) && PeerLegible(env, v) && key.port != 0 && k.config.isServer == 0
    ensures var ran := RunLine(env, ls, k, PeerLine(env, key, v));
            if Target(env, v.uid).Success? && FamilyAdmits(env.family, Shown(key.address)) then
              ran == AddPeer(k, PeerRead(key, v, Target(env, v.uid).value), CALM)
            else ran.1 != Ok && ran.0 == k
  {
    hide Honest, RunLine, PeerLine, AddPeer, Resolve, Scan, KeyRestorable, CommentSpeaks, SafeWord,
         Swap16, HexOf, UpToNul, Used, AddrText, UserWords, ResolveUid, Shown, ToAddr, FamilyAdmits, Copied;
    var args := PeerLineDispatched(env, ls, k, key, v);
    if Target(env, v.uid).Success? {
      EntryResolves(env, k, false, key.address, key.port, 0, Target(env, v.uid).value, UpToNul(v.comment),
                    v.xorKey, v.xorKeyLen);
    }
  }

  /** Running the line of a restorable entry in client mode adds the entry. */
  lemma PeerLineAdds(env: Env, ls: Listing, k: Kernel, key: EgressKey, v: EgressValue)
    requires Honest(env.lib) && PeerRestorable(env, key, v) && key.port != 0 && k.config.isServer == 0
    ensures RunLine(env, ls, k, PeerLine(env, key, v)) == AddPeer(k, PeerOf(key, v), CALM)
  {
    hide RunLine, PeerLine, AddPeer, Shown, ToAddr, ResolveUid, UserWords;
    ShownReadBack(key.address);
    PeerLineDoes(env, ls, k, key, v);
  }

  lemma PeerPairsKnown(env: Env, key: EgressKey, v: EgressValue)
    ensures forall p :: p in PeerPairs(env, key, v) ==> Knows(ClientAddForm, KeywordOf(p.0))
  {
    KeywordTable();
  }

  lemma InfoPairsKnown(env: Env, uid: u8, u: UserInfo)
    ensures forall p :: p in InfoPairs(env, uid, u) ==> Knows(ServerAddForm, KeywordOf(p.0))
  {
    KeywordTable();
  }

  ghost predicate InfoLegible(env: Env, uid: u8, u: UserInfo) {
    SafeWord(UserWords(env, uid).1) && KeyRestorable(u.xorKey, u.xorKeyLen) && CommentSpeaks(u.comment)
  }

  /** The user that a legible line sets. */
  function InfoRead(u: UserInfo): UserInfo {
    u.(address := ToAddr(Shown(u.address)), comment := Copied(UpToNul(u.comment)))
  }

  /** A legible user's line runs as a `server-add` whose arguments scan to the user's fields. */
  lemma UserLineDispatched(env: Env, ls: Listing, k: Kernel, uid: u8, u: UserInfo) returns (args: seq<string>)
    requires Honest(env.lib) && InfoLegible(env, uid, u)
    ensures RunLine(env, ls, k, UserLine(env, uid, u)) == ServerAdd(env, k, args, CALM)
    ensures Scan(env, ServerAddForm, args, 0, NO_ARGS)
         == Targeted(Target(env, uid), InfoArgs(env, u))
  {
    hide Honest, RunLine, UserLine, InfoPairs, ServerAdd, Scan, KeyRestorable, CommentSpeaks,
         Swap16, HexOf, UpToNul, Used, AddrText, UserWords, ResolveUid;
    var ps := InfoPairs(env, uid, u);
    args := Flat(ps);
    UserLineSpelled(env, uid, u);
    InfoPairsSafe(env, uid, u);
    KeywordsSafe();
    SpelledRuns(env, ls, k, "server-add", ps);
    assert (["server-add"] + args)[1..] == args;
    InfoPairsKnown(env, uid, u);
    ScanIsReadPairs(env, ServerAddForm, ps);
    InfoPairsRead(env, uid, u);
  }

  /** Running the line of a legible user sets what was read, or fails for want of an id, a port or an address. */
  lemma UserLineDoes(env: Env, ls: Listing, k: Kernel, uid: u8, u: UserInfo)
    requires Honest(env.lib) && InfoLegible(env, uid, u) && k.config.isServer != 0
    ensures var ran := RunLine(env, ls, k, UserLine(env, uid, u));
            if Target(env, uid).Success? && u.dport != 0 && FamilyAdmits(env.family, Shown(u.address)) then
              ran == (k.(users := k.users[Target(env, uid).value := InfoRead(u)]), Ok)
            else ran.1 != Ok && ran.0 == k
  {
    hide Honest, RunLine, UserLine, Resolve, Scan, KeyRestorable, CommentSpeaks, SafeWord,
         Swap16, HexOf, UpToNul, Used, AddrText, UserWords, ResolveUid, Shown, ToAddr, FamilyAdmits, Copied;
    var args := UserLineDispatched(env, ls, k, uid, u);
    Swap16Twice(u.icmpId);
    if Target(env, uid).Success? {
      EntryResolves(env, k, true, u.address, u.dport, Swap16(u.icmpId), Target(env, uid).value, UpToNul(u.comment),
                    u.xorKey, u.xorKeyLen);
    }
  }

  /** Running the line of a restorable user in server mode sets the user, or fails for want of a port. */
  lemma UserLineSets(env: Env, ls: Listing, k: Kernel, uid: u8, u: UserInfo)
    requires Honest(env.lib) && InfoRestorable(env, uid, u) && k.config.isServer != 0
    ensures var ran := RunLine(env, ls, k, UserLine(env, uid, u));
            if u.dport != 0 then ran == (k.(users := k.users[uid := u]), Ok) else ran.0 == k && ran.1 != Ok
  {
    hide RunLine, UserLine, Shown, ToAddr, ResolveUid, UserWords;
    ShownReadBack(u.address);
    UserLineDoes(env, ls, k, uid, u);
  }

  // ---- The whole dump, run as a script ----

  /** The egress entries among the keys. */
  function EgressPart(k: Kernel, keys: seq<EgressKey>): map<EgressKey, EgressValue> {
    map key | key in k.egress && key in keys :: k.egress[key]
  }

  ghost predicate Mirrors(k: Kernel, keys: seq<EgressKey>, back: IngressKey) {
    exists key :: key in keys && key in k.egress && back == IngressKey(key.address, k.egress[key].uid)
  }

  /** The ingress entries that mirror an egress entry among the keys. */
  ghost function IngressPart(k: Kernel, keys: seq<EgressKey>): map<IngressKey, IngressValue> {
    map back | back in k.ingress && Mirrors(k, keys, back) :: k.ingress[back]
  }

  ghost predicate Rebuilt(k: Kernel, keys: seq<EgressKey>, cur: Kernel) {
    cur.config.isServer == 0 && cur.egress == EgressPart(k, keys) && cur.ingress == IngressPart(k, keys)
  }

  /** Adding the next entry of a paired table to what is rebuilt succeeds: its ingress key is new. */
  lemma NextPeerRebuilds(k: Kernel, done: seq<EgressKey>, key: EgressKey, cur: Kernel)
    requires Paired(k) && key in k.egress && key !in done && Rebuilt(k, done, cur)
    ensures var (next, r) := AddPeer(cur, PeerOf(key, k.egress[key]), CALM);
            && r == Ok && Rebuilt(k, done + [key], next)
            && next == cur.(egress := next.egress, ingress := next.ingress)
  {
    var v := k.egress[key];
    var back := IngressKey(key.address, v.uid);
    assert PairedAt(k, key);
    NotYetMirrored(k, done, key);
    var next := AddPeer(cur, PeerOf(key, v), CALM).0;
    assert next.egress == EgressPart(k, done + [key]);
    MirrorsNext(k, done, key);
    assert next.ingress == IngressPart(k, done + [key]);
  }

  lemma NotYetMirrored(k: Kernel, done: seq<EgressKey>, key: EgressKey)
    requires Paired(k) && key in k.egress && key !in done
    ensures !Mirrors(k, done, IngressKey(key.address, k.egress[key].uid))
  {
    forall other | other in k.egress && other.address == key.address && k.egress[other].uid == k.egress[key].uid
      ensures other == key
    {
      AtMostOnePeer(k, key, other);
    }
  }

  lemma MirrorsNext(k: Kernel, done: seq<EgressKey>, key: EgressKey)
    requires key in k.egress
    ensures forall back :: Mirrors(k, done + [key], back)
              <==> Mirrors(k, done, back) || back == IngressKey(key.address, k.egress[key].uid)
  {
    forall back | Mirrors(k, done, back) || back == IngressKey(key.address, k.egress[key].uid)
      ensures Mirrors(k, done + [key], back)
    {
      if Mirrors(k, done, back) {
        var other :| other in done && other in k.egress && back == IngressKey(other.address, k.egress[other].uid);
        assert other in done + [key];
      } else {
        assert key in done + [key];
      }
    }
  }

  lemma {:induction false} PeerLinesRebuild(
      env: Env, ls: Listing, k: Kernel, done: seq<EgressKey>, rest: seq<EgressKey>, cur: Kernel)
    requires Honest(env.lib) && Paired(k) && Enumerates(done + rest, k.egress) && Rebuilt(k, done, cur)
    requires forall key :: key in k.egress ==> PeerRestorable(env, key, k.egress[key])
    ensures var (last, r) := RunLines(env, ls, cur, PeerLines(env, k, rest));
            r == Ok && Rebuilt(k, done + rest, last) && last.users == cur.users && last.config == cur.config
    decreases |rest|
  {
    hide Honest, PeerRestorable, Rebuilt, AddPeer, RunLine, PeerLine;
    if rest == [] {
      assert done + rest == done;
    } else {
      var key := rest[0];
      assert key == (done + rest)[|done|] && key in done + rest;
      assert key !in done by {
        assert forall i :: 0 <= i < |done| ==> (done + rest)[i] == done[i];
      }
      assert PairedAt(k, key);
      Swap16Twice(key.port);
      PeerLineAddsRebuilt(env, ls, k, done, key, cur);
      var next := AddPeer(cur, PeerOf(key, k.egress[key]), CALM).0;
      assert done + rest == done + [key] + rest[1..];
      PeerLinesRebuild(env, ls, k, done + [key], rest[1..], next);
    }
  }

  lemma PeerLineAddsRebuilt(
      env: Env, ls: Listing, k: Kernel, done: seq<EgressKey>, key: EgressKey, cur: Kernel)
    requires Honest(env.lib) && Paired(k) && key in k.egress && key !in done && Rebuilt(k, done, cur)
    requires PeerRestorable(env, key, k.egress[key])
    ensures var (next, r) := AddPeer(cur, PeerOf(key, k.egress[key]), CALM);
            && r == Ok && Rebuilt(k, done + [key], next) && next.users == cur.users && next.config == cur.config
            && RunLine(env, ls, cur, PeerLine(env, key, k.egress[key])) == (next, r)
  {
    hide Honest, PeerRestorable, RunLine, PeerLine;
    assert PairedAt(k, key);
    PeerLineAdds(env, ls, cur, key, k.egress[key]);
    NextPeerRebuilds(k, done, key, cur);
  }

  lemma {:induction false} TrimEndKeepsFirst(s: string)
    requires s != "" && !IsSpace(s[0])
    ensures TrimEnd(s) != "" && TrimEnd(s)[0] == s[0]
  {
    if IsSpace(s[|s| - 1]) {
      TrimEndKeepsFirst(s[..|s| - 1]);
    }
  }

  /** Comment lines and empty lines do nothing. */
  lemma QuietLine(env: Env, ls: Listing, k: Kernel, line: string)
    requires line == "" || line[0] == '#'
    ensures RunLine(env, ls, k, line) == (k, Ok)
  {
    if line != "" {
      TrimEndKeepsFirst(line);
    }
  }

  lemma {:induction false} RunAppend(env: Env, ls: Listing, k: Kernel, lines: seq<string>, more: seq<string>)
    ensures var (k1, r) := RunLines(env, ls, k, lines);
            RunLines(env, ls, k, lines + more) == if r != Ok then (k1, r) else RunLines(env, ls, k1, more)
    decreases |lines|
  {
    if lines == [] {
      assert lines + more == more;
    } else {
      assert (lines + more)[1..] == lines[1..] + more;
      var (k1, r) := RunLine(env, ls, k, lines[0]);
      if r == Ok {
        RunAppend(env, ls, k1, lines[1..], more);
      }
    }
  }

  lemma RunOne(env: Env, ls: Listing, k: Kernel, line: string)
    ensures RunLines(env, ls, k, [line]) == RunLine(env, ls, k, line)
  {
    assert [line][1..] == [];
  }

  lemma HeadIsQuiet(env: Env, ls: Listing, k: Kernel, stamp: string)
    ensures RunLines(env, ls, k, ["#!/sbin/ktuctl script -", "# Auto-generated by \"ktuctl dump\" on " + stamp, ""])
         == (k, Ok)
  {
    var a, b := "#!/sbin/ktuctl script -", "# Auto-generated by \"ktuctl dump\" on " + stamp;
    QuietLine(env, ls, k, a);
    QuietLine(env, ls, k, b);
    QuietLine(env, ls, k, "");
    RunOne(env, ls, k, a);
    RunOne(env, ls, k, b);
    RunOne(env, ls, k, "");
    RunAppend(env, ls, k, [a], [b] + [""]);
    RunAppend(env, ls, k, [b], [""]);
    assert [a] + ([b] + [""]) == [a, b, ""];
  }

  lemma ClientLineRuns(env: Env, ls: Listing, k: Kernel)
    requires Honest(env.lib)
    ensures RunLine(env, ls, k, "client") == (k.(config := TutuConfig(0, 0)), Ok)
  {
    KeywordsSafe();
    SafeLineRuns(env, ls, k, ["client"]);
  }

  lemma MaxAgeScanned(maxAge: u32)
    ensures ScanMaxAge(["max-age", PrintDec(maxAge)], 0, DEFAULT_MAX_AGE) == Success(maxAge)
  {
    hide PrintDec, ParseDec;
    DecRoundTrip(maxAge, 0xFFFF_FFFF);
  }

  lemma ServerLineRuns(env: Env, ls: Listing, k: Kernel, maxAge: u32)
    requires Honest(env.lib)
    ensures RunLine(env, ls, k, "server max-age " + PrintDec(maxAge)) == (k.(config := TutuConfig(maxAge, 1)), Ok)
  {
    hide Honest, RunLine, PrintDec, ScanMaxAge, SafeWord, Spelled;
    var dec := PrintDec(maxAge);
    var ps := [("max-age", dec)];
    KeywordsSafe();
    PrintDecSafe(maxAge);
    MaxAgeScanned(maxAge);
    SpelledRuns(env, ls, k, "server", ps);
    SpelledOne("max-age", dec);
    assert "server max-age " + dec == "server" + (" " + "max-age" + " " + dec);
    assert ["server"] + Flat(ps) == ["server", "max-age", dec];
    assert ["server", "max-age", dec][1..] == ["max-age", dec];
  }

  /** The ingress entries that mirror some egress entry. */
  ghost function Matched(k: Kernel): map<IngressKey, IngressValue> {
    map back | back in k.ingress && MirrorsAny(k, back) :: k.ingress[back]
  }

  ghost predicate MirrorsAny(k: Kernel, back: IngressKey) {
    exists key :: key in k.egress && back == IngressKey(key.address, k.egress[key].uid)
  }

  lemma RebuiltAll(k: Kernel, dump: seq<EgressKey>, cur: Kernel)
    requires Enumerates(dump, k.egress) && Rebuilt(k, dump, cur)
    ensures cur.egress == k.egress && cur.ingress == Matched(k)
  {
    forall back
      ensures Mirrors(k, dump, back) <==> MirrorsAny(k, back)
    {
      if MirrorsAny(k, back) {
        var key :| key in k.egress && back == IngressKey(key.address, k.egress[key].uid);
        assert key in dump;
      }
    }
  }

  /** The lines of a client's dump before its peers set client mode. */
  lemma ClientHeadRuns(env: Env, ls: Listing, k: Kernel, stamp: string, start: Kernel)
    requires Honest(env.lib) && k.config.isServer == 0
    ensures RunLines(env, ls, start, DumpLines(env, ls, k, stamp))
         == RunLines(env, ls, start.(config := TutuConfig(0, 0)), PeerLines(env, k, ls.egress(k)))
  {
    hide RunLine, RunLines, PeerLines, Honest;
    var head := ["#!/sbin/ktuctl script -", "# Auto-generated by \"ktuctl dump\" on " + stamp, ""];
    HeadIsQuiet(env, ls, start, stamp);
    ClientLineRuns(env, ls, start);
    RunOne(env, ls, start, "client");
    RunAppend(env, ls, start, head, ["client"]);
    RunAppend(env, ls, start, head + ["client"], PeerLines(env, k, ls.egress(k)));
  }

  /** Client mode: running the dump of paired tables, in whatever order they are listed, from empty tables
      succeeds on every line, restores egress, and restores of ingress what mirrors an egress entry. */
  lemma ScriptOfDumpRestoresClient(env: Env, ls: Listing, k: Kernel, stamp: string, start: Kernel)
    requires Honest(env.lib) && Complete(ls) && k.config.isServer == 0 && Paired(k)
    requires forall key :: key in k.egress ==> PeerRestorable(env, key, k.egress[key])
    requires start.egress == map[] && start.ingress == map[]
    ensures var (last, r) := RunLines(env, ls, start, DumpLines(env, ls, k, stamp));
            && r == Ok && last.egress == k.egress && last.ingress == Matched(k)
            && last.config == TutuConfig(0, 0) && last.users == start.users
  {
    hide RunLines, PeerLines, DumpLines, PeerRestorable, Honest;
    var dump := ls.egress(k);
    var ready := start.(config := TutuConfig(0, 0));
    ClientHeadRuns(env, ls, k, stamp, start);
    assert Enumerates(dump, k.egress);
    assert [] + dump == dump;
    assert Rebuilt(k, [], ready);
    PeerLinesRebuild(env, ls, k, [], dump, ready);
    RebuiltAll(k, dump, RunLines(env, ls, ready, PeerLines(env, k, dump)).0);
  }

  /** The user entries among the ids. */
  function UserPart(k: Kernel, ids: seq<u8>): map<u8, UserInfo> {
    map uid | uid in k.users && uid in ids :: k.users[uid]
  }

  ghost predicate AllHavePorts(k: Kernel, ids: seq<u8>) {
    forall uid :: uid in ids && uid in k.users ==> k.users[uid].dport != 0
  }

  lemma {:induction false} UserLinesRebuild(
      env: Env, ls: Listing, k: Kernel, done: seq<u8>, rest: seq<u8>, cur: Kernel)
    requires Honest(env.lib) && Enumerates(done + rest, k.users)
    requires cur.config.isServer != 0 && cur.users == UserPart(k, done)
    requires forall uid :: uid in k.users ==> InfoRestorable(env, uid, k.users[uid])
    ensures var r := RunLines(env, ls, cur, UserLines(env, k, rest));
            if AllHavePorts(k, rest) then r == (cur.(users := UserPart(k, done + rest)), Ok) else r.1 != Ok
    decreases |rest|
  {
    hide Honest, InfoRestorable, RunLine, UserLine;
    if rest == [] {
      assert done + rest == done;
    } else {
      var uid := rest[0];
      assert uid == (done + rest)[|done|] && uid in done + rest;
      UserLineSets(env, ls, cur, uid, k.users[uid]);
      assert rest == [uid] + rest[1..];
      if k.users[uid].dport != 0 {
        assert cur.users[uid := k.users[uid]] == UserPart(k, done + [uid]);
        assert done + rest == done + [uid] + rest[1..];
        UserLinesRebuild(env, ls, k, done + [uid], rest[1..], cur.(users := UserPart(k, done + [uid])));
      }
    }
  }

  /** The lines of a server's dump before its users set server mode and the session age. */
  lemma ServerHeadRuns(env: Env, ls: Listing, k: Kernel, stamp: string, start: Kernel)
    requires Honest(env.lib) && k.config.isServer != 0
    ensures RunLines(env, ls, start, DumpLines(env, ls, k, stamp))
         == RunLines(env, ls, start.(config := TutuConfig(k.config.sessionMaxAge, 1)), UserLines(env, k, ls.users(k)))
  {
    hide RunLine, RunLines, UserLines, Honest;
    var head := ["#!/sbin/ktuctl script -", "# Auto-generated by \"ktuctl dump\" on " + stamp, ""];
    var mode := "server max-age " + PrintDec(k.config.sessionMaxAge);
    var ready := start.(config := TutuConfig(k.config.sessionMaxAge, 1));
    HeadIsQuiet(env, ls, start, stamp);
    ServerLineRuns(env, ls, start, k.config.sessionMaxAge);
    QuietLine(env, ls, ready, "");
    RunOne(env, ls, start, mode);
    RunOne(env, ls, ready, "");
    RunAppend(env, ls, start, [mode], [""]);
    assert [mode] + [""] == [mode, ""];
    RunAppend(env, ls, start, head, [mode, ""]);
    RunAppend(env, ls, start, head + [mode, ""], UserLines(env, k, ls.users(k)));
  }

  /** Server mode: from an empty table, running the dump succeeds exactly when every user has a port, and then it
      restores the user table and the session age. */
  lemma ScriptOfDumpRestoresServer(env: Env, ls: Listing, k: Kernel, stamp: string, start: Kernel)
    requires Honest(env.lib) && Complete(ls) && k.config.isServer != 0
    requires forall uid :: uid in k.users ==> InfoRestorable(env, uid, k.users[uid])
    requires start.users == map[]
    ensures var (last, r) := RunLines(env, ls, start, DumpLines(env, ls, k, stamp));
            && (r == Ok <==> forall uid :: uid in k.users ==> k.users[uid].dport != 0)
            && (r == Ok ==> last == start.(config := TutuConfig(k.config.sessionMaxAge, 1), users := k.users))
  {
    hide RunLines, UserLines, DumpLines, InfoRestorable, Honest;
    var dump := ls.users(k);
    ServerHeadRuns(env, ls, k, stamp, start);
    assert Enumerates(dump, k.users);
    assert [] + dump == dump;
    UserLinesRebuild(env, ls, k, [], dump, start.(config := TutuConfig(k.config.sessionMaxAge, 1)));
    assert UserPart(k, dump) == k.users;
  }

  // ---- Tables that the commands made ----

  /** Every key is stored as the tool fills it, and every user has a port. */
  ghost predicate Filled(k: Kernel) {
    && (forall key :: key in k.egress ==> KeyRestorable(k.egress[key].xorKey, k.egress[key].xorKeyLen))
    && (forall uid :: uid in k.users ==>
          KeyRestorable(k.users[uid].xorKey, k.users[uid].xorKeyLen) && k.users[uid].dport != 0)
  }

  lemma ResolvedKeyFilled(env: Env, k: Kernel, a: Args, mode: bool, query: bool)
    requires Resolve(env, k, a, mode, query).Success?
    ensures var p := Resolve(env, k, a, mode, query).value; KeyRestorable(p.xorKey, p.xorKeyLen) && p.port != 0
  {
    hide ResolveIp;
    Swap16Twice(a.port);
    var p := Resolve(env, k, a, mode, query).value;
    if a.xorHex != "" {
      XorParseFormat(a.xorHex);
      var b := XorBytes(a.xorHex).value;
      assert p.xorKey == Padded(b) && Padded(b)[..|b|] == b;
    }
  }

  lemma AddPeerKeepsFilled(k: Kernel, p: Peer, l: Lucks)
    requires Filled(k) && KeyRestorable(p.xorKey, p.xorKeyLen)
    ensures Filled(AddPeer(k, p, l).0)
  {
    hide KeyRestorable;
  }

  lemma DropPeerKeepsFilled(k: Kernel, found: Option<EgressKey>, address: Addr, uid: u8, l: Lucks)
    requires Filled(k)
    ensures Filled(DropPeer(k, found, address, uid, l).0)
  {
    hide KeyRestorable;
  }

  lemma SingleKeepsFilled(k: Kernel, r: Request, l: Lucks)
    requires Filled(k) && (r.SetConfig? || r.DeleteUser? || r.UpdateUser?)
    requires r.UpdateUser? ==> KeyRestorable(r.info.xorKey, r.info.xorKeyLen) && r.info.dport != 0
    ensures Filled(Single(k, r, l).0)
  {
    hide KeyRestorable;
  }

  lemma CommandKeepsFilled(env: Env, k: Kernel, c: Command, l: Lucks)
    requires Filled(k)
    ensures Filled(Execute(env, k, c, l).0)
  {
    hide Filled, KeyRestorable, Scan, Resolve, ResolveIp, AddPeer, DropPeer, Single, ScanMaxAge;
    match c
    case CmdClient => SingleKeepsFilled(k, SetConfig(TutuConfig(0, 0)), l);
    case CmdServer(args) =>
      var n := ScanMaxAge(args, 0, DEFAULT_MAX_AGE);
      if n.Success? {
        SingleKeepsFilled(k, SetConfig(TutuConfig(n.value, 1)), l);
      }
    case CmdClientAdd(args) =>
      var a := Scan(env, ClientAddForm, args, 0, NO_ARGS);
      if a.Success? && Resolve(env, k, a.value, false, l.query).Success? {
        ResolvedKeyFilled(env, k, a.value, false, l.query);
        AddPeerKeepsFilled(k, Resolve(env, k, a.value, false, l.query).value, l);
      }
    case CmdClientDel(args, dump) =>
      var a := Scan(env, ClientDelForm, args, 0, NO_ARGS);
      if a.Success? && ResolveIp(env, a.value.address).Success? {
        var address := ResolveIp(env, a.value.address).value;
        DropPeerKeepsFilled(k, LastMatch(k, dump, address, a.value.uid), address, a.value.uid, l);
      }
    case CmdServerAdd(args) =>
      var a := Scan(env, ServerAddForm, args, 0, NO_ARGS);
      if a.Success? && Resolve(env, k, a.value, true, l.query).Success? {
        ResolvedKeyFilled(env, k, a.value, true, l.query);
        var p := Resolve(env, k, a.value, true, l.query).value;
        SingleKeepsFilled(k, UpdateUser(p.uid, UserOf(p, a.value.icmpId), Any), l);
      }
    case CmdServerDel(args) =>
      var a := Scan(env, ServerDelForm, args, 0, NO_ARGS);
      if a.Success? {
        SingleKeepsFilled(k, DeleteUser(a.value.uid), l);
      }
  }

  lemma {:induction false} HistoryKeepsFilled(k: Kernel, events: seq<Event>)
    requires Filled(k)
    ensures Filled(History(k, events))
  {
    if events == [] {
    } else {
      var n := |events| - 1;
      HistoryKeepsFilled(k, events[..n]);
      CommandKeepsFilled(events[n].env, History(k, events[..n]), events[n].command, events[n].lucks);
    }
  }

  /** The words of a dumped entry that can be lost: the user's, the address's, the comment's. */
  ghost predicate Speakable(env: Env, key: EgressKey, v: EgressValue) {
    UserRestorable(env, v.uid) && AddressRestorable(env, key.address) && CommentRestorable(v.comment)
  }

  /** After any history of commands on empty tables, failed ones included, the dump of a client rebuilds what the
      history built, as long as names, addresses and comments can be read back. */
  lemma DumpOfHistoryRestoresClient(
      env: Env, ls: Listing, first: Kernel, events: seq<Event>, stamp: string, start: Kernel)
    requires Honest(env.lib) && Complete(ls)
    requires first.egress == map[] && first.users == map[] && TrueDumps(first, events)
    requires History(first, events).config.isServer == 0
    requires forall key :: key in History(first, events).egress ==>
               Speakable(env, key, History(first, events).egress[key])
    requires start.egress == map[] && start.ingress == map[]
    ensures var k := History(first, events);
            var (last, r) := RunLines(env, ls, start, DumpLines(env, ls, k, stamp));
            r == Ok && last.egress == k.egress && last.ingress == Matched(k)
  {
    hide History, RunLines, DumpLines, Honest, Matched, UserRestorable, AddressRestorable, CommentRestorable,
         KeyRestorable, TrueDumps, PairedAt;
    var k := History(first, events);
    HistoryKeepsPaired(first, events);
    HistoryKeepsFilled(first, events);
    ScriptOfDumpRestoresClient(env, ls, k, stamp, start);
  }

  /** After any history of commands on an empty user table, the dump of a server succeeds on every line and rebuilds
      what the history built, as long as names, addresses and comments can be read back. */
  lemma DumpOfHistoryRestoresServer(
      env: Env, ls: Listing, first: Kernel, events: seq<Event>, stamp: string, start: Kernel)
    requires Honest(env.lib) && Complete(ls)
    requires first.egress == map[] && first.users == map[]
    requires History(first, events).config.isServer != 0
    requires forall uid :: uid in History(first, events).users ==>
               SpeakableUser(env, uid, History(first, events).users[uid])
    requires start.users == map[]
    ensures var k := History(first, events);
            RunLines(env, ls, start, DumpLines(env, ls, k, stamp))
              == (start.(config := TutuConfig(k.config.sessionMaxAge, 1), users := k.users), Ok)
  {
    hide History, RunLines, DumpLines, Honest, UserRestorable, AddressRestorable, CommentRestorable, KeyRestorable;
    HistoryKeepsFilled(first, events);
    ScriptOfDumpRestoresServer(env, ls, History(first, events), stamp, start);
  }

  ghost predicate SpeakableUser(env: Env, uid: u8, u: UserInfo) {
    UserRestorable(env, uid) && AddressRestorable(env, u.address) && CommentRestorable(u.comment)
  }

  // ---- Comments of several words ----

  lemma {:induction false} ScannedComment(env: Env, form: Form, args: seq<string>, i: nat, a: Args)
    requires Scan(env, form, args, i, a).Success?
    ensures var b := Scan(env, form, args, i, a).value;
            b.comment == a.comment || exists j :: i < j < |args| && b.comment == args[j]
    decreases |args| - i
  {
    if i < |args| {
      if !Knows(form, KeywordOf(args[i])) {
        ScannedComment(env, form, args, i + 1, a);
      } else {
        ScannedComment(env, form, args, i + 2, SetArg(env, a, KeywordOf(args[i]), args[i + 1]).value);
      }
    }
  }

  lemma JoinHasSpace(ws: seq<string>)
    requires |ws| > 1
    ensures ' ' in Join(ws)
  {
    assert Join(ws)[|ws[0]|] == ' ';
  }

  lemma ScanComment(env: Env, form: Form, args: seq<string>, n: nat, b: Args)
    requires Knows(form, KwComment) && n + 1 < |args| && args[n] == "comment"
    ensures Scan(env, form, args, n, b) == Scan(env, form, args, n + 2, b.(comment := args[n + 1]))
  {
    KeywordTable();
  }

  lemma CommentIsAWord(env: Env, form: Form, args: seq<string>, n: nat, ws: seq<string>, c: Args)
    requires n < |args| && args[n + 1..] == ws && ws != [] && c.comment == ws[0]
    requires Scan(env, form, args, n + 2, c).Success?
    ensures Scan(env, form, args, n + 2, c).value.comment in ws
  {
    hide SetArg, KeywordOf, Knows;
    ScannedComment(env, form, args, n + 2, c);
    assert forall j :: n < j < |args| ==> args[j] == ws[j - n - 1];
  }

  lemma SafeHasNoSpace(w: string)
    requires SafeWord(w)
    ensures ' ' !in w
  {
  }

  lemma JoinIsNoWord(ws: seq<string>)
    requires |ws| > 1 && forall w :: w in ws ==> SafeWord(w)
    ensures Join(ws) !in ws
  {
    hide Join, SafeWord;
    JoinHasSpace(ws);
    if Join(ws) in ws {
      SafeHasNoSpace(Join(ws));
    }
  }

  /** A comment of safe words printed unquoted is read back exactly when it is a single word. */
  lemma CommentReadBackExactly(env: Env, form: Form, ps: seq<(string, string)>, ws: seq<string>)
    requires Knows(form, KwComment) && forall p :: p in ps ==> Knows(form, KeywordOf(p.0))
    requires ReadPairs(env, ps, NO_ARGS).Success?
    requires ws != [] && forall w :: w in ws ==> SafeWord(w)
    ensures var r := Scan(env, form, Flat(ps) + (["comment"] + ws), 0, NO_ARGS);
            (r.Success? && r.value.comment == Join(ws)) <==> |ws| == 1
  {
    hide ReadPairs, SetArg, Flat, KeywordOf, SafeWord, Scan, Join;
    var tail := ["comment"] + ws;
    var args := Flat(ps) + tail;
    var n := |Flat(ps)|;
    var b := ReadPairs(env, ps, NO_ARGS).value;
    ScanPrefix(env, form, [], ps, tail, NO_ARGS);
    assert [] + Flat(ps) + tail == args;
    assert args[n..] == tail && args[n + 1..] == ws && args[n] == "comment" && args[n + 1] == ws[0];
    ScanComment(env, form, args, n, b);
    ScanRest(env, form, args, n, ws, b.(comment := ws[0]));
  }

  lemma ScanRest(env: Env, form: Form, args: seq<string>, n: nat, ws: seq<string>, c: Args)
    requires n < |args| && args[n + 1..] == ws && ws != [] && c.comment == ws[0]
    requires forall w :: w in ws ==> SafeWord(w)
    ensures var r := Scan(env, form, args, n + 2, c);
            (r.Success? && r.value.comment == Join(ws)) <==> |ws| == 1
  {
    hide SetArg, KeywordOf, Knows, SafeWord;
    if |ws| > 1 {
      JoinIsNoWord(ws);
      if Scan(env, form, args, n + 2, c).Success? {
        CommentIsAWord(env, form, args, n, ws, c);
      }
    }
  }
}

/** Exactly when running a dump as a script restores the tables it was printed from.

    The entries are those whose words no shell rule touches: safe names, filled keys, and comments that are safe words
    joined by spaces, which the dump prints without quotes. */
module RoundTrip {
  import opened Wrappers
  import opened Ints
  import opened Net
  import opened Text
  import opened UidMap
  import opened Helper
  import opened Commands
  import opened DumpScript

  // ---- Lines of several words ----

  ghost predicate SafeWords(ws: seq<string>) {
    forall w :: w in ws ==> SafeWord(w)
  }

  ghost predicate Phrase(text: string) {
    exists ws :: SafeWords(ws) && text == Join(ws)
  }

  ghost predicate SpokenPeer(env: Env, v: EgressValue) {
    SafeWord(UserWords(env, v.uid).1) && KeyRestorable(v.xorKey, v.xorKeyLen) && Phrase(UpToNul(v.comment))
  }

  ghost predicate SpokenInfo(env: Env, uid: u8, u: UserInfo) {
    SafeWord(UserWords(env, uid).1) && KeyRestorable(u.xorKey, u.xorKeyLen) && Phrase(UpToNul(u.comment))
  }

  lemma {:induction false} JoinAscii(ws: seq<string>)
    requires SafeWords(ws)
    ensures IsAscii(Join(ws))
  {
    if ws == [] {
    } else {
      SafeIsAscii(ws[0]);
      JoinAscii(ws[1..]);
    }
  }

  lemma JoinNotEmpty(ws: seq<string>)
    requires SafeWords(ws) && ws != []
    ensures Join(ws) != ""
  {
    assert SafeWord(ws[0]);
  }

  function CommentWords(ws: seq<string>): seq<string> {
    if ws == [] then [] else ["comment"] + ws
  }

  /** A line of pairs, followed by a printed comment, is a line of words. */
  lemma PhraseLine(env: Env, line: string, cmd: string, ps: seq<(string, string)>, c: Comment, ws: seq<string>)
    requires Honest(env.lib) && line == cmd + Spelled(ps) && SafeWords(ws) && UpToNul(c) == Join(ws)
    ensures line + CommentPart(env, c) == Join([cmd] + Flat(ps) + CommentWords(ws))
  {
    hide Spelled, Join, UpToNul, SafeWords;
    SpelledIsJoined(cmd, ps);
    JoinAscii(ws);
    assert env.lib.lossy(UpToNul(c)) == Join(ws);
    if ws == [] {
      JoinNothing();
      assert [cmd] + Flat(ps) + [] == [cmd] + Flat(ps);
      assert line + "" == line;
    } else {
      JoinNotEmpty(ws);
      JoinConcat([cmd] + Flat(ps), ["comment"] + ws);
      JoinCons("comment", ws);
      CommentRegrouped(line, Join(ws));
    }
  }

  lemma CommentRegrouped(line: string, text: string)
    ensures line + " " + ("comment" + " " + text) == line + (" comment " + text)
  {
    assert " comment " == " " + "comment" + " ";
  }

  lemma JoinNothing()
    ensures Join([]) == ""
  {
  }

  lemma FirstIsSafe(w: string)
    requires SafeWord(w)
    ensures w != "" && SafeChar(w[0])
  {
    assert w[0] in w;
  }

  lemma PhraseArgsSafe(ps: seq<(string, string)>, ws: seq<string>)
    requires SafePairs(ps) && SafeWords(ws)
    ensures SafeWords(Flat(ps) + CommentWords(ws))
  {
    FlatSafe(ps);
    KeywordsSafe();
    hide SafeWord;
  }

  /** Such a line is dispatched with its words as arguments. */
  lemma PhraseRuns(
      env: Env, ls: Listing, k: Kernel, line: string, cmd: string, ps: seq<(string, string)>, c: Comment)
    returns (args: seq<string>)
    requires Honest(env.lib) && line == cmd + Spelled(ps) && Phrase(UpToNul(c)) && SafeWord(cmd) && SafePairs(ps)
    ensures RunLine(env, ls, k, line + CommentPart(env, c)) == Dispatch(env, ls, k, [cmd] + args) && SafeWords(args)
  {
    hide Honest, SafeWord, SafePairs, Join, Spelled, CommentPart, UpToNul, RunLine, Dispatch, SafeChar;
    var ws :| SafeWords(ws) && UpToNul(c) == Join(ws);
    PhraseLine(env, line, cmd, ps, c, ws);
    PhraseArgsSafe(ps, ws);
    FirstIsSafe(cmd);
    args := Flat(ps) + CommentWords(ws);
    assert [cmd] + args == [cmd] + Flat(ps) + CommentWords(ws);
    SafeLineRuns(env, ls, k, [cmd] + args);
  }

  /** The line of a spoken entry runs as a `client-add` on safe words. */
  lemma SpokenPeerRuns(env: Env, ls: Listing, k: Kernel, key: EgressKey, v: EgressValue) returns (args: seq<string>)
    requires Honest(env.lib) && SpokenPeer(env, v)
    ensures RunLine(env, ls, k, PeerLine(env, key, v)) == ClientAdd(env, k, args, CALM) && SafeWords(args)
  {
    hide Honest, RunLine, PeerLine, PeerFront, ClientAdd, CommentPart, Spelled, Phrase, KeyRestorable, UserWords;
    var line := PeerFrontSpelled(env, key, v);
    PeerFrontSafe(env, key, v);
    KeywordsSafe();
    args := PhraseRuns(env, ls, k, line, "client-add", PeerFront(env, key, v), v.comment);
    assert (["client-add"] + args)[1..] == args;
  }

  /** The line of a spoken user runs as a `server-add` on safe words. */
  lemma SpokenInfoRuns(env: Env, ls: Listing, k: Kernel, uid: u8, u: UserInfo) returns (args: seq<string>)
    requires Honest(env.lib) && SpokenInfo(env, uid, u)
    ensures RunLine(env, ls, k, UserLine(env, uid, u)) == ServerAdd(env, k, args, CALM) && SafeWords(args)
  {
    hide Honest, RunLine, UserLine, InfoFront, ServerAdd, CommentPart, Spelled, Phrase, KeyRestorable, UserWords;
    var line := InfoFrontSpelled(env, uid, u);
    InfoFrontSafe(env, uid, u);
    KeywordsSafe();
    args := PhraseRuns(env, ls, k, line, "server-add", InfoFront(env, uid, u), u.comment);
    assert (["server-add"] + args)[1..] == args;
  }

  // ---- No addition stores a comment of several words ----

  ghost predicate OneWord(c: Comment) {
    ' ' !in UpToNul(c)
  }

  ghost predicate PeersOneWord(m: map<EgressKey, EgressValue>) {
    forall key :: key in m ==> OneWord(m[key].comment)
  }

  ghost predicate InfosOneWord(m: map<u8, UserInfo>) {
    forall uid :: uid in m ==> OneWord(m[uid].comment)
  }

  lemma CopiedOneWord(w: string)
    requires ' ' !in w
    ensures OneWord(Copied(w))
  {
    assert forall i :: 0 <= i < COMMENT_LEN ==> Copied(w)[i] != ' ';
  }

  lemma ScannedOneWord(env: Env, form: Form, args: seq<string>)
    requires SafeWords(args) && Scan(env, form, args, 0, NO_ARGS).Success?
    ensures OneWord(Copied(Scan(env, form, args, 0, NO_ARGS).value.comment))
  {
    hide Scan, OneWord, SafeWord, Copied;
    var text := Scan(env, form, args, 0, NO_ARGS).value.comment;
    ScannedComment(env, form, args, 0, NO_ARGS);
    if text != "" {
      SafeHasNoSpace(text);
    }
    CopiedOneWord(text);
  }

  /** A phrase in a field of one word is one word at most. */
  lemma OneWordSpeaks(c: Comment)
    requires Phrase(UpToNul(c)) && OneWord(c)
    ensures CommentSpeaks(c)
  {
    var ws :| SafeWords(ws) && UpToNul(c) == Join(ws);
    if |ws| > 1 {
      JoinHasSpace(ws);
    }
  }

  /** What an addition does to the egress table: nothing, or one entry with a comment of one word. */
  lemma ClientAddStores(env: Env, k: Kernel, args: seq<string>) returns (key: EgressKey, v: EgressValue)
    requires SafeWords(args)
    ensures var (next, r) := ClientAdd(env, k, args, CALM);
            && next.config == k.config
            && (if r == Ok then next.egress == k.egress[key := v] && OneWord(v.comment) else next.egress == k.egress)
  {
    hide Scan, OneWord, ResolveIp, Commands.KeyOf, SafeWords, Copied;
    var a := Scan(env, ClientAddForm, args, 0, NO_ARGS);
    if a.Success? && Resolve(env, k, a.value, false, true).Success? {
      ScannedOneWord(env, ClientAddForm, args);
      var p := Resolve(env, k, a.value, false, true).value;
      key, v := EgressOf(p).0, EgressOf(p).1;
    } else {
      key, v :| true;
    }
  }

  lemma ServerAddStores(env: Env, k: Kernel, args: seq<string>) returns (uid: u8, u: UserInfo)
    requires SafeWords(args)
    ensures var (next, r) := ServerAdd(env, k, args, CALM);
            && next.config == k.config
            && (if r == Ok then next.users == k.users[uid := u] && OneWord(u.comment) else next.users == k.users)
  {
    hide Scan, OneWord, ResolveIp, Commands.KeyOf, SafeWords, Copied;
    var a := Scan(env, ServerAddForm, args, 0, NO_ARGS);
    if a.Success? && Resolve(env, k, a.value, true, true).Success? {
      ScannedOneWord(env, ServerAddForm, args);
      var p := Resolve(env, k, a.value, true, true).value;
      uid, u := p.uid, UserOf(p, a.value.icmpId);
    } else {
      uid, u :| true;
    }
  }

  // ---- One line ----

  /** What an addition leaves when the kernel answers. */
  lemma AddPeerCalm(k: Kernel, p: Peer)
    ensures var (next, r) := AddPeer(k, p, CALM);
            && (r == Ok <==> IngressOf(p).0 !in k.ingress) && next.config == k.config
            && (r == Ok ==> next.egress == k.egress[EgressOf(p).0 := EgressOf(p).1])
  {
  }

  /** The entry that running the line of a legible entry stores, if it succeeds. */
  function PeerStored(env: Env, v: EgressValue): EgressValue {
    EgressValue(v.xorKey, Copied(UpToNul(v.comment)), v.xorKeyLen, TargetOr(env, v.uid))
  }

  function TargetOr(env: Env, uid: u8): u8 {
    if Target(env, uid).Success? then Target(env, uid).value else uid
  }

  function KeyStored(key: EgressKey): EgressKey {
    EgressKey(ToAddr(Shown(key.address)), key.port)
  }

  /** A legible entry is restorable exactly when its line can be resolved and stores it. */
  lemma RestorableExactly(env: Env, key: EgressKey, v: EgressValue)
    requires PeerLegible(env, v)
    ensures PeerRestorable(env, key, v)
       <==> Target(env, v.uid).Success? && FamilyAdmits(env.family, Shown(key.address))
            && KeyStored(key) == key && PeerStored(env, v) == v
  {
    hide ResolveUid, UserWords, Shown, ToAddr, FamilyAdmits, Copied, UpToNul, SafeWord, KeyRestorable;
    ShownReadBack(key.address);
  }

  lemma InfoRestorableExactly(env: Env, uid: u8, u: UserInfo)
    requires InfoLegible(env, uid, u)
    ensures InfoRestorable(env, uid, u)
       <==> Target(env, uid) == Success(uid) && FamilyAdmits(env.family, Shown(u.address)) && InfoRead(u) == u
  {
    hide ResolveUid, UserWords, Shown, ToAddr, FamilyAdmits, Copied, UpToNul, SafeWord, KeyRestorable;
    ShownReadBack(u.address);
  }

  lemma LegibleLineStores(env: Env, ls: Listing, k: Kernel, key: EgressKey, v: EgressValue)
    requires Honest(env.lib) && PeerLegible(env, v) && key.port != 0 && k.config.isServer == 0
    ensures var (next, r) := RunLine(env, ls, k, PeerLine(env, key, v));
            && next.config == k.config
            && (r == Ok ==>
                  && Target(env, v.uid).Success? && FamilyAdmits(env.family, Shown(key.address))
                  && next.egress == k.egress[KeyStored(key) := PeerStored(env, v)])
  {
    hide RunLine, PeerLine, AddPeer, Shown, ToAddr, Copied, UpToNul, ResolveUid, UserWords, FamilyAdmits, Honest;
    PeerLineDoes(env, ls, k, key, v);
    if Target(env, v.uid).Success? {
      AddPeerCalm(k, PeerRead(key, v, Target(env, v.uid).value));
    }
  }

  /** Running the line of a spoken entry stores the entry, where its keys are free, exactly when its name, its address
      and its comment can be read back. */
  lemma PeerLineExact(env: Env, ls: Listing, k: Kernel, key: EgressKey, v: EgressValue)
    requires Honest(env.lib) && SpokenPeer(env, v) && key.port != 0 && k.config.isServer == 0
    requires key !in k.egress && IngressKey(key.address, v.uid) !in k.ingress
    ensures var (next, r) := RunLine(env, ls, k, PeerLine(env, key, v));
            r == Ok && key in next.egress && next.egress[key] == v <==> PeerRestorable(env, key, v)
  {
    hide RunLine, PeerLine, AddPeer, Honest, PeerRestorable, ClientAdd, Phrase, CommentSpeaks, OneWord,
         UserWords, KeyStored, PeerStored, KeyRestorable, SafeWord, SafeWords, Target;
    var (next, r) := RunLine(env, ls, k, PeerLine(env, key, v));
    if PeerRestorable(env, key, v) {
      PeerLineAdds(env, ls, k, key, v);
      AddPeerCalm(k, PeerOf(key, v));
    } else if r == Ok && key in next.egress && next.egress[key] == v {
      var args := SpokenPeerRuns(env, ls, k, key, v);
      var key', v' := ClientAddStores(env, k, args);
      OneWordSpeaks(v.comment);
      LegibleLineStores(env, ls, k, key, v);
      RestorableExactly(env, key, v);
    }
  }

  /** Running the line of a spoken user sets exactly that user, where the id is free, exactly when the user has a port
      and its name, its address and its comment can be read back. */
  lemma UserLineExact(env: Env, ls: Listing, k: Kernel, uid: u8, u: UserInfo)
    requires Honest(env.lib) && SpokenInfo(env, uid, u) && k.config.isServer != 0 && uid !in k.users
    ensures RunLine(env, ls, k, UserLine(env, uid, u)) == (k.(users := k.users[uid := u]), Ok)
       <==> InfoRestorable(env, uid, u) && u.dport != 0
  {
    hide RunLine, UserLine, Honest, InfoRestorable, ServerAdd, Phrase, CommentSpeaks, OneWord,
         UserWords, KeyRestorable, SafeWord, SafeWords, Target, InfoRead, FamilyAdmits, Shown;
    var (next, r) := RunLine(env, ls, k, UserLine(env, uid, u));
    if InfoRestorable(env, uid, u) {
      UserLineSets(env, ls, k, uid, u);
    } else if next == k.(users := k.users[uid := u]) && r == Ok {
      assert next.users[uid] == u;
      var args := SpokenInfoRuns(env, ls, k, uid, u);
      var uid', u' := ServerAddStores(env, k, args);
      OneWordSpeaks(u.comment);
      UserLineDoes(env, ls, k, uid, u);
      InfoRestorableExactly(env, uid, u);
    }
  }

  // ---- The whole dump of a client ----

  ghost predicate PeersSpoken(env: Env, k: Kernel) {
    forall key :: key in k.egress ==> SpokenPeer(env, k.egress[key])
  }

  /** Some of the egress keys of a table, each with a port. */
  ghost predicate PortedKeys(k: Kernel, keys: seq<EgressKey>) {
    forall key :: key in keys ==> key in k.egress && key.port != 0
  }

  /** The lines from the first key on. */
  lemma PeerLinesHead(env: Env, ls: Listing, k: Kernel, keys: seq<EgressKey>, cur: Kernel)
    requires keys != [] && PortedKeys(k, keys)
    ensures PortedKeys(k, keys[1..])
    ensures var (next, r) := RunLine(env, ls, cur, PeerLine(env, keys[0], k.egress[keys[0]]));
            RunLines(env, ls, cur, PeerLines(env, k, keys))
              == if r != Ok then (next, r) else RunLines(env, ls, next, PeerLines(env, k, keys[1..]))
  {
    hide RunLine, PeerLine;
    Swap16Twice(keys[0].port);
    assert keys[0] in keys;
    var line, rest := PeerLine(env, keys[0], k.egress[keys[0]]), PeerLines(env, k, keys[1..]);
    assert PeerLines(env, k, keys) == [line] + rest && ([line] + rest)[1..] == rest;
  }

  lemma {:induction false} PeerLinesOneWord(env: Env, ls: Listing, k: Kernel, keys: seq<EgressKey>, cur: Kernel)
    requires Honest(env.lib) && PeersSpoken(env, k) && PortedKeys(k, keys) && PeersOneWord(cur.egress)
    ensures PeersOneWord(RunLines(env, ls, cur, PeerLines(env, k, keys)).0.egress)
    decreases |keys|
  {
    hide Honest, SpokenPeer, OneWord, RunLine, PeerLine, ClientAdd, SafeWords;
    if keys == [] {
    } else {
      var key := keys[0];
      assert key in keys;
      PeerLinesHead(env, ls, k, keys, cur);
      var args := SpokenPeerRuns(env, ls, cur, key, k.egress[key]);
      var _, _ := ClientAddStores(env, cur, args);
      var (next, r) := RunLine(env, ls, cur, PeerLine(env, key, k.egress[key]));
      if r == Ok {
        PeerLinesOneWord(env, ls, k, keys[1..], next);
      }
    }
  }

  ghost predicate Resolves(env: Env, key: EgressKey, v: EgressValue) {
    Target(env, v.uid).Success? && FamilyAdmits(env.family, Shown(key.address))
  }

  ghost predicate PeersLegible(env: Env, k: Kernel) {
    forall key :: key in k.egress ==> PeerLegible(env, k.egress[key])
  }

  /** What legible lines store one after the other. */
  ghost function StoredPeers(
      env: Env, k: Kernel, keys: seq<EgressKey>, m: map<EgressKey, EgressValue>): map<EgressKey, EgressValue>
    requires forall key :: key in keys ==> key in k.egress
  {
    if keys == [] then m
    else
      assert keys[0] in keys;
      StoredPeers(env, k, keys[1..], m[KeyStored(keys[0]) := PeerStored(env, k.egress[keys[0]])])
  }

  lemma {:induction false} PeerLinesStore(env: Env, ls: Listing, k: Kernel, keys: seq<EgressKey>, cur: Kernel)
    requires Honest(env.lib) && PeersLegible(env, k) && PortedKeys(k, keys) && cur.config.isServer == 0
    requires RunLines(env, ls, cur, PeerLines(env, k, keys)).1 == Ok
    ensures forall key :: key in keys ==> Resolves(env, key, k.egress[key])
    ensures RunLines(env, ls, cur, PeerLines(env, k, keys)).0.egress == StoredPeers(env, k, keys, cur.egress)
    decreases |keys|
  {
    hide Honest, PeerLegible, RunLine, PeerLine, Target, KeyStored, PeerStored, FamilyAdmits, Shown;
    if keys == [] {
    } else {
      var key := keys[0];
      assert key in keys && keys == [key] + keys[1..];
      PeerLinesHead(env, ls, k, keys, cur);
      LegibleLineStores(env, ls, cur, key, k.egress[key]);
      var next := RunLine(env, ls, cur, PeerLine(env, key, k.egress[key])).0;
      PeerLinesStore(env, ls, k, keys[1..], next);
    }
  }

  lemma StoredAddress(key: EgressKey)
    ensures !IsCompatible(KeyStored(key).address)
    ensures KeyStored(key) == key <==> !IsCompatible(key.address)
  {
    ShownReadBack(key.address);
  }

  /** No stored entry lies in ::/96. */
  lemma {:induction false} StoredNotCompatible(
      env: Env, k: Kernel, keys: seq<EgressKey>, m: map<EgressKey, EgressValue>)
    requires forall key :: key in keys ==> key in k.egress
    requires forall key :: key in m ==> !IsCompatible(key.address)
    ensures forall key :: key in StoredPeers(env, k, keys, m) ==> !IsCompatible(key.address)
  {
    hide KeyStored, PeerStored, IsCompatible;
    if keys == [] {
    } else {
      assert keys[0] in keys;
      StoredAddress(keys[0]);
      StoredNotCompatible(env, k, keys[1..], m[KeyStored(keys[0]) := PeerStored(env, k.egress[keys[0]])]);
    }
  }

  /** Outside ::/96 each line stores its own entry. */
  lemma {:induction false} StoredAtOwnKey(
      env: Env, k: Kernel, keys: seq<EgressKey>, m: map<EgressKey, EgressValue>, key: EgressKey)
    requires forall key :: key in keys ==> key in k.egress
    requires forall i, j :: 0 <= i < j < |keys| ==> keys[i] != keys[j]
    requires forall key :: key in keys ==> KeyStored(key) == key
    ensures key in StoredPeers(env, k, keys, m) <==> key in keys || key in m
    ensures key in keys ==> StoredPeers(env, k, keys, m)[key] == PeerStored(env, k.egress[key])
    ensures key !in keys && key in m ==> StoredPeers(env, k, keys, m)[key] == m[key]
  {
    hide KeyStored, PeerStored;
    if keys == [] {
    } else {
      assert keys[0] in keys && keys == [keys[0]] + keys[1..];
      StoredAtOwnKey(env, k, keys[1..], m[keys[0] := PeerStored(env, k.egress[keys[0]])], key);
    }
  }

  lemma RebuiltCommentsSpeak(env: Env, ls: Listing, k: Kernel, ready: Kernel)
    requires Honest(env.lib) && PeersSpoken(env, k) && PortedKeys(k, ls.egress(k)) && ready.egress == map[]
    requires RunLines(env, ls, ready, PeerLines(env, k, ls.egress(k))).0.egress == k.egress
    ensures PeersLegible(env, k)
  {
    hide Honest, OneWord, RunLines, PeerLines, KeyRestorable, Phrase, CommentSpeaks, SafeWord;
    PeerLinesOneWord(env, ls, k, ls.egress(k), ready);
    forall key | key in k.egress
      ensures PeerLegible(env, k.egress[key])
    {
      assert SpokenPeer(env, k.egress[key]);
      OneWordSpeaks(k.egress[key].comment);
    }
  }

  lemma RebuiltIsRestorable(env: Env, ls: Listing, k: Kernel, ready: Kernel, key: EgressKey)
    requires Honest(env.lib) && Complete(ls) && PeersLegible(env, k) && PortedKeys(k, ls.egress(k))
    requires ready.egress == map[] && ready.config.isServer == 0 && key in k.egress
    requires RunLines(env, ls, ready, PeerLines(env, k, ls.egress(k))).1 == Ok
    requires RunLines(env, ls, ready, PeerLines(env, k, ls.egress(k))).0.egress == k.egress
    ensures PeerRestorable(env, key, k.egress[key])
  {
    hide Honest, RunLines, PeerLines, PeerLegible, PeerRestorable, KeyStored, PeerStored, IsCompatible, Target,
         FamilyAdmits, Shown;
    var dump := ls.egress(k);
    assert Enumerates(dump, k.egress);
    PeerLinesStore(env, ls, k, dump, ready);
    StoredNotCompatible(env, k, dump, map[]);
    forall key | key in dump
      ensures KeyStored(key) == key
    {
      StoredAddress(key);
    }
    StoredAtOwnKey(env, k, dump, map[], key);
    RestorableExactly(env, key, k.egress[key]);
  }

  /** Client mode: for paired tables of spoken entries, running the dump from empty tables succeeds and restores the
      egress table if and only if the name, the address and the comment of every entry can be read back. */
  lemma ClientDumpRestoredExactly(env: Env, ls: Listing, k: Kernel, stamp: string, start: Kernel)
    requires Honest(env.lib) && Complete(ls) && k.config.isServer == 0 && Paired(k) && PeersSpoken(env, k)
    requires start.egress == map[] && start.ingress == map[]
    ensures var (last, r) := RunLines(env, ls, start, DumpLines(env, ls, k, stamp));
            r == Ok && last.egress == k.egress
            <==> forall key :: key in k.egress ==> PeerRestorable(env, key, k.egress[key])
  {
    hide Honest, RunLines, DumpLines, PeerLines, PeerRestorable, PeersSpoken, PairedAt, Matched;
    var (last, r) := RunLines(env, ls, start, DumpLines(env, ls, k, stamp));
    if forall key :: key in k.egress ==> PeerRestorable(env, key, k.egress[key]) {
      ScriptOfDumpRestoresClient(env, ls, k, stamp, start);
    }
    if r == Ok && last.egress == k.egress {
      var ready := start.(config := TutuConfig(0, 0));
      ClientHeadRuns(env, ls, k, stamp, start);
      PairedKeysPorted(ls, k);
      RebuiltCommentsSpeak(env, ls, k, ready);
      forall key | key in k.egress
        ensures PeerRestorable(env, key, k.egress[key])
      {
        RebuiltIsRestorable(env, ls, k, ready, key);
      }
    }
  }

  lemma PairedKeysPorted(ls: Listing, k: Kernel)
    requires Complete(ls) && Paired(k)
    ensures PortedKeys(k, ls.egress(k))
  {
    assert Enumerates(ls.egress(k), k.egress);
    forall key | key in ls.egress(k)
      ensures key in k.egress && key.port != 0
    {
      assert PairedAt(k, key);
    }
  }

  // ---- The whole dump of a server ----

  ghost predicate InfosSpoken(env: Env, k: Kernel) {
    forall uid :: uid in k.users ==> SpokenInfo(env, uid, k.users[uid])
  }

  ghost predicate InfosLegible(env: Env, k: Kernel) {
    forall uid :: uid in k.users ==> InfoLegible(env, uid, k.users[uid])
  }

  ghost predicate UsersOf(k: Kernel, ids: seq<u8>) {
    forall uid :: uid in ids ==> uid in k.users
  }

  /** The line of a user can be run. */
  ghost predicate InfoResolves(env: Env, uid: u8, u: UserInfo) {
    Target(env, uid).Success? && u.dport != 0 && FamilyAdmits(env.family, Shown(u.address))
  }

  lemma UserLinesHead(env: Env, ls: Listing, k: Kernel, ids: seq<u8>, cur: Kernel)
    requires ids != [] && UsersOf(k, ids)
    ensures UsersOf(k, ids[1..]) && ids[0] in k.users
    ensures var (next, r) := RunLine(env, ls, cur, UserLine(env, ids[0], k.users[ids[0]]));
            RunLines(env, ls, cur, UserLines(env, k, ids))
              == if r != Ok then (next, r) else RunLines(env, ls, next, UserLines(env, k, ids[1..]))
  {
    hide RunLine, UserLine;
    assert ids[0] in ids;
    var line, rest := UserLine(env, ids[0], k.users[ids[0]]), UserLines(env, k, ids[1..]);
    assert UserLines(env, k, ids) == [line] + rest && ([line] + rest)[1..] == rest;
  }

  lemma {:induction false} UserLinesOneWord(env: Env, ls: Listing, k: Kernel, ids: seq<u8>, cur: Kernel)
    requires Honest(env.lib) && InfosSpoken(env, k) && UsersOf(k, ids) && InfosOneWord(cur.users)
    ensures InfosOneWord(RunLines(env, ls, cur, UserLines(env, k, ids)).0.users)
    decreases |ids|
  {
    hide Honest, SpokenInfo, OneWord, RunLine, UserLine, ServerAdd, SafeWords;
    if ids == [] {
    } else {
      var uid := ids[0];
      UserLinesHead(env, ls, k, ids, cur);
      var args := SpokenInfoRuns(env, ls, cur, uid, k.users[uid]);
      var _, _ := ServerAddStores(env, cur, args);
      var (next, r) := RunLine(env, ls, cur, UserLine(env, uid, k.users[uid]));
      if r == Ok {
        UserLinesOneWord(env, ls, k, ids[1..], next);
      }
    }
  }

  /** What legible lines store one after the other. */
  ghost function StoredInfos(env: Env, k: Kernel, ids: seq<u8>, m: map<u8, UserInfo>): map<u8, UserInfo>
    requires UsersOf(k, ids)
  {
    if ids == [] then m
    else
      assert ids[0] in ids;
      StoredInfos(env, k, ids[1..], m[TargetOr(env, ids[0]) := InfoRead(k.users[ids[0]])])
  }

  lemma {:induction false} UserLinesStore(env: Env, ls: Listing, k: Kernel, ids: seq<u8>, cur: Kernel)
    requires Honest(env.lib) && InfosLegible(env, k) && UsersOf(k, ids) && cur.config.isServer != 0
    ensures var (last, r) := RunLines(env, ls, cur, UserLines(env, k, ids));
            && (r == Ok <==> forall uid :: uid in ids ==> InfoResolves(env, uid, k.users[uid]))
            && (r == Ok ==> last.users == StoredInfos(env, k, ids, cur.users))
    decreases |ids|
  {
    hide Honest, InfoLegible, RunLine, UserLine, Target, InfoRead, FamilyAdmits, Shown;
    if ids == [] {
    } else {
      var uid := ids[0];
      assert uid in ids && ids == [uid] + ids[1..];
      UserLinesHead(env, ls, k, ids, cur);
      UserLineDoes(env, ls, cur, uid, k.users[uid]);
      if InfoResolves(env, uid, k.users[uid]) {
        UserLinesStore(env, ls, k, ids[1..], cur.(users := cur.users[TargetOr(env, uid) := InfoRead(k.users[uid])]));
      }
    }
  }

  // ---- Which ids the lines store ----

  ghost predicate Aimed(env: Env, ids: seq<u8>, to: u8) {
    exists uid :: uid in ids && TargetOr(env, uid) == to
  }

  lemma {:induction false} StoredIds(env: Env, k: Kernel, ids: seq<u8>, m: map<u8, UserInfo>, to: u8)
    requires UsersOf(k, ids)
    ensures to in StoredInfos(env, k, ids, m) <==> to in m || Aimed(env, ids, to)
  {
    hide TargetOr, InfoRead;
    if ids == [] {
    } else {
      assert ids[0] in ids && ids == [ids[0]] + ids[1..];
      StoredIds(env, k, ids[1..], m[TargetOr(env, ids[0]) := InfoRead(k.users[ids[0]])], to);
      assert Aimed(env, ids, to) <==> TargetOr(env, ids[0]) == to || Aimed(env, ids[1..], to);
    }
  }

  /** Every line stores what the table holds at its target. */
  ghost predicate Agrees(env: Env, k: Kernel, ids: seq<u8>)
    requires UsersOf(k, ids)
  {
    forall uid :: uid in ids ==>
      TargetOr(env, uid) in k.users && k.users[TargetOr(env, uid)] == InfoRead(k.users[uid])
  }

  /** If every line stores what the table holds at its target, so do all. */
  lemma {:induction false} StoredAgrees(env: Env, k: Kernel, ids: seq<u8>, m: map<u8, UserInfo>, to: u8)
    requires UsersOf(k, ids) && Agrees(env, k, ids)
    requires forall x :: x in m ==> x in k.users && k.users[x] == m[x]
    requires to in StoredInfos(env, k, ids, m)
    ensures to in k.users && StoredInfos(env, k, ids, m)[to] == k.users[to]
  {
    hide TargetOr, InfoRead;
    if ids == [] {
    } else {
      assert ids[0] in ids;
      StoredAgrees(env, k, ids[1..], m[TargetOr(env, ids[0]) := InfoRead(k.users[ids[0]])], to);
    }
  }

  /** With different targets, each line's entry stays. */
  lemma {:induction false} StoredAtTarget(env: Env, k: Kernel, ids: seq<u8>, m: map<u8, UserInfo>, uid: u8)
    requires UsersOf(k, ids)
    requires forall i, j :: 0 <= i < j < |ids| ==> TargetOr(env, ids[i]) != TargetOr(env, ids[j])
    requires uid in ids || (!Aimed(env, ids, TargetOr(env, uid)) && uid in k.users && TargetOr(env, uid) in m
                            && m[TargetOr(env, uid)] == InfoRead(k.users[uid]))
    ensures var to, r := TargetOr(env, uid), StoredInfos(env, k, ids, m);
            to in r && r[to] == InfoRead(k.users[uid])
  {
    hide TargetOr, InfoRead;
    if ids == [] {
    } else {
      var first := ids[0];
      assert first in ids && ids == [first] + ids[1..];
      assert forall i :: 0 < i < |ids| ==> ids[i] in ids && ids[1..][i - 1] == ids[i];
      assert !Aimed(env, ids[1..], TargetOr(env, first));
      if uid !in ids {
        assert TargetOr(env, first) != TargetOr(env, uid);
        assert !Aimed(env, ids[1..], TargetOr(env, uid));
      }
      StoredAtTarget(env, k, ids[1..], m[TargetOr(env, first) := InfoRead(k.users[first])], uid);
    }
  }

  ghost function Image(env: Env, ids: set<u8>): set<u8> {
    set uid | uid in ids :: TargetOr(env, uid)
  }

  lemma {:induction false} ImageIsSmall(env: Env, ids: set<u8>)
    ensures |Image(env, ids)| <= |ids|
    decreases |ids|
  {
    hide TargetOr;
    if ids == {} {
      assert Image(env, ids) == {};
    } else {
      var uid :| uid in ids;
      var rest := ids - {uid};
      ImageIsSmall(env, rest);
      assert ids == rest + {uid};
      assert Image(env, ids) == Image(env, rest) + {TargetOr(env, uid)};
    }
  }

  lemma ImageWithout(env: Env, ids: set<u8>, a: u8, b: u8)
    requires a in ids && b in ids && a != b && TargetOr(env, a) == TargetOr(env, b)
    ensures Image(env, ids) <= Image(env, ids - {a})
  {
    hide TargetOr;
    forall to | to in Image(env, ids)
      ensures to in Image(env, ids - {a})
    {
      var uid :| uid in ids && TargetOr(env, uid) == to;
      assert (if uid == a then b else uid) in ids - {a};
    }
  }

  /** Ids that aim at all of themselves aim at different ones. */
  lemma OntoIsInjective(env: Env, ids: set<u8>, a: u8, b: u8)
    requires Image(env, ids) == ids && a in ids && b in ids && a != b
    ensures TargetOr(env, a) != TargetOr(env, b)
  {
    hide TargetOr, Image;
    if TargetOr(env, a) == TargetOr(env, b) {
      ImageWithout(env, ids, a, b);
      ImageIsSmall(env, ids - {a});
      SubsetIsSmaller(ids, Image(env, ids - {a}));
    }
  }

  lemma SubsetIsSmaller(a: set<u8>, b: set<u8>)
    requires a <= b
    ensures |a| <= |b|
  {
    assert b == a + (b - a);
  }

  // ---- The exact condition ----

  /** The words of the users stand for users with the same entries, and for all of them. */
  ghost predicate Permuted(env: Env, k: Kernel) {
    && (forall uid :: uid in k.users ==>
          TargetOr(env, uid) in k.users && k.users[TargetOr(env, uid)] == k.users[uid])
    && (forall to :: to in k.users ==> AimedIn(env, k, to))
  }

  ghost predicate AimedIn(env: Env, k: Kernel, to: u8) {
    exists uid :: uid in k.users && TargetOr(env, uid) == to
  }

  lemma Aimer(env: Env, k: Kernel, to: u8) returns (uid: u8)
    requires AimedIn(env, k, to)
    ensures uid in k.users && TargetOr(env, uid) == to
  {
    hide TargetOr;
    uid :| uid in k.users && TargetOr(env, uid) == to;
  }

  /** What a user's line says besides the user can be run and read back. */
  ghost predicate InfoHolds(env: Env, uid: u8, u: UserInfo) {
    InfoResolves(env, uid, u) && AddressRestorable(env, u.address) && CommentRestorable(u.comment)
  }

  lemma InfoHoldsExactly(env: Env, uid: u8, u: UserInfo)
    requires InfoLegible(env, uid, u)
    ensures InfoHolds(env, uid, u) <==> InfoResolves(env, uid, u) && InfoRead(u) == u
  {
    hide Target, Shown, ToAddr, FamilyAdmits, Copied, UpToNul, SafeWord, KeyRestorable;
    ShownReadBack(u.address);
  }

  /** Reading an entry back twice is reading it back once. */
  lemma InfoReadTwice(u: UserInfo)
    ensures InfoRead(InfoRead(u)) == InfoRead(u)
  {
    hide UpToNul, Copied, Shown, ToAddr, IsCompatible;
    StoredAddress(EgressKey(u.address, 0));
    ShownReadBack(ToAddr(Shown(u.address)));
    TextOfField(u.comment);
  }

  lemma TextOfField(c: Comment)
    ensures UpToNul(Copied(UpToNul(c))) == UpToNul(c)
  {
    CommentKeepsText(UpToNul(c));
  }

  lemma PermutedAgrees(env: Env, k: Kernel, ids: seq<u8>)
    requires UsersOf(k, ids) && Permuted(env, k)
    requires forall uid :: uid in k.users ==> InfoRead(k.users[uid]) == k.users[uid]
    ensures Agrees(env, k, ids)
  {
    hide TargetOr, InfoRead, AimedIn;
  }

  lemma PermutedAims(env: Env, k: Kernel, ids: seq<u8>, to: u8)
    requires Enumerates(ids, k.users) && Permuted(env, k) && to in k.users
    ensures Aimed(env, ids, to)
  {
    hide TargetOr, AimedIn;
    var uid := Aimer(env, k, to);
    assert uid in ids;
  }

  lemma PermutedIsStored(env: Env, ls: Listing, k: Kernel)
    requires Complete(ls) && UsersOf(k, ls.users(k)) && Permuted(env, k)
    requires forall uid :: uid in k.users ==> InfoRead(k.users[uid]) == k.users[uid]
    ensures StoredInfos(env, k, ls.users(k), map[]) == k.users
  {
    var ids := ls.users(k);
    assert Enumerates(ids, k.users);
    PermutedAgrees(env, k, ids);
    hide TargetOr, InfoRead, StoredInfos, Permuted, Enumerates, Complete, Aimed, Agrees;
    var m := StoredInfos(env, k, ids, map[]);
    forall to | to in m
      ensures to in k.users && m[to] == k.users[to]
    {
      StoredAgrees(env, k, ids, map[], to);
    }
    forall to | to in k.users
      ensures to in m
    {
      PermutedAims(env, k, ids, to);
      StoredIds(env, k, ids, map[], to);
    }
    SameMaps(m, k.users);
  }

  lemma SameMaps(a: map<u8, UserInfo>, b: map<u8, UserInfo>)
    requires (forall x :: x in a ==> x in b && a[x] == b[x]) && (forall x :: x in b ==> x in a)
    ensures a == b
  {
  }

  lemma StoredAimedIn(env: Env, ls: Listing, k: Kernel, to: u8)
    requires Complete(ls) && UsersOf(k, ls.users(k)) && StoredInfos(env, k, ls.users(k), map[]) == k.users
    ensures to in k.users <==> AimedIn(env, k, to)
  {
    hide TargetOr, StoredInfos;
    var ids := ls.users(k);
    assert Enumerates(ids, k.users);
    StoredIds(env, k, ids, map[], to);
  }

  lemma StoredIsOnto(env: Env, ls: Listing, k: Kernel)
    requires Complete(ls) && UsersOf(k, ls.users(k)) && StoredInfos(env, k, ls.users(k), map[]) == k.users
    ensures Image(env, k.users.Keys) == k.users.Keys
  {
    hide TargetOr, StoredInfos, Complete, UsersOf;
    forall to: u8
      ensures to in Image(env, k.users.Keys) <==> to in k.users.Keys
    {
      StoredAimedIn(env, ls, k, to);
    }
  }

  lemma StoredTargetsDiffer(env: Env, ls: Listing, k: Kernel, i: nat, j: nat)
    requires Complete(ls) && UsersOf(k, ls.users(k)) && StoredInfos(env, k, ls.users(k), map[]) == k.users
    requires i < j < |ls.users(k)|
    ensures TargetOr(env, ls.users(k)[i]) != TargetOr(env, ls.users(k)[j])
  {
    hide TargetOr, StoredInfos, Image;
    var ids := ls.users(k);
    assert Enumerates(ids, k.users) && ids[i] in ids && ids[j] in ids;
    StoredIsOnto(env, ls, k);
    OntoIsInjective(env, k.users.Keys, ids[i], ids[j]);
  }

  lemma StoredReads(env: Env, ls: Listing, k: Kernel, uid: u8)
    requires Complete(ls) && UsersOf(k, ls.users(k)) && StoredInfos(env, k, ls.users(k), map[]) == k.users
    requires uid in k.users
    ensures TargetOr(env, uid) in k.users && k.users[TargetOr(env, uid)] == InfoRead(k.users[uid])
  {
    hide TargetOr, StoredInfos, InfoRead, Image, Aimed;
    var ids := ls.users(k);
    assert Enumerates(ids, k.users);
    forall i, j | 0 <= i < j < |ids|
      ensures TargetOr(env, ids[i]) != TargetOr(env, ids[j])
    {
      StoredTargetsDiffer(env, ls, k, i, j);
    }
    StoredAtTarget(env, k, ids, map[], uid);
  }

  lemma StoredFixed(env: Env, ls: Listing, k: Kernel, uid: u8)
    requires Complete(ls) && UsersOf(k, ls.users(k)) && StoredInfos(env, k, ls.users(k), map[]) == k.users
    requires uid in k.users
    ensures InfoRead(k.users[uid]) == k.users[uid]
    ensures TargetOr(env, uid) in k.users && k.users[TargetOr(env, uid)] == k.users[uid]
  {
    hide TargetOr, StoredInfos, InfoRead, Complete, UsersOf, AimedIn;
    StoredAimedIn(env, ls, k, uid);
    var from := Aimer(env, k, uid);
    StoredReads(env, ls, k, from);
    InfoReadTwice(k.users[from]);
    StoredReads(env, ls, k, uid);
  }

  lemma StoredIsPermuted(env: Env, ls: Listing, k: Kernel)
    requires Complete(ls) && UsersOf(k, ls.users(k)) && StoredInfos(env, k, ls.users(k), map[]) == k.users
    ensures Permuted(env, k) && forall uid :: uid in k.users ==> InfoRead(k.users[uid]) == k.users[uid]
  {
    hide TargetOr, StoredInfos, InfoRead, Complete, UsersOf, AimedIn;
    forall uid | uid in k.users
      ensures AimedIn(env, k, uid)
      ensures InfoRead(k.users[uid]) == k.users[uid]
      ensures TargetOr(env, uid) in k.users && k.users[TargetOr(env, uid)] == k.users[uid]
    {
      StoredAimedIn(env, ls, k, uid);
      StoredFixed(env, ls, k, uid);
    }
  }

  lemma RebuiltInfosSpeak(env: Env, ls: Listing, k: Kernel, ready: Kernel)
    requires Honest(env.lib) && InfosSpoken(env, k) && UsersOf(k, ls.users(k)) && ready.users == map[]
    requires RunLines(env, ls, ready, UserLines(env, k, ls.users(k))).0.users == k.users
    ensures InfosLegible(env, k)
  {
    hide Honest, OneWord, RunLines, UserLines, KeyRestorable, Phrase, CommentSpeaks, SafeWord;
    UserLinesOneWord(env, ls, k, ls.users(k), ready);
    forall uid | uid in k.users
      ensures InfoLegible(env, uid, k.users[uid])
    {
      assert SpokenInfo(env, uid, k.users[uid]);
      OneWordSpeaks(k.users[uid].comment);
    }
  }

  lemma HoldingIsLegible(env: Env, k: Kernel)
    requires InfosSpoken(env, k) && forall uid :: uid in k.users ==> InfoHolds(env, uid, k.users[uid])
    ensures InfosLegible(env, k)
  {
    hide CommentSpeaks, Phrase, KeyRestorable, SafeWord, AddressRestorable, InfoResolves;
    forall uid | uid in k.users
      ensures InfoLegible(env, uid, k.users[uid])
    {
      assert SpokenInfo(env, uid, k.users[uid]) && InfoHolds(env, uid, k.users[uid]);
    }
  }

  lemma LegibleServerExactly(env: Env, ls: Listing, k: Kernel, ready: Kernel)
    requires Honest(env.lib) && Complete(ls) && InfosLegible(env, k) && UsersOf(k, ls.users(k))
    requires ready.users == map[] && ready.config.isServer != 0
    ensures var (last, r) := RunLines(env, ls, ready, UserLines(env, k, ls.users(k)));
            r == Ok && last.users == k.users
            <==> Permuted(env, k) && forall uid :: uid in k.users ==> InfoHolds(env, uid, k.users[uid])
  {
    hide Honest, RunLines, UserLines, InfoLegible, InfoHolds, Permuted, InfoResolves, InfoRead, StoredInfos;
    var ids := ls.users(k);
    assert Enumerates(ids, k.users);
    UserLinesStore(env, ls, k, ids, ready);
    forall uid | uid in k.users
      ensures InfoHolds(env, uid, k.users[uid])
         <==> InfoResolves(env, uid, k.users[uid]) && InfoRead(k.users[uid]) == k.users[uid]
    {
      InfoHoldsExactly(env, uid, k.users[uid]);
    }
    if StoredInfos(env, k, ids, map[]) == k.users {
      StoredIsPermuted(env, ls, k);
    } else if Permuted(env, k) && forall uid :: uid in k.users ==> InfoHolds(env, uid, k.users[uid]) {
      PermutedIsStored(env, ls, k);
    }
  }

  /** Server mode: for a table of spoken users, running the dump from an empty table succeeds and restores the table if
      and only if every user's line can be run and read back, and the users' words stand for users with the same
      entries, each for another one. */
  lemma ServerDumpRestoredExactly(env: Env, ls: Listing, k: Kernel, stamp: string, start: Kernel)
    requires Honest(env.lib) && Complete(ls) && k.config.isServer != 0 && InfosSpoken(env, k)
    requires start.users == map[]
    ensures var (last, r) := RunLines(env, ls, start, DumpLines(env, ls, k, stamp));
            r == Ok && last.users == k.users
            <==> Permuted(env, k) && forall uid :: uid in k.users ==> InfoHolds(env, uid, k.users[uid])
  {
    hide Honest, RunLines, DumpLines, UserLines, InfosSpoken, InfosLegible, InfoHolds, Permuted;
    var ready := start.(config := TutuConfig(k.config.sessionMaxAge, 1));
    ServerHeadRuns(env, ls, k, stamp, start);
    assert Enumerates(ls.users(k), k.users) && UsersOf(k, ls.users(k));
    var (last, r) := RunLines(env, ls, ready, UserLines(env, k, ls.users(k)));
    if r == Ok && last.users == k.users {
      RebuiltInfosSpeak(env, ls, k, ready);
      LegibleServerExactly(env, ls, k, ready);
    } else if forall uid :: uid in k.users ==> InfoHolds(env, uid, k.users[uid]) {
      HoldingIsLegible(env, k);
      LegibleServerExactly(env, ls, k, ready);
    }
  }

  // ---- Users shown by name ----

  /** When names are shown, an id found for a user's word is found for its own word too. */
  lemma NamedTargetStays(env: Env, uid: u8)
    requires !env.numeric && Iterates(env.order, env.names) && Target(env, uid).Success?
    ensures Target(env, Target(env, uid).value) == Target(env, uid)
  {
    var word := UserWords(env, uid).1;
    UidOfFinds(env.names, env.order, word);
    if uid !in env.names {
      DecRoundTrip(uid, 255);
    }
  }

  lemma NamedUserReadsBack(env: Env, k: Kernel, uid: u8)
    requires !env.numeric && Iterates(env.order, env.names) && uid in k.users && Permuted(env, k)
    requires forall uid :: uid in k.users ==> Target(env, uid).Success?
    ensures UserReadsBack(env, uid)
  {
    hide UserWords, ResolveUid, AimedIn, Iterates;
    var from := Aimer(env, k, uid);
    NamedTargetStays(env, from);
  }

  lemma HoldingReadBack(env: Env, uid: u8, u: UserInfo)
    requires InfoHolds(env, uid, u) && SpokenInfo(env, uid, u) && UserReadsBack(env, uid)
    ensures InfoRestorable(env, uid, u) && u.dport != 0
  {
    hide AddressRestorable, CommentRestorable, KeyRestorable, SafeWord, UserWords, Phrase, ResolveUid;
  }

  /** When names are shown, the exact condition is about each user alone. */
  lemma NamedPermuted(env: Env, k: Kernel)
    requires !env.numeric && Iterates(env.order, env.names) && InfosSpoken(env, k)
    ensures Permuted(env, k) && (forall uid :: uid in k.users ==> InfoHolds(env, uid, k.users[uid]))
       <==> forall uid :: uid in k.users ==> InfoRestorable(env, uid, k.users[uid]) && k.users[uid].dport != 0
  {
    hide Iterates, InfoRestorable, Permuted, SpokenInfo, UserReadsBack;
    if Permuted(env, k) && forall uid :: uid in k.users ==> InfoHolds(env, uid, k.users[uid]) {
      forall uid | uid in k.users
        ensures InfoRestorable(env, uid, k.users[uid]) && k.users[uid].dport != 0
      {
        NamedUserReadsBack(env, k, uid);
        HoldingReadBack(env, uid, k.users[uid]);
      }
    }
    if forall uid :: uid in k.users ==> InfoRestorable(env, uid, k.users[uid]) && k.users[uid].dport != 0 {
      RestorableIsPermuted(env, k);
    }
  }

  /** When names are shown, running the dump of a server restores the table if and only if every user is restorable and
      has a port. */
  lemma NamedServerDumpRestoredExactly(env: Env, ls: Listing, k: Kernel, stamp: string, start: Kernel)
    requires Honest(env.lib) && Complete(ls) && k.config.isServer != 0 && InfosSpoken(env, k)
    requires !env.numeric && Iterates(env.order, env.names) && start.users == map[]
    ensures var (last, r) := RunLines(env, ls, start, DumpLines(env, ls, k, stamp));
            r == Ok && last.users == k.users
            <==> forall uid :: uid in k.users ==> InfoRestorable(env, uid, k.users[uid]) && k.users[uid].dport != 0
  {
    hide Honest, Complete, RunLines, DumpLines, InfosSpoken, Iterates, InfoRestorable, Permuted, InfoHolds;
    ServerDumpRestoredExactly(env, ls, k, stamp, start);
    NamedPermuted(env, k);
  }

  lemma RestorableIsPermuted(env: Env, k: Kernel)
    requires forall uid :: uid in k.users ==> InfoRestorable(env, uid, k.users[uid]) && k.users[uid].dport != 0
    ensures Permuted(env, k) && forall uid :: uid in k.users ==> InfoHolds(env, uid, k.users[uid])
  {
    hide CommentRestorable, KeyRestorable, SafeWord, UserWords, ResolveUid;
    forall uid | uid in k.users
      ensures TargetOr(env, uid) == uid && InfoHolds(env, uid, k.users[uid])
    {
      assert InfoRestorable(env, uid, k.users[uid]);
    }
  }

  lemma NumericTargets(env: Env)
    requires env.numeric && env.names == map[1 := "2", 2 := "1"] && Iterates(env.order, env.names)
    ensures Target(env, 1) == Success(2) && Target(env, 2) == Success(1)
  {
    assert PrintDec(1) == "1" && PrintDec(2) == "2";
    assert "1"[0] != "2"[0] && 1 in env.names && 2 in env.names;
    UidOfFinds(env.names, env.order, "1");
    UidOfFinds(env.names, env.order, "2");
    hide PrintDec, UidOf;
    assert UidOf(env.names, env.order, "1") == Some(2) && UidOf(env.names, env.order, "2") == Some(1);
  }

  /** Two users, shown by their ids, with equal entries that can be restored, each named by the other's id. */
  ghost predicate Crossed(env: Env, k: Kernel) {
    && env.numeric && env.names == map[1 := "2", 2 := "1"] && Iterates(env.order, env.names)
    && k.users.Keys == {1, 2} && k.users[1] == k.users[2] && k.users[1].dport != 0
    && AddressRestorable(env, k.users[1].address) && CommentRestorable(k.users[1].comment)
    && KeyRestorable(k.users[1].xorKey, k.users[1].xorKeyLen)
  }

  lemma CrossedTargets(env: Env, k: Kernel)
    requires Crossed(env, k)
    ensures Target(env, 1) == Success(2) && Target(env, 2) == Success(1) && Permuted(env, k)
    ensures 1 in k.users && 2 in k.users
    ensures !InfoRestorable(env, 1, k.users[1]) && !InfoRestorable(env, 2, k.users[2])
  {
    hide AddressRestorable, CommentRestorable, KeyRestorable, UserReadsBack;
    NumericTargets(env);
    hide Target, Iterates;
    SwappedArePermuted(env, k);
    ReadsBackIsTarget(env, 1);
    ReadsBackIsTarget(env, 2);
    assert 1 in k.users.Keys && 2 in k.users.Keys;
  }

  lemma CrossedUser(env: Env, k: Kernel, uid: u8)
    requires Crossed(env, k) && uid in k.users
    ensures env.numeric && (uid == 1 || uid == 2) && k.users[uid].dport != 0
    ensures AddressRestorable(env, k.users[uid].address) && CommentRestorable(k.users[uid].comment)
    ensures KeyRestorable(k.users[uid].xorKey, k.users[uid].xorKeyLen)
  {
    hide AddressRestorable, CommentRestorable, KeyRestorable, Iterates;
    assert uid in k.users.Keys;
  }

  lemma CrossedHolds(env: Env, k: Kernel, uid: u8)
    requires Crossed(env, k) && uid in k.users
    ensures SpokenInfo(env, uid, k.users[uid]) && InfoHolds(env, uid, k.users[uid])
  {
    hide AddressRestorable, CommentRestorable, KeyRestorable, Crossed, Permuted, Target, InfoRestorable, SpokenInfo,
         InfoHolds;
    CrossedTargets(env, k);
    CrossedUser(env, k, uid);
    NumericHolds(env, uid, k.users[uid]);
  }

  /** When ids are shown, two users with equal entries, each named by the other's id, are exchanged by the script: the
      table is restored although neither user is restorable by itself. */
  lemma NumericNamesMaySwap(env: Env, ls: Listing, k: Kernel, stamp: string, start: Kernel)
    requires Honest(env.lib) && Complete(ls) && k.config.isServer != 0 && start.users == map[] && Crossed(env, k)
    ensures Target(env, 1) == Success(2) && Target(env, 2) == Success(1)
    ensures 1 in k.users && !InfoRestorable(env, 1, k.users[1]) && 2 in k.users && !InfoRestorable(env, 2, k.users[2])
    ensures var (last, r) := RunLines(env, ls, start, DumpLines(env, ls, k, stamp)); r == Ok && last.users == k.users
  {
    hide Honest, Complete, RunLines, DumpLines, Crossed, Permuted, SpokenInfo, InfoHolds, InfoRestorable, Target;
    CrossedTargets(env, k);
    forall uid | uid in k.users
      ensures SpokenInfo(env, uid, k.users[uid]) && InfoHolds(env, uid, k.users[uid])
    {
      CrossedHolds(env, k, uid);
    }
    ServerDumpRestoredExactly(env, ls, k, stamp, start);
  }

  lemma NumericHolds(env: Env, uid: u8, u: UserInfo)
    requires env.numeric && Target(env, uid).Success? && u.dport != 0
    requires AddressRestorable(env, u.address) && CommentRestorable(u.comment) && KeyRestorable(u.xorKey, u.xorKeyLen)
    ensures SpokenInfo(env, uid, u) && InfoHolds(env, uid, u)
  {
    NumericWordSafe(env, uid);
    RestorableSpeaks(u.comment);
    RestorableAdmitted(env, u.address);
    hide Target, Phrase, SafeWord, UserWords, KeyRestorable, CommentRestorable, AddressRestorable, FamilyAdmits, Shown;
  }

  lemma SwappedArePermuted(env: Env, k: Kernel)
    requires Target(env, 1) == Success(2) && Target(env, 2) == Success(1)
    requires k.users.Keys == {1, 2} && k.users[1] == k.users[2]
    ensures Permuted(env, k)
  {
    hide Target;
    assert TargetOr(env, 1) == 2 && TargetOr(env, 2) == 1;
    hide TargetOr;
    assert 1 in k.users.Keys && 2 in k.users.Keys;
  }

  lemma NumericWordSafe(env: Env, uid: u8)
    requires env.numeric
    ensures SafeWord(UserWords(env, uid).1)
  {
    PrintDecSafe(uid);
  }

  lemma RestorableSpeaks(c: Comment)
    requires CommentRestorable(c)
    ensures Phrase(UpToNul(c))
  {
    var text := UpToNul(c);
    if text == "" {
      assert SafeWords([]) && text == Join([]);
    } else {
      assert SafeWords([text]) && text == Join([text]);
    }
  }

  lemma RestorableAdmitted(env: Env, a: Addr)
    requires AddressRestorable(env, a)
    ensures FamilyAdmits(env.family, Shown(a))
  {
  }

  lemma ReadsBackIsTarget(env: Env, uid: u8)
    ensures UserReadsBack(env, uid) <==> Target(env, uid) == Success(uid)
  {
  }
}

/** What each configuration command does to the kernel's tables, told from its argument list, for every luck. */
module CommandResults {
  import opened Wrappers
  import opened Ints
  import opened Net
  import opened Text
  import opened Helper
  import opened Commands

  // ---- Arguments ----

  function WordsKnown(form: Form): set<string> {
    match form
    case ClientAddForm => {"address", "addr", "port", "uid", "user", "comment", "xor"}
    case ClientDelForm => {"address", "addr", "uid", "user"}
    case ServerAddForm => {"address", "addr", "port", "icmp-id", "uid", "user", "comment", "xor"}
    case ServerDelForm => {"uid", "user"}
  }

  /** The words each command knows; two of them have a second form. */
  lemma KeywordsExact(form: Form, s: string)
    ensures Knows(form, KeywordOf(s)) <==> s in WordsKnown(form)
    ensures KeywordOf("addr") == KeywordOf("address") == KwAddress && KeywordOf("user") == KeywordOf("uid") == KwUid
    ensures KeywordOf("port") == KwPort && KeywordOf("icmp-id") == KwIcmpId
    ensures KeywordOf("comment") == KwComment && KeywordOf("xor") == KwXor
  {
  }

  /** Every known keyword has a value that can be read. */
  ghost predicate WellGiven(env: Env, form: Form, args: seq<string>) {
    !Dangling(form, args, 0) && forall p :: p in PairsFrom(form, args, 0) ==> Readable(env, p)
  }

  ghost function Given(env: Env, form: Form, args: seq<string>): Args {
    Meant(env, PairsFrom(form, args, 0))
  }

  // ---- Stored fields ----

  /** A port as the kernel stores it: the two bytes swapped. */
  function NetPort(port: u16): u16 {
    0x100 * (port % 0x100) + port / 0x100
  }

  ghost predicate KeyGiven(hex: string) {
    hex == "" || (|hex| % 2 == 0 && |hex| <= 128 && IsHex(hex))
  }

  function HexDigitAt(hex: string, i: nat): nat {
    if i < |hex| && HexValue(hex[i]).Some? then HexValue(hex[i]).value else 0
  }

  /** The key of a string of digits: two digits a byte, the high half first, and zeros behind. */
  ghost predicate KeyReads(key: Key, hex: string) {
    forall i :: 0 <= i < XOR_KEY_MAX ==> key[i] == 16 * HexDigitAt(hex, 2 * i) + HexDigitAt(hex, 2 * i + 1)
  }

  ghost predicate CommentReads(c: Comment, text: string) {
    forall i :: 0 <= i < COMMENT_LEN ==> c[i] == if i < |text| then text[i] else '\0'
  }

  lemma KeyOfExact(hex: string)
    ensures KeyOf(hex).Success? <==> KeyGiven(hex)
    ensures KeyGiven(hex) ==> KeyReads(KeyOf(hex).value.0, hex) && KeyOf(hex).value.1 == |hex| / 2
  {
    hide HexValue, IsHex;
    if hex != "" {
      XorParseFormat(hex);
      if KeyGiven(hex) {
        HexBytesLength(hex);
        forall i | 0 <= i < XOR_KEY_MAX
          ensures KeyOf(hex).value.0[i] == 16 * HexDigitAt(hex, 2 * i) + HexDigitAt(hex, 2 * i + 1)
        {
          if 2 * i < |hex| {
            HexBytesAt(hex, i);
          }
        }
      }
    }
  }

  lemma SwapIsNetPort(port: u16)
    ensures Swap16(port) == NetPort(port)
  {
  }

  /** The peer of an adding command's arguments: when there is one, and its fields. */
  lemma ResolveExact(env: Env, k: Kernel, a: Args, mode: bool, query: bool)
    ensures Resolve(env, k, a, mode, query).Success?
       <==> a.address != "" && a.port != 0 && a.uidSet && query && (k.config.isServer != 0 <==> mode)
            && ResolveIp(env, a.address).Success? && KeyGiven(a.xorHex)
    ensures Resolve(env, k, a, mode, query).Success? ==>
              var p := Resolve(env, k, a, mode, query).value;
              && p.address == ResolveIp(env, a.address).value && p.port == NetPort(a.port) && p.uid == a.uid
              && CommentReads(p.comment, a.comment) && KeyReads(p.xorKey, a.xorHex) && p.xorKeyLen == |a.xorHex| / 2
  {
    hide ResolveIp, KeyOf, KeyGiven, KeyReads;
    KeyOfExact(a.xorHex);
    SwapIsNetPort(a.port);
  }

  /** Why there is none: the checks in their order. */
  lemma ResolveRefuses(env: Env, k: Kernel, a: Args, mode: bool, query: bool, e: Error)
    requires Resolve(env, k, a, mode, query) == Failure(e)
    ensures var given, role := a.address != "" && a.port != 0 && a.uidSet, k.config.isServer != 0 <==> mode;
            if !given then e == Unspecified
            else if !query then e == KernelError
            else if !role then e == WrongMode
            else if ResolveIp(env, a.address).Failure? then ResolveIp(env, a.address) == Failure(e)
            else !KeyGiven(a.xorHex) && XorBytes(a.xorHex) == Failure(e)
  {
    hide ResolveIp, XorBytes, KeyGiven;
    KeyOfExact(a.xorHex);
  }

  // ---- Adding ----

  /** When the arguments of an adding command give a peer, on a kernel in the role asked for. */
  ghost predicate GivesPeer(env: Env, k: Kernel, form: Form, args: seq<string>, server: bool) {
    var a := Given(env, form, args);
    && WellGiven(env, form, args) && a.address != "" && a.port != 0 && a.uidSet
    && (k.config.isServer != 0 <==> server) && ResolveIp(env, a.address).Success? && KeyGiven(a.xorHex)
  }

  /** `client-add` does nothing unless its arguments give a peer and the kernel is in client mode. Then it writes the
      ingress entry if there is none under its key, and the egress entry once that was acknowledged; it succeeds if
      both were. */
  lemma ClientAddExactly(env: Env, k: Kernel, args: seq<string>, l: Lucks) returns (key: Key, comment: Comment)
    ensures var (k', r) := ClientAdd(env, k, args, l);
            if !GivesPeer(env, k, ClientAddForm, args, false) || !l.query then k' == k && r != Ok
            else
              var a := Given(env, ClientAddForm, args);
              var address, len: nat := ResolveIp(env, a.address).value, |a.xorHex| / 2;
              var ikey, ekey := IngressKey(address, a.uid), EgressKey(address, NetPort(a.port));
              var free := ikey !in k.ingress;
              && KeyReads(key, a.xorHex) && CommentReads(comment, a.comment) && len <= XOR_KEY_MAX
              && (r == Ok <==> free && l.first == Fine && l.second == Fine)
              && k'.config == k.config && k'.users == k.users
              && k'.ingress == (if free && l.first != Lost
                                then k.ingress[ikey := IngressValue(key, len, NetPort(a.port))] else k.ingress)
              && k'.egress == (if free && l.first == Fine && l.second != Lost
                               then k.egress[ekey := EgressValue(key, comment, len, a.uid)] else k.egress)
  {
    hide Scan, Resolve, ResolveIp, IsHex, KeyReads, CommentReads, Meant, WellGiven;
    ScanIsGiven(env, ClientAddForm, args);
    var a := Given(env, ClientAddForm, args);
    ResolveExact(env, k, a, false, l.query);
    key, comment := ZeroKey(), ZeroComment();
    if GivesPeer(env, k, ClientAddForm, args, false) && l.query {
      var p := Resolve(env, k, a, false, l.query).value;
      key, comment := p.xorKey, p.comment;
      AddPeerExactly(k, p, l);
    }
  }

  function ZeroKey(): Key {
    seq(XOR_KEY_MAX, _ => 0)
  }

  function ZeroComment(): Comment {
    Nuls(COMMENT_LEN)
  }

  lemma ScanIsGiven(env: Env, form: Form, args: seq<string>)
    ensures Scan(env, form, args, 0, NO_ARGS).Success? <==> WellGiven(env, form, args)
    ensures WellGiven(env, form, args) ==> Scan(env, form, args, 0, NO_ARGS).value == Given(env, form, args)
  {
    ScanExact(env, form, args);
  }

  lemma AddPeerExactly(k: Kernel, p: Peer, l: Lucks)
    ensures var (k', r) := AddPeer(k, p, l);
            var ikey, ekey := IngressKey(p.address, p.uid), EgressKey(p.address, p.port);
            var free := ikey !in k.ingress;
            && (r == Ok <==> free && l.first == Fine && l.second == Fine)
            && k'.config == k.config && k'.users == k.users
            && k'.ingress == (if free && l.first != Lost
                              then k.ingress[ikey := IngressValue(p.xorKey, p.xorKeyLen, p.port)] else k.ingress)
            && k'.egress == (if free && l.first == Fine && l.second != Lost
                             then k.egress[ekey := EgressValue(p.xorKey, p.comment, p.xorKeyLen, p.uid)] else k.egress)
  {
  }

  /** `server-add` does nothing unless its arguments give a user and the kernel is in server mode. Then it writes the
      user's entry, whatever was there, and succeeds if that was acknowledged. */
  lemma ServerAddExactly(env: Env, k: Kernel, args: seq<string>, l: Lucks) returns (key: Key, comment: Comment)
    ensures var (k', r) := ServerAdd(env, k, args, l);
            if !GivesPeer(env, k, ServerAddForm, args, true) || !l.query then k' == k && r != Ok
            else
              var a := Given(env, ServerAddForm, args);
              var address, len: nat := ResolveIp(env, a.address).value, |a.xorHex| / 2;
              && KeyReads(key, a.xorHex) && CommentReads(comment, a.comment) && len <= XOR_KEY_MAX
              && (r == Ok <==> l.first == Fine)
              && k' == k.(users := k'.users)
              && k'.users == (if l.first == Lost then k.users
                              else k.users[a.uid := UserInfo(address, NetPort(a.icmpId), NetPort(a.port), comment, key,
                                                             len)])
  {
    hide Scan, Resolve, ResolveIp, IsHex, KeyReads, CommentReads, Meant, WellGiven;
    ScanIsGiven(env, ServerAddForm, args);
    var a := Given(env, ServerAddForm, args);
    ResolveExact(env, k, a, true, l.query);
    key, comment := ZeroKey(), ZeroComment();
    if GivesPeer(env, k, ServerAddForm, args, true) && l.query {
      var p := Resolve(env, k, a, true, l.query).value;
      key, comment := p.xorKey, p.comment;
      SwapIsNetPort(a.icmpId);
    }
  }

  // ---- Deleting ----

  /** The entry at a place in the listing is the user's, at the address. */
  predicate Hits(k: Kernel, dump: seq<EgressKey>, i: int, address: Addr, uid: u8) {
    0 <= i < |dump| && dump[i] in k.egress && k.egress[dump[i]].uid == uid && dump[i].address == address
  }

  /** The match is the last one in the listing. */
  lemma {:induction false} LastMatchExact(k: Kernel, dump: seq<EgressKey>, address: Addr, uid: u8)
    ensures match LastMatch(k, dump, address, uid)
            case None => forall i :: !Hits(k, dump, i, address, uid)
            case Some(key) =>
              exists i :: Hits(k, dump, i, address, uid) && dump[i] == key
                          && forall j :: Hits(k, dump, j, address, uid) ==> j <= i
  {
    if dump != [] {
      var front := dump[..|dump| - 1];
      LastMatchExact(k, front, address, uid);
      assert forall i :: Hits(k, front, i, address, uid) <==> i < |dump| - 1 && Hits(k, dump, i, address, uid);
      if Hits(k, dump, |dump| - 1, address, uid) {
      } else if LastMatch(k, front, address, uid).Some? {
        var i :| Hits(k, front, i, address, uid) && front[i] == LastMatch(k, front, address, uid).value
                 && forall j :: Hits(k, front, j, address, uid) ==> j <= i;
        assert Hits(k, dump, i, address, uid) && dump[i] == front[i];
      }
    }
  }

  ghost predicate GivesDeletion(env: Env, args: seq<string>) {
    var a := Given(env, ClientDelForm, args);
    WellGiven(env, ClientDelForm, args) && a.address != "" && a.uidSet && ResolveIp(env, a.address).Success?
  }

  /** `client-del` does nothing unless its arguments give an address and a user. Then it deletes the last listed egress
      entry of the user at the address, if there is one, and once that was acknowledged the ingress entry; it succeeds
      whether or not there was any of them. */
  lemma ClientDelExactly(env: Env, k: Kernel, args: seq<string>, dump: seq<EgressKey>, l: Lucks)
    ensures var (k', r) := ClientDel(env, k, args, dump, l);
            if !GivesDeletion(env, args) || !l.query then k' == k && r != Ok
            else
              var a := Given(env, ClientDelForm, args);
              var address := ResolveIp(env, a.address).value;
              var ikey := IngressKey(address, a.uid);
              var none := forall i :: !Hits(k, dump, i, address, a.uid);
              && (r == Ok <==> none || l.first == Fine)
              && k'.config == k.config && k'.users == k.users
              && k'.ingress == (if r == Ok && l.second != Lost then k.ingress - {ikey} else k.ingress)
              && if none || l.first == Lost then k'.egress == k.egress
                 else exists i :: Hits(k, dump, i, address, a.uid) && k'.egress == k.egress - {dump[i]}
                                  && forall j :: Hits(k, dump, j, address, a.uid) ==> j <= i
  {
    hide Scan, ResolveIp, Meant, WellGiven, LastMatch;
    ScanIsGiven(env, ClientDelForm, args);
    if GivesDeletion(env, args) && l.query {
      var a := Given(env, ClientDelForm, args);
      var address := ResolveIp(env, a.address).value;
      LastMatchExact(k, dump, address, a.uid);
      DropPeerExactly(k, dump, LastMatch(k, dump, address, a.uid), address, a.uid, l);
    }
  }

  lemma DropPeerExactly(
      k: Kernel, dump: seq<EgressKey>, found: Option<EgressKey>, address: Addr, uid: u8, l: Lucks)
    requires found.Some? ==> found.value in k.egress
    ensures var (k', r) := DropPeer(k, found, address, uid, l);
            && (r == Ok <==> found.None? || l.first == Fine)
            && k'.config == k.config && k'.users == k.users
            && k'.egress == (if found.None? || l.first == Lost then k.egress else k.egress - {found.value})
            && k'.ingress == (if r == Ok && l.second != Lost then k.ingress - {IngressKey(address, uid)} else k.ingress)
  {
    var ikey := IngressKey(address, uid);
    assert ikey !in k.ingress ==> k.ingress - {ikey} == k.ingress;
  }

  /** `server-del` deletes the user given, and succeeds exactly when there was one and the kernel said so. */
  lemma ServerDelExactly(env: Env, k: Kernel, args: seq<string>, l: Lucks)
    ensures var (k', r) := ServerDel(env, k, args, l);
            var a := Given(env, ServerDelForm, args);
            if !WellGiven(env, ServerDelForm, args) || !a.uidSet then k' == k && r != Ok
            else
              && (r == Ok <==> a.uid in k.users && l.first == Fine)
              && k' == k.(users := k'.users)
              && k'.users == (if l.first == Lost then k.users else k.users - {a.uid})
  {
    hide Scan, Meant, WellGiven;
    ScanIsGiven(env, ServerDelForm, args);
    var a := Given(env, ServerDelForm, args);
    assert a.uid !in k.users ==> k.users - {a.uid} == k.users;
  }

  // ---- The role ----

  /** The values that follow "max-age"; a value is never taken for the word itself, and a last word has none. */
  ghost function AgesFrom(args: seq<string>, i: nat): seq<string>
    decreases |args| - i
  {
    if i + 1 >= |args| then []
    else if args[i] == "max-age" then [args[i + 1]] + AgesFrom(args, i + 2)
    else AgesFrom(args, i + 1)
  }

  ghost predicate AgesReadable(ages: seq<string>) {
    forall v :: v in ages ==> ParseDec(v, 0xFFFF_FFFF).Some?
  }

  ghost function LastAge(ages: seq<string>, start: nat): nat
    requires AgesReadable(ages)
  {
    if ages == [] then start else ParseDec(ages[|ages| - 1], 0xFFFF_FFFF).value
  }

  lemma {:induction false} MaxAgeExact(args: seq<string>, i: nat, start: u32)
    ensures var r, ages := ScanMaxAge(args, i, start), AgesFrom(args, i);
            && (r.Success? <==> AgesReadable(ages))
            && (r.Success? ==> r.value == LastAge(ages, start))
    decreases |args| - i
  {
    hide ParseDec;
    if i + 1 >= |args| {
      assert ScanMaxAge(args, i, start) == Success(start);
    } else if args[i] == "max-age" {
      var v, rest := args[i + 1], AgesFrom(args, i + 2);
      assert AgesFrom(args, i) == [v] + rest;
      assert v in AgesFrom(args, i) && AgesReadable(AgesFrom(args, i)) ==> AgesReadable(rest);
      if ParseDec(v, 0xFFFF_FFFF).Some? {
        NumberInRange(v, 0xFFFF_FFFF);
        MaxAgeExact(args, i + 2, ParseDec(v, 0xFFFF_FFFF).value);
      }
    } else {
      MaxAgeExact(args, i + 1, start);
    }
  }

  /** `server` sets server mode with the last "max-age" given, 60 without one; `client` sets client mode and age 0.
      Neither touches the tables. */
  lemma ModeExactly(k: Kernel, args: seq<string>, l: Lucks)
    ensures var (k', r) := ServerMode(k, args, l);
            if !AgesReadable(AgesFrom(args, 0)) then k' == k && r != Ok
            else
              && (r == Ok <==> l.first == Fine)
              && k' == (if l.first == Lost then k
                        else k.(config := TutuConfig(LastAge(AgesFrom(args, 0), 60), 1)))
    ensures var (k', r) := ClientMode(k, l);
            && (r == Ok <==> l.first == Fine)
            && k' == (if l.first == Lost then k else k.(config := TutuConfig(0, 0)))
  {
    MaxAgeExact(args, 0, DEFAULT_MAX_AGE);
  }
}

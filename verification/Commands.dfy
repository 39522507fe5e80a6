/** The configuration commands of the control tool, as transitions on the kernel's tables.

    The kernel module is modelled by its keyed maps and the insertion flags of the protocol. A command may
    fail at any of its kernel calls, before or after the kernel has carried the call out. */
module Commands {
  import opened Wrappers
  import opened Ints
  import opened Net
  import opened Text
  import opened Helper

  // ---- The kernel's tables ----

  datatype TutuConfig = TutuConfig(sessionMaxAge: u32, isServer: u8)
  /** Ports are in network byte order. */
  datatype EgressKey = EgressKey(address: Addr, port: u16)
  datatype EgressValue = EgressValue(xorKey: Key, comment: Comment, xorKeyLen: u8, uid: u8)
  datatype IngressKey = IngressKey(address: Addr, uid: u8)
  datatype IngressValue = IngressValue(xorKey: Key, xorKeyLen: u8, port: u16)
  datatype UserInfo = UserInfo(
    address: Addr, icmpId: u16, dport: u16, comment: Comment, xorKey: Key, xorKeyLen: u8)

  datatype Kernel = Kernel(
    config: TutuConfig,
    egress: map<EgressKey, EgressValue>,
    ingress: map<IngressKey, IngressValue>,
    users: map<u8, UserInfo>)

  datatype Flags = Any | NoExist | Exist

  datatype Request =
    | SetConfig(config: TutuConfig)
    | UpdateEgress(ekey: EgressKey, evalue: EgressValue, flags: Flags)
    | DeleteEgress(ekey: EgressKey)
    | UpdateIngress(ikey: IngressKey, ivalue: IngressValue, flags: Flags)
    | DeleteIngress(ikey: IngressKey)
    | UpdateUser(uid: u8, info: UserInfo, flags: Flags)
    | DeleteUser(uid: u8)

  predicate Permits(flags: Flags, present: bool) {
    match flags
    case Any => true
    case NoExist => !present
    case Exist => present
  }

  /** The kernel carries a request out, or refuses it. */
  function Serve(k: Kernel, r: Request): Option<Kernel> {
    match r
    case SetConfig(c) => Some(k.(config := c))
    case UpdateEgress(key, value, flags) =>
      if Permits(flags, key in k.egress) then Some(k.(egress := k.egress[key := value])) else None
    case DeleteEgress(key) => if key in k.egress then Some(k.(egress := k.egress - {key})) else None
    case UpdateIngress(key, value, flags) =>
      if Permits(flags, key in k.ingress) then Some(k.(ingress := k.ingress[key := value])) else None
    case DeleteIngress(key) => if key in k.ingress then Some(k.(ingress := k.ingress - {key})) else None
    case UpdateUser(uid, info, flags) =>
      if Permits(flags, uid in k.users) then Some(k.(users := k.users[uid := info])) else None
    case DeleteUser(uid) => if uid in k.users then Some(k.(users := k.users - {uid})) else None
  }

  /** How one kernel call goes: served, lost on the way, or served with the acknowledgement lost. */
  datatype Luck = Fine | Lost | AckLost

  function Call(k: Kernel, r: Request, luck: Luck): (Kernel, bool) {
    match Serve(k, r)
    case None => (k, false)
    case Some(k') =>
      match luck
      case Fine => (k', true)
      case Lost => (k, false)
      case AckLost => (k', false)
  }

  /** The luck of one command: of its query or dump, and of its first and second request. */
  datatype Lucks = Lucks(query: bool, first: Luck, second: Luck)

  const CALM := Lucks(true, Fine, Fine)

  // ---- Arguments ----

  datatype Keyword = KwAddress | KwPort | KwIcmpId | KwUid | KwComment | KwXor | KwOther

  function KeywordOf(s: string): Keyword {
    if s == "address" || s == "addr" then KwAddress
    else if s == "port" then KwPort
    else if s == "icmp-id" then KwIcmpId
    else if s == "uid" || s == "user" then KwUid
    else if s == "comment" then KwComment
    else if s == "xor" then KwXor
    else KwOther
  }

  datatype Form = ClientAddForm | ClientDelForm | ServerAddForm | ServerDelForm

  /** The keywords a command knows; it skips other words one by one. */
  predicate Knows(form: Form, kw: Keyword) {
    match kw
    case KwAddress => !form.ServerDelForm?
    case KwUid => true
    case KwPort => form.ClientAddForm? || form.ServerAddForm?
    case KwComment => form.ClientAddForm? || form.ServerAddForm?
    case KwXor => form.ClientAddForm? || form.ServerAddForm?
    case KwIcmpId => form.ServerAddForm?
    case KwOther => false
  }

  datatype Args = Args(
    address: string, port: u16, icmpId: u16, uid: u8, uidSet: bool, comment: string, xorHex: string)

  const NO_ARGS := Args("", 0, 0, 0, false, "", "")

  function SetArg(env: Env, a: Args, kw: Keyword, value: string): Result<Args, Error> {
    match kw
    case KwAddress => Success(a.(address := value))
    case KwPort =>
      (match ParseDec(value, 0xFFFF)
       case None => Failure(BadNumber)
       case Some(n) => Success(a.(port := n)))
    case KwIcmpId =>
      (match ParseDec(value, 0xFFFF)
       case None => Failure(BadNumber)
       case Some(n) => Success(a.(icmpId := n)))
    case KwUid =>
      (match ResolveUid(env, value)
       case Failure(e) => Failure(e)
       case Success(uid) => Success(a.(uid := uid, uidSet := true)))
    case KwComment => Success(a.(comment := value))
    case KwXor => Success(a.(xorHex := value))
    case KwOther => Success(a)
  }

  /** The arguments from position `i` on, read into `a`. */
  function Scan(env: Env, form: Form, args: seq<string>, i: nat, a: Args): Result<Args, Error>
    decreases |args| - i
  {
    if i >= |args| then Success(a)
    else
      var kw := KeywordOf(args[i]);
      if !Knows(form, kw) then Scan(env, form, args, i + 1, a)
      else if i + 1 >= |args| then Failure(MissingValue)
      else
        match SetArg(env, a, kw, args[i + 1])
        case Failure(e) => Failure(e)
        case Success(b) => Scan(env, form, args, i + 2, b)
  }

  method ScanArgs(env: Env, form: Form, args: seq<string>) returns (r: Result<Args, Error>)
    ensures r == Scan(env, form, args, 0, NO_ARGS)
  {
    var a := NO_ARGS;
    var i: nat := 0;
    while i < |args|
      invariant Scan(env, form, args, i, a) == Scan(env, form, args, 0, NO_ARGS)
    {
      var kw := KeywordOf(args[i]);
      if Knows(form, kw) {
        if i + 1 >= |args| {
          return Failure(MissingValue);
        }
        var updated := SetArg(env, a, kw, args[i + 1]);
        if updated.Failure? {
          return Failure(updated.error);
        }
        a := updated.value;
        i := i + 1;
      }
      i := i + 1;
    }
    r := Success(a);
  }

  // ---- What the arguments mean ----

  /** The keywords a command sees from position `i` on, each with its value. */
  ghost function PairsFrom(form: Form, args: seq<string>, i: nat): seq<(Keyword, string)>
    decreases |args| - i
  {
    if i >= |args| then []
    else if !Knows(form, KeywordOf(args[i])) then PairsFrom(form, args, i + 1)
    else if i + 1 >= |args| then []
    else [(KeywordOf(args[i]), args[i + 1])] + PairsFrom(form, args, i + 2)
  }

  /** The last keyword has no value. */
  ghost predicate Dangling(form: Form, args: seq<string>, i: nat)
    decreases |args| - i
  {
    i < |args| &&
    if !Knows(form, KeywordOf(args[i])) then Dangling(form, args, i + 1)
    else i + 1 >= |args| || Dangling(form, args, i + 2)
  }

  ghost predicate Readable(env: Env, p: (Keyword, string)) {
    match p.0
    case KwPort => ParseDec(p.1, 0xFFFF).Some?
    case KwIcmpId => ParseDec(p.1, 0xFFFF).Some?
    case KwUid => ResolveUid(env, p.1).Success?
    case _ => true
  }

  /** The last value given for a keyword. */
  ghost function Last(ps: seq<(Keyword, string)>, kw: Keyword): Option<string> {
    if ps == [] then None
    else if ps[|ps| - 1].0 == kw then Some(ps[|ps| - 1].1)
    else Last(ps[..|ps| - 1], kw)
  }

  ghost function TextOf(o: Option<string>): string {
    if o.Some? then o.value else ""
  }

  ghost function NumberOf(o: Option<string>): u16 {
    if o.Some? && ParseDec(o.value, 0xFFFF).Some? then
      NumberInRange(o.value, 0xFFFF);
      ParseDec(o.value, 0xFFFF).value
    else 0
  }

  lemma NumberInRange(s: string, max: nat)
    requires ParseDec(s, max).Some?
    ensures ParseDec(s, max).value <= max
  {
  }

  ghost function UserIn(env: Env, o: Option<string>): u8 {
    if o.Some? && ResolveUid(env, o.value).Success? then ResolveUid(env, o.value).value else 0
  }

  /** For each keyword the last value counts; without one, the default. */
  ghost function Meant(env: Env, ps: seq<(Keyword, string)>): Args {
    Args(TextOf(Last(ps, KwAddress)), NumberOf(Last(ps, KwPort)), NumberOf(Last(ps, KwIcmpId)),
         UserIn(env, Last(ps, KwUid)), Last(ps, KwUid).Some?, TextOf(Last(ps, KwComment)), TextOf(Last(ps, KwXor)))
  }

  lemma MeantGrows(env: Env, ps: seq<(Keyword, string)>, p: (Keyword, string))
    requires p.0 != KwOther
    ensures SetArg(env, Meant(env, ps), p.0, p.1).Success? <==> Readable(env, p)
    ensures Readable(env, p) ==> SetArg(env, Meant(env, ps), p.0, p.1) == Success(Meant(env, ps + [p]))
  {
    hide ParseDec, ResolveUid;
    assert (ps + [p])[..|ps|] == ps;
    assert forall kw :: Last(ps + [p], kw) == if kw == p.0 then Some(p.1) else Last(ps, kw);
  }

  lemma {:induction false} ScanFrom(env: Env, form: Form, args: seq<string>, i: nat, before: seq<(Keyword, string)>)
    ensures var r, rest := Scan(env, form, args, i, Meant(env, before)), PairsFrom(form, args, i);
            && (r.Success? <==> !Dangling(form, args, i) && forall p :: p in rest ==> Readable(env, p))
            && (r.Success? ==> r.value == Meant(env, before + rest))
    decreases |args| - i
  {
    hide Meant, SetArg, Readable, KeywordOf;
    if i >= |args| {
      assert before + [] == before;
    } else {
      var kw := KeywordOf(args[i]);
      if !Knows(form, kw) {
        ScanFrom(env, form, args, i + 1, before);
      } else if i + 1 < |args| {
        var p := (kw, args[i + 1]);
        MeantGrows(env, before, p);
        var rest := PairsFrom(form, args, i + 2);
        assert PairsFrom(form, args, i) == [p] + rest && before + ([p] + rest) == before + [p] + rest;
        if Readable(env, p) {
          ScanFrom(env, form, args, i + 2, before + [p]);
        } else {
          assert p in PairsFrom(form, args, i);
        }
      }
    }
  }

  /** The argument loops accept exactly the lists in which every known keyword has a readable value, and take for
      each keyword the last one; words that are no keyword of the command are skipped. */
  lemma ScanExact(env: Env, form: Form, args: seq<string>)
    ensures var r, ps := Scan(env, form, args, 0, NO_ARGS), PairsFrom(form, args, 0);
            && (r.Success? <==> !Dangling(form, args, 0) && forall p :: p in ps ==> Readable(env, p))
            && (r.Success? ==> r.value == Meant(env, ps))
  {
    ScanFrom(env, form, args, 0, []);
    assert Meant(env, []) == NO_ARGS;
    assert [] + PairsFrom(form, args, 0) == PairsFrom(form, args, 0);
  }

  // ---- The commands ----

  /** The obfuscation key of a command: none, or a parsed one in a zeroed array. */
  function KeyOf(xorHex: string): Result<(Key, u8), Error> {
    if xorHex == "" then Success((Padded([]), 0))
    else
      match XorBytes(xorHex)
      case Failure(e) => Failure(e)
      case Success(b) =>
        XorParseFormat(xorHex);
        Success((Padded(b), |b|))
  }

  datatype Peer = Peer(address: Addr, port: u16, uid: u8, comment: Comment, xorKey: Key, xorKeyLen: u8)

  /** The checks of an adding command after its arguments, in their order; `mode` is the required role. */
  function Resolve(env: Env, k: Kernel, a: Args, mode: bool, query: bool): Result<Peer, Error> {
    if a.address == "" || a.port == 0 || !a.uidSet then Failure(Unspecified)
    else if !query then Failure(KernelError)
    else if (k.config.isServer != 0) != mode then Failure(WrongMode)
    else
      match ResolveIp(env, a.address)
      case Failure(e) => Failure(e)
      case Success(address) =>
        match KeyOf(a.xorHex)
        case Failure(e) => Failure(e)
        case Success((key, len)) => Success(Peer(address, Swap16(a.port), a.uid, Copied(a.comment), key, len))
  }

  function EgressOf(p: Peer): (EgressKey, EgressValue) {
    (EgressKey(p.address, p.port), EgressValue(p.xorKey, p.comment, p.xorKeyLen, p.uid))
  }

  function IngressOf(p: Peer): (IngressKey, IngressValue) {
    (IngressKey(p.address, p.uid), IngressValue(p.xorKey, p.xorKeyLen, p.port))
  }

  datatype Outcome = Ok | Err(error: Error)

  /** Ingress first, and only if its key is new; then egress, whatever was there. */
  function AddPeer(k: Kernel, p: Peer, l: Lucks): (Kernel, Outcome) {
    var (key, value) := IngressOf(p);
    var (k1, ok1) := Call(k, UpdateIngress(key, value, NoExist), l.first);
    if !ok1 then (k1, Err(KernelError))
    else
      var (ekey, evalue) := EgressOf(p);
      var (k2, ok2) := Call(k1, UpdateEgress(ekey, evalue, Any), l.second);
      (k2, if ok2 then Ok else Err(KernelError))
  }

  function ClientAdd(env: Env, k: Kernel, args: seq<string>, l: Lucks): (Kernel, Outcome) {
    match Scan(env, ClientAddForm, args, 0, NO_ARGS)
    case Failure(e) => (k, Err(e))
    case Success(a) =>
      match Resolve(env, k, a, false, l.query)
      case Failure(e) => (k, Err(e))
      case Success(p) => AddPeer(k, p, l)
  }

  /** The last dumped egress entry of a user at an address. */
  function LastMatch(k: Kernel, dump: seq<EgressKey>, address: Addr, uid: u8): Option<EgressKey> {
    if dump == [] then None
    else
      var last := dump[|dump| - 1];
      if last in k.egress && k.egress[last].uid == uid && last.address == address then Some(last)
      else LastMatch(k, dump[..|dump| - 1], address, uid)
  }

  /** Deletes the egress entry found, if any; then the ingress entry, ignoring a failure. */
  function DropPeer(k: Kernel, found: Option<EgressKey>, address: Addr, uid: u8, l: Lucks): (Kernel, Outcome) {
    var (k1, ok1) := if found.Some? then Call(k, DeleteEgress(found.value), l.first) else (k, true);
    if !ok1 then (k1, Err(KernelError))
    else (Call(k1, DeleteIngress(IngressKey(address, uid)), l.second).0, Ok)
  }

  function ClientDel(env: Env, k: Kernel, args: seq<string>, dump: seq<EgressKey>, l: Lucks): (Kernel, Outcome) {
    match Scan(env, ClientDelForm, args, 0, NO_ARGS)
    case Failure(e) => (k, Err(e))
    case Success(a) =>
      if a.address == "" || !a.uidSet then (k, Err(Unspecified))
      else
        match ResolveIp(env, a.address)
        case Failure(e) => (k, Err(e))
        case Success(address) =>
          if !l.query then (k, Err(KernelError))
          else DropPeer(k, LastMatch(k, dump, address, a.uid), address, a.uid, l)
  }

  function Single(k: Kernel, r: Request, l: Lucks): (Kernel, Outcome) {
    var (k1, ok) := Call(k, r, l.first);
    (k1, if ok then Ok else Err(KernelError))
  }

  function ServerAdd(env: Env, k: Kernel, args: seq<string>, l: Lucks): (Kernel, Outcome) {
    match Scan(env, ServerAddForm, args, 0, NO_ARGS)
    case Failure(e) => (k, Err(e))
    case Success(a) =>
      match Resolve(env, k, a, true, l.query)
      case Failure(e) => (k, Err(e))
      case Success(p) => Single(k, UpdateUser(p.uid, UserOf(p, a.icmpId), Any), l)
  }

  function UserOf(p: Peer, icmpId: u16): UserInfo {
    UserInfo(p.address, Swap16(icmpId), p.port, p.comment, p.xorKey, p.xorKeyLen)
  }

  function ServerDel(env: Env, k: Kernel, args: seq<string>, l: Lucks): (Kernel, Outcome) {
    match Scan(env, ServerDelForm, args, 0, NO_ARGS)
    case Failure(e) => (k, Err(e))
    case Success(a) => if !a.uidSet then (k, Err(Unspecified)) else Single(k, DeleteUser(a.uid), l)
  }

  /** The last valid "max-age" of the arguments; one without a value is skipped. */
  function ScanMaxAge(args: seq<string>, i: nat, maxAge: u32): Result<u32, Error>
    decreases |args| - i
  {
    if i >= |args| then Success(maxAge)
    else if args[i] == "max-age" && i + 1 < |args| then
      match ParseDec(args[i + 1], 0xFFFF_FFFF)
      case None => Failure(BadNumber)
      case Some(n) => ScanMaxAge(args, i + 2, n)
    else ScanMaxAge(args, i + 1, maxAge)
  }

  const DEFAULT_MAX_AGE: u32 := 60

  function ServerMode(k: Kernel, args: seq<string>, l: Lucks): (Kernel, Outcome) {
    match ScanMaxAge(args, 0, DEFAULT_MAX_AGE)
    case Failure(e) => (k, Err(e))
    case Success(n) => Single(k, SetConfig(TutuConfig(n, 1)), l)
  }

  function ClientMode(k: Kernel, l: Lucks): (Kernel, Outcome) {
    Single(k, SetConfig(TutuConfig(0, 0)), l)
  }

  /** The commands that touch the tables; `dump` is the order in which the kernel lists its egress entries. */
  datatype Command =
    | CmdClient
    | CmdServer(args: seq<string>)
    | CmdClientAdd(args: seq<string>)
    | CmdClientDel(args: seq<string>, dump: seq<EgressKey>)
    | CmdServerAdd(args: seq<string>)
    | CmdServerDel(args: seq<string>)

  function Execute(env: Env, k: Kernel, c: Command, l: Lucks): (Kernel, Outcome) {
    match c
    case CmdClient => ClientMode(k, l)
    case CmdServer(args) => ServerMode(k, args, l)
    case CmdClientAdd(args) => ClientAdd(env, k, args, l)
    case CmdClientDel(args, dump) => ClientDel(env, k, args, dump, l)
    case CmdServerAdd(args) => ServerAdd(env, k, args, l)
    case CmdServerDel(args) => ServerDel(env, k, args, l)
  }

  ghost predicate Enumerates<K(!new), V>(dump: seq<K>, m: map<K, V>) {
    && (forall key :: key in dump <==> key in m)
    && (forall i, j :: 0 <= i < j < |dump| ==> dump[i] != dump[j])
  }

  /** The tool at work on the kernel's tables. */
  class Ktuctl {
    const env: Env
    var kernel: Kernel

    constructor (env: Env, kernel: Kernel)
      ensures this.env == env && this.kernel == kernel
    {
      this.env := env;
      this.kernel := kernel;
    }

    method Send(r: Request, luck: Luck) returns (ok: bool)
      modifies this
      ensures (kernel, ok) == Call(old(kernel), r, luck)
    {
      var (k, done) := Call(kernel, r, luck);
      kernel := k;
      ok := done;
    }

    method ClientAddCmd(args: seq<string>, l: Lucks) returns (r: Outcome)
      modifies this
      ensures (kernel, r) == ClientAdd(env, old(kernel), args, l)
    {
      var a := ScanArgs(env, ClientAddForm, args);
      if a.Failure? {
        return Err(a.error);
      }
      var p := Resolve(env, kernel, a.value, false, l.query);
      if p.Failure? {
        return Err(p.error);
      }
      var (ikey, ivalue) := IngressOf(p.value);
      var ok := Send(UpdateIngress(ikey, ivalue, NoExist), l.first);
      if !ok {
        return Err(KernelError);
      }
      var (ekey, evalue) := EgressOf(p.value);
      ok := Send(UpdateEgress(ekey, evalue, Any), l.second);
      r := if ok then Ok else Err(KernelError);
    }

    method ClientDelCmd(args: seq<string>, dump: seq<EgressKey>, l: Lucks) returns (r: Outcome)
      requires Enumerates(dump, kernel.egress)
      modifies this
      ensures (kernel, r) == ClientDel(env, old(kernel), args, dump, l)
    {
      var a := ScanArgs(env, ClientDelForm, args);
      if a.Failure? {
        return Err(a.error);
      }
      if a.value.address == "" || !a.value.uidSet {
        return Err(Unspecified);
      }
      var address := ResolveIp(env, a.value.address);
      if address.Failure? {
        return Err(address.error);
      }
      if !l.query {
        return Err(KernelError);
      }
      var toDelete: Option<EgressKey> := None;
      for i := 0 to |dump|
        invariant toDelete == LastMatch(kernel, dump[..i], address.value, a.value.uid)
        invariant kernel == old(kernel)
      {
        assert dump[..i + 1][..i] == dump[..i];
        assert dump[i] in kernel.egress;
        if kernel.egress[dump[i]].uid == a.value.uid && dump[i].address == address.value {
          toDelete := Some(dump[i]);
        }
      }
      assert dump[..|dump|] == dump;
      if toDelete.Some? {
        var ok := Send(DeleteEgress(toDelete.value), l.first);
        if !ok {
          return Err(KernelError);
        }
      }
      var _ := Send(DeleteIngress(IngressKey(address.value, a.value.uid)), l.second);
      r := Ok;
    }

    method ClientModeCmd(l: Lucks) returns (r: Outcome)
      modifies this
      ensures (kernel, r) == ClientMode(old(kernel), l)
    {
      var ok := Send(SetConfig(TutuConfig(0, 0)), l.first);
      r := if ok then Ok else Err(KernelError);
    }

    method ServerModeCmd(args: seq<string>, l: Lucks) returns (r: Outcome)
      modifies this
      ensures (kernel, r) == ServerMode(old(kernel), args, l)
    {
      var maxAge: u32 := DEFAULT_MAX_AGE;
      var i: nat := 0;
      while i < |args|
        invariant ScanMaxAge(args, i, maxAge) == ScanMaxAge(args, 0, DEFAULT_MAX_AGE)
        invariant kernel == old(kernel)
      {
        if args[i] == "max-age" && i + 1 < |args| {
          var n := ParseDec(args[i + 1], 0xFFFF_FFFF);
          if n == None {
            return Err(BadNumber);
          }
          maxAge := n.value;
          i := i + 1;
        }
        i := i + 1;
      }
      var ok := Send(SetConfig(TutuConfig(maxAge, 1)), l.first);
      r := if ok then Ok else Err(KernelError);
    }

    method ServerAddCmd(args: seq<string>, l: Lucks) returns (r: Outcome)
      modifies this
      ensures (kernel, r) == ServerAdd(env, old(kernel), args, l)
    {
      var a := ScanArgs(env, ServerAddForm, args);
      if a.Failure? {
        return Err(a.error);
      }
      var p := Resolve(env, kernel, a.value, true, l.query);
      if p.Failure? {
        return Err(p.error);
      }
      var ok := Send(UpdateUser(p.value.uid, UserOf(p.value, a.value.icmpId), Any), l.first);
      r := if ok then Ok else Err(KernelError);
    }

    method ServerDelCmd(args: seq<string>, l: Lucks) returns (r: Outcome)
      modifies this
      ensures (kernel, r) == ServerDel(env, old(kernel), args, l)
    {
      var a := ScanArgs(env, ServerDelForm, args);
      if a.Failure? {
        return Err(a.error);
      }
      if !a.value.uidSet {
        return Err(Unspecified);
      }
      var ok := Send(DeleteUser(a.value.uid), l.first);
      r := if ok then Ok else Err(KernelError);
    }
  }

  // ---- The invariant between the two client tables ----

  /** An egress entry has its ingress counterpart: same key, port mirrored, and a real port. */
  ghost predicate PairedAt(k: Kernel, key: EgressKey)
    requires key in k.egress
  {
    var v := k.egress[key];
    var back := IngressKey(key.address, v.uid);
    && key.port != 0 && back in k.ingress
    && k.ingress[back] == IngressValue(v.xorKey, v.xorKeyLen, key.port)
  }

  ghost predicate Paired(k: Kernel) {
    forall key :: key in k.egress ==> PairedAt(k, key)
  }

  /** So a user has at most one egress entry at an address. */
  lemma AtMostOnePeer(k: Kernel, a: EgressKey, b: EgressKey)
    requires Paired(k) && a in k.egress && b in k.egress
    requires a.address == b.address && k.egress[a].uid == k.egress[b].uid
    ensures a == b
  {
    assert PairedAt(k, a) && PairedAt(k, b);
  }

  lemma AddPeerKeepsPaired(k: Kernel, p: Peer, l: Lucks)
    requires Paired(k) && p.port != 0
    ensures Paired(AddPeer(k, p, l).0)
  {
    var k' := AddPeer(k, p, l).0;
    forall key | key in k'.egress
      ensures PairedAt(k', key)
    {
      if key in k.egress {
        assert PairedAt(k, key);
      }
    }
  }

  lemma {:induction false} LastMatchFinds(k: Kernel, dump: seq<EgressKey>, address: Addr, uid: u8)
    ensures var r := LastMatch(k, dump, address, uid);
            && (r.Some? ==> r.value in k.egress && k.egress[r.value].uid == uid && r.value.address == address)
            && (r.None? ==> forall key :: key in dump && key in k.egress && key.address == address ==>
                  k.egress[key].uid != uid)
  {
    if dump == [] {
    } else {
      LastMatchFinds(k, dump[..|dump| - 1], address, uid);
      assert dump == dump[..|dump| - 1] + [dump[|dump| - 1]];
    }
  }

  /** A deletion removes at most the egress entry found, and the ingress entry only once that one is gone. */
  lemma DropPeerShape(k: Kernel, found: Option<EgressKey>, address: Addr, uid: u8, l: Lucks)
    requires found.Some? ==> found.value in k.egress
    ensures var k' := DropPeer(k, found, address, uid, l).0;
            && (k'.egress == k.egress || (found.Some? && k'.egress == k.egress - {found.value}))
            && (k'.ingress == k.ingress
                || (k'.ingress == k.ingress - {IngressKey(address, uid)}
                    && (found.Some? ==> k'.egress == k.egress - {found.value})))
    ensures DropPeer(k, found, address, uid, l).1 == Ok && found.Some? ==>
              DropPeer(k, found, address, uid, l).0.egress == k.egress - {found.value}
  {
  }

  /** The entry found is the only one of the user at the address. */
  lemma FoundIsOnly(k: Kernel, dump: seq<EgressKey>, address: Addr, uid: u8, key: EgressKey)
    requires Paired(k) && Enumerates(dump, k.egress)
    requires key in k.egress && key.address == address && k.egress[key].uid == uid
    ensures LastMatch(k, dump, address, uid) == Some(key)
  {
    hide LastMatch, PairedAt;
    LastMatchFinds(k, dump, address, uid);
    assert key in dump;
    AtMostOnePeer(k, key, LastMatch(k, dump, address, uid).value);
  }

  lemma DropPeerKeepsPaired(k: Kernel, dump: seq<EgressKey>, address: Addr, uid: u8, l: Lucks)
    requires Paired(k) && Enumerates(dump, k.egress)
    ensures Paired(DropPeer(k, LastMatch(k, dump, address, uid), address, uid, l).0)
  {
    hide DropPeer, LastMatch, Enumerates;
    var found := LastMatch(k, dump, address, uid);
    var k' := DropPeer(k, found, address, uid, l).0;
    LastMatchFinds(k, dump, address, uid);
    DropPeerShape(k, found, address, uid, l);
    forall key | key in k'.egress
      ensures PairedAt(k', key)
    {
      assert PairedAt(k, key);
      if key.address == address && k.egress[key].uid == uid {
        FoundIsOnly(k, dump, address, uid, key);
      }
    }
  }

  /** Only the client's peer commands touch the client tables. */
  lemma OthersLeaveClientTables(env: Env, k: Kernel, c: Command, l: Lucks)
    requires !c.CmdClientAdd? && !c.CmdClientDel?
    ensures Execute(env, k, c, l).0.egress == k.egress && Execute(env, k, c, l).0.ingress == k.ingress
  {
  }

  lemma SameTablesPaired(k: Kernel, k': Kernel)
    requires Paired(k) && k'.egress == k.egress && k'.ingress == k.ingress
    ensures Paired(k')
  {
    forall key | key in k'.egress
      ensures PairedAt(k', key)
    {
      assert PairedAt(k, key);
    }
  }

  /** Every command keeps the invariant, whichever of its kernel calls fails and however. */
  lemma CommandKeepsPaired(env: Env, k: Kernel, c: Command, l: Lucks)
    requires Paired(k) && (c.CmdClientDel? ==> Enumerates(c.dump, k.egress))
    ensures Paired(Execute(env, k, c, l).0)
  {
    hide Paired, Enumerates, Scan, AddPeer, DropPeer, ResolveIp, KeyOf, Copied;
    match c
    case CmdClientAdd(args) =>
      var a := Scan(env, ClientAddForm, args, 0, NO_ARGS);
      if a.Success? && Resolve(env, k, a.value, false, l.query).Success? {
        Swap16Twice(a.value.port);
        AddPeerKeepsPaired(k, Resolve(env, k, a.value, false, l.query).value, l);
      }
    case CmdClientDel(args, dump) =>
      var a := Scan(env, ClientDelForm, args, 0, NO_ARGS);
      if a.Success? && ResolveIp(env, a.value.address).Success? {
        DropPeerKeepsPaired(k, dump, ResolveIp(env, a.value.address).value, a.value.uid, l);
      }
    case _ =>
      OthersLeaveClientTables(env, k, c, l);
      SameTablesPaired(k, Execute(env, k, c, l).0);
  }

  /** One command of a history, with the settings it ran under and the luck it had. */
  datatype Event = Event(env: Env, command: Command, lucks: Lucks)

  function History(k: Kernel, events: seq<Event>): Kernel {
    if events == [] then k
    else
      var before := History(k, events[..|events| - 1]);
      var e := events[|events| - 1];
      Execute(e.env, before, e.command, e.lucks).0
  }

  /** Each deletion sees the kernel's table of its time. */
  ghost predicate TrueDumps(k: Kernel, events: seq<Event>) {
    forall i :: 0 <= i < |events| && events[i].command.CmdClientDel? ==>
      Enumerates(events[i].command.dump, History(k, events[..i]).egress)
  }

  /** Over every history of commands run one at a time, from empty tables or any paired ones. */
  lemma {:induction false} HistoryKeepsPaired(k: Kernel, events: seq<Event>)
    requires Paired(k) && TrueDumps(k, events)
    ensures Paired(History(k, events))
  {
    if events == [] {
    } else {
      var n := |events| - 1;
      var front := events[..n];
      assert forall i :: 0 <= i < n ==> front[i] == events[i] && front[..i] == events[..i];
      HistoryKeepsPaired(k, front);
      CommandKeepsPaired(events[n].env, History(k, front), events[n].command, events[n].lucks);
    }
  }

  // ---- Deleting what was added ----

  /** A deletion that succeeds leaves no egress entry of the user at the address, though it deletes one at most;
      and no ingress entry either, if its last call was served. */
  lemma DeletionLeavesNone(env: Env, k: Kernel, args: seq<string>, dump: seq<EgressKey>, l: Lucks)
    requires Paired(k) && Enumerates(dump, k.egress)
    requires ClientDel(env, k, args, dump, l).1 == Ok
    ensures var k' := ClientDel(env, k, args, dump, l).0;
            var a := Scan(env, ClientDelForm, args, 0, NO_ARGS).value;
            var address := ResolveIp(env, a.address).value;
            && (forall key :: key in k'.egress && key.address == address ==> k'.egress[key].uid != a.uid)
            && (l.second == Fine ==> IngressKey(address, a.uid) !in k'.ingress)
  {
    hide Scan, ResolveIp, LastMatch, Paired, Enumerates;
    var a := Scan(env, ClientDelForm, args, 0, NO_ARGS).value;
    var address := ResolveIp(env, a.address).value;
    DropLeavesNone(k, dump, address, a.uid, l);
  }

  lemma DropLeavesNone(k: Kernel, dump: seq<EgressKey>, address: Addr, uid: u8, l: Lucks)
    requires Paired(k) && Enumerates(dump, k.egress)
    requires DropPeer(k, LastMatch(k, dump, address, uid), address, uid, l).1 == Ok
    ensures var k' := DropPeer(k, LastMatch(k, dump, address, uid), address, uid, l).0;
            && (forall key :: key in k'.egress && key.address == address ==> k'.egress[key].uid != uid)
            && (l.second == Fine ==> IngressKey(address, uid) !in k'.ingress)
  {
    hide LastMatch, Paired, Enumerates;
    var found := LastMatch(k, dump, address, uid);
    LastMatchFinds(k, dump, address, uid);
    DropPeerShape(k, found, address, uid, l);
    forall key | key in k.egress && key.address == address && k.egress[key].uid == uid
      ensures found == Some(key)
    {
      FoundIsOnly(k, dump, address, uid, key);
    }
  }

  /** Deleting a peer just added restores both tables exactly when its address and port were free before. */
  lemma DeleteUndoesAdd(k: Kernel, p: Peer, dump: seq<EgressKey>)
    requires Paired(k) && p.port != 0 && AddPeer(k, p, CALM).1 == Ok
    requires Enumerates(dump, AddPeer(k, p, CALM).0.egress)
    ensures var k1 := AddPeer(k, p, CALM).0;
            (DropPeer(k1, LastMatch(k1, dump, p.address, p.uid), p.address, p.uid, CALM) == (k, Ok))
            == (EgressKey(p.address, p.port) !in k.egress)
  {
    var k1 := AddPeer(k, p, CALM).0;
    var key := EgressKey(p.address, p.port);
    AddPeerKeepsPaired(k, p, CALM);
    LastMatchFinds(k1, dump, p.address, p.uid);
    var found := LastMatch(k1, dump, p.address, p.uid);
    assert key in dump;
    AtMostOnePeer(k1, key, found.value);
    var k2 := DropPeer(k1, found, p.address, p.uid, CALM).0;
    assert k2.ingress == k.ingress;
    if key !in k.egress {
      assert k2.egress == k.egress;
    }
  }

  // ---- Failures ----

  /** When the kernel answers every call, a command that fails has changed nothing. */
  lemma CalmFailureChangesNothing(env: Env, k: Kernel, c: Command)
    requires c.CmdClientDel? ==> Enumerates(c.dump, k.egress)
    requires Execute(env, k, c, CALM).1 != Ok
    ensures Execute(env, k, c, CALM).0 == k
  {
    hide Scan, Resolve, ResolveIp, LastMatch, IngressOf, EgressOf;
    if c.CmdClientDel? {
      var a := Scan(env, ClientDelForm, c.args, 0, NO_ARGS);
      if a.Success? && ResolveIp(env, a.value.address).Success? {
        LastMatchFinds(k, c.dump, ResolveIp(env, a.value.address).value, a.value.uid);
      }
    }
  }

  /** After an addition that failed, whatever its luck, the same addition succeeds exactly when the failed one left
      no trace and its ingress key was free from the start. */
  lemma RetriedAddition(k: Kernel, p: Peer, l: Lucks)
    requires AddPeer(k, p, l).1 != Ok
    ensures var k1 := AddPeer(k, p, l).0;
            AddPeer(k1, p, CALM).1 == Ok <==> k1 == k && IngressOf(p).0 !in k.ingress
  {
    var (key, value) := IngressOf(p);
    var k1 := AddPeer(k, p, l).0;
    if key !in k.ingress && l.first != Lost {
      assert key in k1.ingress;
    }
  }

  /** Deleting the peer first always clears the way. */
  lemma AdditionAfterDeletion(k: Kernel, p: Peer, dump: seq<EgressKey>)
    requires Paired(k) && Enumerates(dump, k.egress)
    ensures var k1 := DropPeer(k, LastMatch(k, dump, p.address, p.uid), p.address, p.uid, CALM).0;
            AddPeer(k1, p, CALM).1 == Ok
  {
    hide LastMatch, Paired;
    LastMatchFinds(k, dump, p.address, p.uid);
  }

  // ---- The same, on argument lists ----

  /** The peer that the arguments of an addition resolve to. */
  function PeerAsked(env: Env, k: Kernel, args: seq<string>): Result<Peer, Error> {
    match Scan(env, ClientAddForm, args, 0, NO_ARGS)
    case Failure(e) => Failure(e)
    case Success(a) => Resolve(env, k, a, false, true)
  }

  /** The arguments of a deletion resolve to the address and the user of a peer. */
  ghost predicate Names(env: Env, args: seq<string>, p: Peer) {
    var a := Scan(env, ClientDelForm, args, 0, NO_ARGS);
    a.Success? && a.value.address != "" && a.value.uidSet
    && ResolveIp(env, a.value.address) == Success(p.address) && a.value.uid == p.uid
  }

  lemma AskedIsAdded(env: Env, k: Kernel, args: seq<string>, p: Peer, l: Lucks)
    requires PeerAsked(env, k, args) == Success(p)
    ensures ClientAdd(env, k, args, l) == if l.query then AddPeer(k, p, l) else (k, Err(KernelError))
    ensures p.port != 0
  {
    hide Scan, AddPeer, ResolveIp, KeyOf;
    Swap16Twice(Scan(env, ClientAddForm, args, 0, NO_ARGS).value.port);
  }

  lemma NamedIsDropped(env: Env, k: Kernel, args: seq<string>, dump: seq<EgressKey>, p: Peer, l: Lucks)
    requires Names(env, args, p) && l.query
    ensures ClientDel(env, k, args, dump, l) == DropPeer(k, LastMatch(k, dump, p.address, p.uid), p.address, p.uid, l)
  {
    hide Scan, DropPeer, ResolveIp, LastMatch;
  }

  /** The peer asked for depends on the configuration alone. */
  lemma AskedAgain(env: Env, k: Kernel, k': Kernel, args: seq<string>)
    requires k'.config == k.config
    ensures PeerAsked(env, k', args) == PeerAsked(env, k, args)
  {
    hide Scan, ResolveIp, KeyOf;
  }

  lemma TablesOnly(k: Kernel, p: Peer, l: Lucks, found: Option<EgressKey>, address: Addr, uid: u8)
    ensures AddPeer(k, p, l).0.config == k.config && DropPeer(k, found, address, uid, l).0.config == k.config
  {
  }

  /** `client-del` of the peer that a `client-add` just added restores both tables exactly when the peer's address and
      port were free before. */
  lemma ClientDelUndoesClientAdd(
      env: Env, k: Kernel, add: seq<string>, del: seq<string>, dump: seq<EgressKey>, p: Peer)
    requires Paired(k) && PeerAsked(env, k, add) == Success(p) && Names(env, del, p)
    requires ClientAdd(env, k, add, CALM).1 == Ok && Enumerates(dump, ClientAdd(env, k, add, CALM).0.egress)
    ensures (ClientDel(env, ClientAdd(env, k, add, CALM).0, del, dump, CALM) == (k, Ok))
         == (EgressKey(p.address, p.port) !in k.egress)
  {
    hide PeerAsked, ClientAdd, ClientDel, AddPeer, DropPeer, Names, Paired, LastMatch, Enumerates;
    AskedIsAdded(env, k, add, p, CALM);
    NamedIsDropped(env, AddPeer(k, p, CALM).0, del, dump, p, CALM);
    DeleteUndoesAdd(k, p, dump);
  }

  /** After a `client-add` that failed, whatever its luck, the same command succeeds exactly when the failed one left no
      trace and its ingress key was free from the start. */
  lemma RetriedClientAdd(env: Env, k: Kernel, args: seq<string>, p: Peer, l: Lucks)
    requires PeerAsked(env, k, args) == Success(p) && ClientAdd(env, k, args, l).1 != Ok
    ensures var k1 := ClientAdd(env, k, args, l).0;
            ClientAdd(env, k1, args, CALM).1 == Ok <==> k1 == k && IngressKey(p.address, p.uid) !in k.ingress
  {
    hide PeerAsked, ClientAdd;
    AskedIsAdded(env, k, args, p, l);
    var k1 := ClientAdd(env, k, args, l).0;
    AskedAgain(env, k, k1, args);
    AskedIsAdded(env, k1, args, p, CALM);
    if l.query {
      RetriedAddition(k, p, l);
    }
  }

  /** Whatever is in the tables, `client-del` of a peer clears the way for its `client-add`. */
  lemma ClientAddAfterClientDel(
      env: Env, k: Kernel, add: seq<string>, del: seq<string>, dump: seq<EgressKey>, p: Peer)
    requires Paired(k) && PeerAsked(env, k, add) == Success(p) && Names(env, del, p) && Enumerates(dump, k.egress)
    ensures ClientAdd(env, ClientDel(env, k, del, dump, CALM).0, add, CALM).1 == Ok
  {
    hide PeerAsked, ClientAdd, ClientDel, AddPeer, DropPeer, Names, Paired, LastMatch, Enumerates;
    NamedIsDropped(env, k, del, dump, p, CALM);
    var k1 := ClientDel(env, k, del, dump, CALM).0;
    TablesOnly(k, p, CALM, LastMatch(k, dump, p.address, p.uid), p.address, p.uid);
    AskedAgain(env, k, k1, add);
    AskedIsAdded(env, k1, add, p, CALM);
    AdditionAfterDeletion(k, p, dump);
  }
}

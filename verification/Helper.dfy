/** The helpers of the control tool: key, comment, user and address conversions. */
module Helper {
  import opened Wrappers
  import opened Ints
  import opened Net
  import opened Text
  import opened UidMap

  const XOR_KEY_MAX := 64
  const COMMENT_LEN := 22

  datatype Error =
    | MissingValue
    | BadNumber
    | UnknownUser
    | Unspecified
    | WrongMode
    | Unresolved
    | NoSuitableAddress
    | BadXorLength
    | XorTooLong
    | BadXorDigit
    | NotUtf8
    | KernelError
    | ParseError

  // ---- Byte order ----

  /** `to_be` and `from_be` on a little-endian machine. */
  function Swap16(x: u16): u16 {
    x % 0x100 * 0x100 + x / 0x100
  }

  /** The two bytes of a word, taken apart. */
  lemma BytesApart(hi: int, lo: int)
    requires 0 <= hi < 0x100 && 0 <= lo < 0x100
    ensures (hi * 0x100 + lo) / 0x100 == hi && (hi * 0x100 + lo) % 0x100 == lo
  {
  }

  lemma Swap16Twice(x: u16)
    ensures Swap16(Swap16(x)) == x
    ensures Swap16(x) == 0 <==> x == 0
  {
    var hi, lo := x / 0x100, x % 0x100;
    assert x == hi * 0x100 + lo && Swap16(x) == lo * 0x100 + hi;
    BytesApart(lo, hi);
  }

  /** The two bytes change places. */
  lemma Swap16Bytes(hi: u8, lo: u8)
    ensures Swap16(0x100 * hi + lo) == 0x100 * lo + hi
  {
    BytesApart(hi, lo);
  }

  // ---- Obfuscation keys ----

  type Key = b: Bytes | |b| == XOR_KEY_MAX witness seq(64, _ => 0)

  /** The bytes of a string of digits; the first bad character decides the error. A byte outside ASCII is not text on
      its own: there the program panics, which `NotUtf8` stands for. */
  function HexBytes(hex: string): Result<Bytes, Error>
    requires |hex| % 2 == 0
  {
    if hex == "" then Success([])
    else if hex[0] >= 128 as char then Failure(NotUtf8)
    else if HexValue(hex[0]).None? then Failure(BadXorDigit)
    else if hex[1] >= 128 as char then Failure(NotUtf8)
    else if HexValue(hex[1]).None? then Failure(BadXorDigit)
    else
      match HexBytes(hex[2..])
      case Failure(e) => Failure(e)
      case Success(rest) => Success([HexByte(hex[0], hex[1])] + rest)
  }

  function HexByte(hi: char, lo: char): u8
    requires HexValue(hi).Some? && HexValue(lo).Some?
  {
    16 * HexValue(hi).value + HexValue(lo).value
  }

  /** What `parse_xor_key` reads from a string. */
  function XorBytes(hex: string): Result<Bytes, Error> {
    if hex == "" || |hex| % 2 != 0 then Failure(BadXorLength)
    else if |hex| / 2 > XOR_KEY_MAX then Failure(XorTooLong)
    else HexBytes(hex)
  }

  lemma {:induction false} HexBytesLength(hex: string)
    requires |hex| % 2 == 0 && HexBytes(hex).Success?
    ensures |HexBytes(hex).value| == |hex| / 2
  {
    if hex == "" {
    } else {
      HexBytesLength(hex[2..]);
    }
  }

  /** Each byte is made of two digits, the high half first. */
  lemma {:induction false} HexBytesAt(hex: string, i: nat)
    requires |hex| % 2 == 0 && HexBytes(hex).Success? && 2 * i < |hex|
    ensures |HexBytes(hex).value| == |hex| / 2 && HexValue(hex[2 * i]).Some? && HexValue(hex[2 * i + 1]).Some?
    ensures HexBytes(hex).value[i] == 16 * HexValue(hex[2 * i]).value + HexValue(hex[2 * i + 1]).value
  {
    hide HexValue;
    HexBytesLength(hex);
    if i > 0 {
      HexBytesAt(hex[2..], i - 1);
      assert hex[2..][2 * (i - 1)] == hex[2 * i] && hex[2..][2 * (i - 1) + 1] == hex[2 * i + 1];
    }
  }

  /** What is refused, and why: the length before the digits, and of the digits the first bad one decides. */
  lemma XorBytesFails(hex: string, e: Error)
    ensures XorBytes(hex) == Failure(e) ==>
              match e
              case BadXorLength => hex == "" || |hex| % 2 != 0
              case XorTooLong => |hex| % 2 == 0 && |hex| > 128
              case BadXorDigit => |hex| <= 128 && exists i :: FirstBad(hex, i) && hex[i] < 128 as char
              case NotUtf8 => |hex| <= 128 && exists i :: FirstBad(hex, i) && hex[i] >= 128 as char
              case _ => false
  {
    if hex != "" && |hex| % 2 == 0 && |hex| <= 128 && XorBytes(hex) == Failure(e) {
      var i := FirstBadOf(hex);
    }
  }

  ghost predicate FirstBad(hex: string, i: int) {
    0 <= i < |hex| && HexValue(hex[i]).None? && forall j :: 0 <= j < i ==> HexValue(hex[j]).Some?
  }

  lemma {:induction false} FirstBadOf(hex: string) returns (i: nat)
    requires |hex| % 2 == 0 && HexBytes(hex).Failure?
    ensures FirstBad(hex, i)
    ensures HexBytes(hex) == Failure(if hex[i] < 128 as char then BadXorDigit else NotUtf8)
  {
    if HexValue(hex[0]).None? {
      i := 0;
    } else if HexValue(hex[1]).None? {
      i := 1;
    } else {
      var k := FirstBadOf(hex[2..]);
      i := k + 2;
      assert hex[2..][k] == hex[i];
      forall j | 0 <= j < i
        ensures HexValue(hex[j]).Some?
      {
        if j >= 2 {
          assert hex[2..][j - 2] == hex[j];
        }
      }
    }
  }

  /** Fills the front of the key array; on success the rest is as before. */
  method ParseXorKey(hex: string, key: array<u8>) returns (r: Result<u8, Error>)
    requires key.Length == XOR_KEY_MAX
    modifies key
    ensures match XorBytes(hex)
            case Failure(e) => r == Failure(e)
            case Success(b) => r == Success(|b|) && 0 < |b| <= XOR_KEY_MAX && key[..] == b + old(key[..])[|b|..]
  {
    hide HexValue, HexByte;
    if hex == "" || |hex| % 2 != 0 {
      return Failure(BadXorLength);
    }
    var len := |hex| / 2;
    if len > XOR_KEY_MAX {
      return Failure(XorTooLong);
    }
    ghost var before := key[..];
    assert hex[2 * 0..] == hex && forall b: Bytes :: key[..0] + b == b;
    for i := 0 to len
      invariant forall j :: i <= j < XOR_KEY_MAX ==> key[j] == before[j]
      invariant match HexBytes(hex[2 * i..])
                case Failure(e) => XorBytes(hex) == Failure(e)
                case Success(b) => XorBytes(hex) == Success(key[..i] + b)
    {
      assert hex[2 * i..][2..] == hex[2 * (i + 1)..];
      var hi, lo := hex[2 * i], hex[2 * i + 1];
      if hi >= 128 as char {
        return Failure(NotUtf8);
      }
      if HexValue(hi).None? {
        return Failure(BadXorDigit);
      }
      if lo >= 128 as char {
        return Failure(NotUtf8);
      }
      if HexValue(lo).None? {
        return Failure(BadXorDigit);
      }
      ghost var front := key[..i];
      key[i] := HexByte(hi, lo);
      assert key[..i + 1] == front + [HexByte(hi, lo)];
      assert forall rest: Bytes :: front + ([HexByte(hi, lo)] + rest) == key[..i + 1] + rest;
    }
    assert hex[2 * len..] == "";
    r := Success(len);
  }

  function HexOf(b: Bytes): (s: string)
    ensures |s| == 2 * |b|
  {
    if b == [] then "" else [HexDigit(b[0] / 16), HexDigit(b[0] % 16)] + HexOf(b[1..])
  }

  /** `key.iter().take(len)` stops at the end of the key. */
  function Used(key: Key, len: u8): Bytes {
    if len <= XOR_KEY_MAX then key[..len] else key
  }

  method FormatXorKey(key: Key, len: u8) returns (s: string)
    ensures s == HexOf(Used(key, len))
  {
    s := "";
    var used := Used(key, len);
    for i := 0 to |used|
      invariant s + HexOf(used[i..]) == HexOf(used)
    {
      assert used[i..][1..] == used[i + 1..];
      s := s + [HexDigit(used[i] / 16), HexDigit(used[i] % 16)];
    }
  }

  /** Each byte is printed as two digits, the high half first. */
  lemma {:induction false} HexOfAt(b: Bytes, i: nat)
    requires i < |b|
    ensures HexOf(b)[2 * i] == HexDigit(b[i] / 16) && HexOf(b)[2 * i + 1] == HexDigit(b[i] % 16)
  {
    hide HexDigit;
    if i > 0 {
      HexOfAt(b[1..], i - 1);
      assert HexOf(b)[2..] == HexOf(b[1..]);
      assert HexOf(b)[2..][2 * (i - 1)] == HexOf(b)[2 * i] && HexOf(b)[2..][2 * (i - 1) + 1] == HexOf(b)[2 * i + 1];
    }
  }

  lemma HexDigitValue(d: nat)
    requires d < 16
    ensures HexValue(HexDigit(d)) == Some(d) && HexDigit(d) < 128 as char
  {
  }

  lemma {:induction false} HexBytesOfHex(b: Bytes)
    ensures HexBytes(HexOf(b)) == Success(b)
  {
    if b == [] {
    } else {
      var s := HexOf(b);
      assert s[2..] == HexOf(b[1..]);
      HexBytesOfHex(b[1..]);
      HexDigitValue(b[0] / 16);
      HexDigitValue(b[0] % 16);
      assert HexByte(s[0], s[1]) == b[0] && [b[0]] + b[1..] == b;
    }
  }

  /** A byte read from two digits is written with their lower-case forms. */
  lemma HexByteDigits(hi: char, lo: char)
    requires HexValue(hi).Some? && HexValue(lo).Some?
    ensures var b := HexByte(hi, lo); HexDigit(b / 16) == LowerChar(hi) && HexDigit(b % 16) == LowerChar(lo)
  {
    assert HexByte(hi, lo) / 16 == HexValue(hi).value && HexByte(hi, lo) % 16 == HexValue(lo).value;
  }

  lemma LowerTwo(hex: string)
    requires |hex| >= 2
    ensures Lower(hex) == [LowerChar(hex[0]), LowerChar(hex[1])] + Lower(hex[2..])
  {
    hide LowerChar;
  }

  lemma {:induction false} HexOfHexBytes(hex: string)
    requires |hex| % 2 == 0 && HexBytes(hex).Success?
    ensures HexOf(HexBytes(hex).value) == Lower(hex)
  {
    if hex != "" {
      hide HexValue, HexByte, HexDigit, LowerChar, Lower;
      HexOfHexBytes(hex[2..]);
      HexByteDigits(hex[0], hex[1]);
      LowerTwo(hex);
      var b := HexByte(hex[0], hex[1]);
      assert HexBytes(hex).value == [b] + HexBytes(hex[2..]).value;
      assert HexBytes(hex).value[1..] == HexBytes(hex[2..]).value;
    } else {
      assert Lower(hex) == "";
    }
  }

  predicate IsHex(s: string) {
    forall c :: c in s ==> HexValue(c).Some?
  }

  lemma {:induction false} HexBytesSucceeds(hex: string)
    requires |hex| % 2 == 0
    ensures HexBytes(hex).Success? <==> IsHex(hex)
  {
    if hex == "" {
    } else {
      HexBytesSucceeds(hex[2..]);
      assert hex == [hex[0], hex[1]] + hex[2..];
      if IsHex(hex) {
        assert hex[0] in hex && hex[1] in hex;
        assert IsHex(hex[2..]);
      }
    }
  }

  /** Formatting a key of 1 to 64 bytes and parsing the text restores its bytes. */
  lemma XorFormatParse(key: Key, len: u8)
    requires 1 <= len <= XOR_KEY_MAX
    ensures XorBytes(HexOf(Used(key, len))) == Success(key[..len])
  {
    HexBytesOfHex(key[..len]);
  }

  /** Parsing succeeds exactly on 2 to 128 hexadecimal digits, even in number; formatting the result gives the
      text in lower case. */
  lemma XorParseFormat(hex: string)
    ensures XorBytes(hex).Success? <==> |hex| % 2 == 0 && 2 <= |hex| <= 128 && IsHex(hex)
    ensures XorBytes(hex).Success? ==>
              HexOf(XorBytes(hex).value) == Lower(hex) && 1 <= |XorBytes(hex).value| <= XOR_KEY_MAX
  {
    if hex != "" && |hex| % 2 == 0 {
      HexBytesSucceeds(hex);
      if XorBytes(hex).Success? {
        HexOfHexBytes(hex);
        HexBytesLength(hex);
      }
    }
  }

  /** A key array holding `b` at its front and zeros behind, as a fresh array is filled. */
  function Padded(b: Bytes): Key
    requires |b| <= XOR_KEY_MAX
  {
    b + seq(XOR_KEY_MAX - |b|, _ => 0)
  }

  // ---- Comments ----

  /** A comment field: 22 bytes, text first, zeros behind. */
  type Comment = c: string | |c| == 22 witness "\0\0\0\0\0\0\0\0\0\0\0\0\0\0\0\0\0\0\0\0\0\0"

  function Nuls(n: nat): (s: string)
    ensures |s| == n && forall i :: 0 <= i < n ==> s[i] == '\0'
  {
    seq(n, _ => '\0')
  }

  /** What `copy_comment` leaves in the field. */
  function Copied(src: string): Comment {
    if |src| >= COMMENT_LEN then src[..COMMENT_LEN] else src + Nuls(COMMENT_LEN - |src|)
  }

  lemma CopiedBytes(src: string, i: nat)
    requires i < COMMENT_LEN
    ensures Copied(src)[i] == if i < |src| then src[i] else '\0'
  {
  }

  method CopyComment(dest: array<char>, src: string)
    requires dest.Length == COMMENT_LEN
    modifies dest
    ensures dest[..] == Copied(src)
  {
    for i := 0 to COMMENT_LEN
      invariant forall j :: 0 <= j < i ==> dest[j] == '\0'
    {
      dest[i] := '\0';
    }
    var len := if |src| < COMMENT_LEN then |src| else COMMENT_LEN;
    for i := 0 to len
      invariant forall j :: 0 <= j < i ==> dest[j] == src[j]
      invariant forall j :: i <= j < COMMENT_LEN ==> dest[j] == '\0'
    {
      dest[i] := src[i];
    }
  }

  /** The bytes before the first NUL. */
  function UpToNul(c: string): (r: string)
    ensures |r| <= |c| && r == c[..|r|] && '\0' !in r
    ensures |r| < |c| ==> c[|r|] == '\0'
  {
    if c == "" || c[0] == '\0' then "" else [c[0]] + UpToNul(c[1..])
  }

  lemma {:induction false} UpToNulOf(s: string, rest: string)
    requires '\0' !in s && (rest == "" || rest[0] == '\0')
    ensures UpToNul(s + rest) == s
  {
    if s == "" {
      assert s + rest == rest;
    } else {
      assert (s + rest)[1..] == s[1..] + rest;
      UpToNulOf(s[1..], rest);
    }
  }

  /** A text survives the comment field exactly when it has at most 22 bytes and no NUL. */
  lemma CommentKeepsText(src: string)
    ensures UpToNul(Copied(src)) == src <==> |src| <= COMMENT_LEN && '\0' !in src
  {
    if |src| <= COMMENT_LEN && '\0' !in src {
      UpToNulOf(src, Nuls(COMMENT_LEN - |src|));
      assert Copied(src) == src + Nuls(COMMENT_LEN - |src|);
    }
  }

  /** A field is what copying its own text makes exactly when only NULs follow the first NUL. */
  lemma CommentFieldCanonical(c: Comment)
    ensures Copied(UpToNul(c)) == c <==> forall i :: |UpToNul(c)| <= i < |c| ==> c[i] == '\0'
  {
    var r := UpToNul(c);
    if forall i :: |r| <= i < |c| ==> c[i] == '\0' {
      assert Copied(r) == r + Nuls(COMMENT_LEN - |r|);
      assert c == r + c[|r|..];
      assert c[|r|..] == Nuls(COMMENT_LEN - |r|);
    }
  }

  // ---- Users and addresses ----

  /** The library calls the tool makes, and what it relies on them for. */
  datatype Library = Library(
    split: string -> Option<seq<string>>,
    lookup: string -> Result<seq<IpAddr>, Error>,
    show: IpAddr -> string,
    lossy: string -> string)

  /** Safe words split as joined; address literals are safe words and resolve to the address they show; ASCII text
      is valid UTF-8. */
  ghost predicate Honest(lib: Library) {
    && (forall ws: seq<string> :: (forall w :: w in ws ==> SafeWord(w)) ==> lib.split(Join(ws)) == Some(ws))
    && (forall ip :: SafeWord(lib.show(ip)) && lib.lookup(lib.show(ip)) == Success([ip]))
    && (forall s :: IsAscii(s) ==> lib.lossy(s) == s)
  }

  datatype Family = AnyFamily | Ip4Only | Ip6Only

  /** The tool's process-wide settings: names and their iteration order, and its command-line flags. */
  datatype Env = Env(lib: Library, names: Names, order: seq<u8>, numeric: bool, family: Family)

  function ResolveUid(env: Env, s: string): Result<u8, Error> {
    match UidOf(env.names, env.order, s)
    case Some(uid) => Success(uid)
    case None =>
      match ParseDec(s, 255)
      case None => Failure(UnknownUser)
      case Some(uid) => Success(uid)
  }

  /** A word that names users stands for one of them; any other word for the number it is, up to 255; and no other
      word is a user. */
  lemma ResolveUidExact(env: Env, s: string)
    requires Iterates(env.order, env.names)
    ensures match ResolveUid(env, s)
            case Success(uid) =>
              if NamesAUser(env, s) then uid in env.names && env.names[uid] == s else ParseDec(s, 255) == Some(uid)
            case Failure(e) => e == UnknownUser && !NamesAUser(env, s) && ParseDec(s, 255) == None
  {
    hide ParseDec;
    UidOfFinds(env.names, env.order, s);
  }

  ghost predicate NamesAUser(env: Env, s: string) {
    exists u :: u in env.names && env.names[u] == s
  }

  /** The keyword and the word by which a dump names a user. */
  function UserWords(env: Env, uid: u8): (string, string) {
    if !env.numeric && uid in env.names then ("user", env.names[uid]) else ("uid", PrintDec(uid))
  }

  /** `resolve_hostname` for a dump. */
  function DumpedUser(env: Env, uid: u8): string {
    UserWords(env, uid).0 + " " + UserWords(env, uid).1
  }

  /** A dump shows the name of a user that has one, unless ids are asked for. */
  lemma DumpedUserText(env: Env, uid: u8)
    ensures uid in env.names && !env.numeric ==> DumpedUser(env, uid) == "user " + env.names[uid]
    ensures uid !in env.names || env.numeric ==> DumpedUser(env, uid) == "uid " + PrintDec(uid)
  {
    assert "user " == "user" + " " && "uid " == "uid" + " ";
  }

  /** A dumped user resolves back to the same id. */
  ghost predicate UserReadsBack(env: Env, uid: u8) {
    ResolveUid(env, UserWords(env, uid).1) == Success(uid)
  }

  /** That is so, in every iteration order, exactly when the word stands for no other id: no other id has the name
      shown, or, if the id itself is shown, no other id is named by its decimal. */
  lemma UserReadsBackExactly(env: Env, uid: u8)
    ensures (forall order :: Iterates(order, env.names) ==> UserReadsBack(env.(order := order), uid))
       <==> forall v :: v in env.names && env.names[v] == UserWords(env, uid).1 ==> v == uid
  {
    var word := UserWords(env, uid).1;
    DecRoundTrip(uid, 255);
    if forall v :: v in env.names && env.names[v] == word ==> v == uid {
      forall order | Iterates(order, env.names)
        ensures UserReadsBack(env.(order := order), uid)
      {
        UidOfFinds(env.names, order, word);
      }
    } else {
      var v :| v in env.names && env.names[v] == word && v != uid;
      var order := SomeOrder(env.names, env.names.Keys - {v});
      assert Iterates([v] + order, env.names);
      assert UidOf(env.names, [v] + order, word) == Some(v);
      assert !UserReadsBack(env.(order := [v] + order), uid);
    }
  }

  function FirstOf(ips: seq<IpAddr>, v4: bool): Option<IpAddr> {
    if ips == [] then None else if ips[0].V4? == v4 then Some(ips[0]) else FirstOf(ips[1..], v4)
  }

  function ResolveIp(env: Env, addr: string): Result<Addr, Error> {
    match env.lib.lookup(addr)
    case Failure(e) => Failure(Unresolved)
    case Success(ips) =>
      if ips == [] then Failure(Unresolved)
      else
        var pick := match env.family
                    case AnyFamily => Some(ips[0])
                    case Ip4Only => FirstOf(ips, true)
                    case Ip6Only => FirstOf(ips, false);
        match pick
        case None => Failure(NoSuitableAddress)
        case Some(ip) => Success(ToAddr(ip))
  }

  /** `ip_to_string`. */
  function AddrText(env: Env, a: Addr): string {
    env.lib.show(Shown(a))
  }

  predicate FamilyAdmits(family: Family, ip: IpAddr) {
    match family
    case AnyFamily => true
    case Ip4Only => ip.V4?
    case Ip6Only => ip.V6?
  }

  lemma {:induction false} FirstOfIs(ips: seq<IpAddr>, v4: bool)
    ensures match FirstOf(ips, v4)
            case None => forall i :: 0 <= i < |ips| ==> ips[i].V4? != v4
            case Some(ip) =>
              exists i :: 0 <= i < |ips| && ips[i] == ip && ip.V4? == v4 && forall j :: 0 <= j < i ==> ips[j].V4? != v4
  {
    if ips != [] && ips[0].V4? != v4 {
      FirstOfIs(ips[1..], v4);
      if FirstOf(ips, v4).Some? {
        var i :| 0 <= i < |ips[1..]| && ips[1..][i] == FirstOf(ips, v4).value
                 && forall j :: 0 <= j < i ==> ips[1..][j].V4? != v4;
        assert ips[i + 1] == ips[1..][i];
        forall j | 0 <= j < i + 1
          ensures ips[j].V4? != v4
        {
          if j > 0 {
            assert ips[j] == ips[1..][j - 1];
          }
        }
      } else {
        assert forall i :: 0 < i < |ips| ==> ips[i] == ips[1..][i - 1];
      }
    }
  }

  /** The `i`-th answer is the first that the requested family admits. */
  ghost predicate FirstFit(family: Family, ips: seq<IpAddr>, i: int) {
    0 <= i < |ips| && FamilyAdmits(family, ips[i]) && forall j :: 0 <= j < i ==> !FamilyAdmits(family, ips[j])
  }

  /** A text stands for the first address of the lookup that the requested family admits; a lookup that fails or finds
      nothing is told from one that finds no such address. */
  lemma ResolveIpExact(env: Env, addr: string)
    ensures match ResolveIp(env, addr)
            case Success(a) =>
              && env.lib.lookup(addr).Success?
              && exists i :: FirstFit(env.family, env.lib.lookup(addr).value, i)
                             && ToAddr(env.lib.lookup(addr).value[i]) == a
            case Failure(e) =>
              if env.lib.lookup(addr).Success? && env.lib.lookup(addr).value != [] then
                e == NoSuitableAddress
                && forall i :: 0 <= i < |env.lib.lookup(addr).value| ==>
                     !FamilyAdmits(env.family, env.lib.lookup(addr).value[i])
              else e == Unresolved
  {
    hide ToAddr;
    if env.lib.lookup(addr).Success? {
      var ips := env.lib.lookup(addr).value;
      FirstOfIs(ips, true);
      FirstOfIs(ips, false);
      if env.family == AnyFamily && ips != [] {
        assert FirstFit(env.family, ips, 0);
      } else if ResolveIp(env, addr).Success? {
        var i := PickOf(ips, env.family.Ip4Only?);
        assert FirstFit(env.family, ips, i);
      }
    }
  }

  lemma PickOf(ips: seq<IpAddr>, v4: bool) returns (i: nat)
    requires FirstOf(ips, v4).Some?
    ensures i < |ips| && Some(ips[i]) == FirstOf(ips, v4) && ips[i].V4? == v4
    ensures forall j :: 0 <= j < i ==> ips[j].V4? != v4
  {
    FirstOfIs(ips, v4);
    var ip := FirstOf(ips, v4).value;
    i :| 0 <= i < |ips| && ips[i] == ip && ip.V4? == v4 && forall j :: 0 <= j < i ==> ips[j].V4? != v4;
  }

  /** What an address text resolves to. */
  lemma AddrResolves(env: Env, a: Addr)
    requires Honest(env.lib)
    ensures ResolveIp(env, AddrText(env, a))
         == if FamilyAdmits(env.family, Shown(a)) then Success(ToAddr(Shown(a))) else Failure(NoSuitableAddress)
  {
    var ip := Shown(a);
    assert env.lib.lookup(env.lib.show(ip)) == Success([ip]);
    assert FirstOf([ip], true) == if ip.V4? then Some(ip) else None;
    assert FirstOf([ip], false) == if ip.V4? then None else Some(ip);
  }

  /** An address text resolves back to the address exactly outside ::/96 and within the requested family. */
  lemma AddrReadsBack(env: Env, a: Addr)
    requires Honest(env.lib)
    ensures ResolveIp(env, AddrText(env, a)) == Success(a) <==> !IsCompatible(a) && FamilyAdmits(env.family, Shown(a))
  {
    ShownReadBack(a);
    AddrResolves(env, a);
  }
}

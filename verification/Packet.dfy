/** Packet framing and padding, shared by the command server and the command client. */
module Packet {
  import opened Wrappers
  import opened Ints

  const SALT_LEN := 16
  const TS_LEN := 8
  const NONCE_LEN := 24
  const TAG := 16
  const MAX_PT_SIZE := 4096
  const MAX_CT_SIZE := SALT_LEN + TS_LEN + NONCE_LEN + MAX_PT_SIZE + TAG
  const MIN_LEN := SALT_LEN + TS_LEN + NONCE_LEN + TAG
  const HASH: u8 := 35

  /** The cryptographic library under one passphrase: `derive` is the password hash of a salt,
      `seal` and `open` take a key, a nonce, a text and the associated data. */
  datatype Crypto = Crypto(
    derive: Bytes -> Option<Bytes>,
    seal: (Bytes, Bytes, Bytes, Bytes) -> Bytes,
    open: (Bytes, Bytes, Bytes, Bytes) -> Option<Bytes>)

  /** Opening inverts sealing, and sealing adds a tag of fixed length. */
  ghost predicate Inverting(c: Crypto) {
    && (forall k, n, m, a :: c.open(k, n, c.seal(k, n, m, a), a) == Some(m))
    && (forall k, n, m, a :: |c.seal(k, n, m, a)| == |m| + TAG)
  }

  /** Opening succeeds only on what was sealed. */
  ghost predicate Authentic(c: Crypto) {
    forall k, n, x, a, m :: c.open(k, n, x, a) == Some(m) ==> x == c.seal(k, n, m, a)
  }

  datatype Drop = ShortPacket | KeyFailure | AuthFailure

  datatype Opened = Opened(pt: Bytes, nonce: Bytes, ts: i64)

  /** The bytes of a packet: salt, big-endian timestamp, nonce, sealed payload. */
  function Frame(c: Crypto, salt: Bytes, nonce: Bytes, ts: i64, payload: Bytes): Result<Bytes, Drop> {
    match c.derive(salt)
    case None => Failure(KeyFailure)
    case Some(key) =>
      var stamp := BigEndian(AsU64(ts), TS_LEN);
      Success(salt + stamp + nonce + c.seal(key, nonce, payload, salt + stamp))
  }

  /** Encryption of a payload under a fresh salt and nonce, growing the packet buffer field by field. */
  method EncryptPacket(c: Crypto, salt: Bytes, nonce: Bytes, ts: i64, payload: Bytes)
    returns (r: Result<Bytes, Drop>)
    ensures r == Frame(c, salt, nonce, ts, payload)
  {
    var key := c.derive(salt);
    if key == None {
      return Failure(KeyFailure);
    }
    var aad := salt;
    aad := aad + BigEndian(AsU64(ts), TS_LEN);
    var ct := c.seal(key.value, nonce, payload, aad);
    var packet := salt;
    packet := packet + BigEndian(AsU64(ts), TS_LEN);
    packet := packet + nonce;
    packet := packet + ct;
    r := Success(packet);
  }

  function DecryptPacket(c: Crypto, pkt: Bytes): Result<Opened, Drop> {
    if |pkt| < MIN_LEN then Failure(ShortPacket)
    else
      var salt := pkt[..SALT_LEN];
      var stamp := pkt[SALT_LEN..SALT_LEN + TS_LEN];
      var nonce := pkt[SALT_LEN + TS_LEN..SALT_LEN + TS_LEN + NONCE_LEN];
      var ct := pkt[SALT_LEN + TS_LEN + NONCE_LEN..];
      match c.derive(salt)
      case None => Failure(KeyFailure)
      case Some(key) =>
        match c.open(key, nonce, ct, salt + stamp)
        case None => Failure(AuthFailure)
        case Some(pt) => Success(Opened(pt, nonce, StampToTime(stamp)))
  }

  function StampToTime(stamp: Bytes): i64
    requires |stamp| == TS_LEN
  {
    FromBigEndianInverse(stamp);
    Pow256Values();
    AsI64(FromBigEndian(stamp))
  }

  lemma StampInverse(ts: i64)
    ensures StampToTime(BigEndian(AsU64(ts), TS_LEN)) == ts
  {
    Pow256Values();
    BigEndianInverse(AsU64(ts), TS_LEN);
  }

  lemma TimeInverse(stamp: Bytes)
    requires |stamp| == TS_LEN
    ensures BigEndian(AsU64(StampToTime(stamp)), TS_LEN) == stamp
  {
    FromBigEndianInverse(stamp);
    Pow256Values();
  }

  /** The fields of a framed packet stand where the receiver looks for them. */
  lemma FrameFields(salt: Bytes, stamp: Bytes, nonce: Bytes, ct: Bytes)
    requires |salt| == SALT_LEN && |stamp| == TS_LEN && |nonce| == NONCE_LEN
    ensures var pkt := salt + stamp + nonce + ct;
      && pkt[..SALT_LEN] == salt
      && pkt[SALT_LEN..SALT_LEN + TS_LEN] == stamp
      && pkt[SALT_LEN + TS_LEN..SALT_LEN + TS_LEN + NONCE_LEN] == nonce
      && pkt[SALT_LEN + TS_LEN + NONCE_LEN..] == ct
  {
  }

  /** What one side frames, the other side opens: same payload, nonce and timestamp. */
  lemma FramingRoundTrip(c: Crypto, salt: Bytes, nonce: Bytes, ts: i64, payload: Bytes)
    requires Inverting(c) && |salt| == SALT_LEN && |nonce| == NONCE_LEN
    requires Frame(c, salt, nonce, ts, payload).Success?
    ensures var pkt := Frame(c, salt, nonce, ts, payload).value;
            DecryptPacket(c, pkt) == Success(Opened(payload, nonce, ts)) && |pkt| == |payload| + MIN_LEN
  {
    var stamp := BigEndian(AsU64(ts), TS_LEN);
    var ct := c.seal(c.derive(salt).value, nonce, payload, salt + stamp);
    FrameFields(salt, stamp, nonce, ct);
    StampInverse(ts);
  }

  /** A framed packet byte by byte: the salt at 0, the eight bytes of the time from 16, the most significant first, the
      nonce at 24, and from 48 the payload, sealed under all that stands before the nonce. */
  lemma PacketLayout(c: Crypto, salt: Bytes, nonce: Bytes, ts: i64, payload: Bytes)
    requires |salt| == 16 && |nonce| == 24 && c.derive(salt).Some?
    ensures Frame(c, salt, nonce, ts, payload).Success?
    ensures var pkt := Frame(c, salt, nonce, ts, payload).value;
            && |pkt| >= 48 && pkt[..16] == salt && pkt[24..48] == nonce
            && (forall i :: 0 <= i < 8 ==> pkt[16..24][i] == AsU64(ts) / Pow256(7 - i) % 0x100)
            && pkt[48..] == c.seal(c.derive(salt).value, nonce, payload, pkt[..24])
  {
    var stamp := BigEndian(AsU64(ts), TS_LEN);
    var ct := c.seal(c.derive(salt).value, nonce, payload, salt + stamp);
    FrameFields(salt, stamp, nonce, ct);
    var pkt := salt + stamp + nonce + ct;
    assert pkt[..24] == salt + stamp;
    assert pkt[16..24] == stamp;
    forall i | 0 <= i < 8
      ensures stamp[i] == AsU64(ts) / Pow256(7 - i) % 0x100
    {
      BigEndianByte(AsU64(ts), TS_LEN, i);
    }
  }

  /** When a packet opens, and to what, told from its bytes. */
  lemma OpenedFields(c: Crypto, pkt: Bytes, o: Opened)
    ensures DecryptPacket(c, pkt) == Success(o)
       <==> |pkt| >= 64 && c.derive(pkt[..16]).Some?
            && c.open(c.derive(pkt[..16]).value, pkt[24..48], pkt[48..], pkt[..24]) == Some(o.pt)
            && o.nonce == pkt[24..48] && pkt[16..24] == BigEndian(AsU64(o.ts), 8)
  {
    if |pkt| >= 64 {
      assert pkt[..16] + pkt[16..24] == pkt[..24];
      TimeInverse(pkt[16..24]);
      StampInverse(o.ts);
    }
  }

  /** A packet opens exactly when it is, byte for byte, a framing of what it opens to. */
  lemma FramingCanonical(c: Crypto, pkt: Bytes, o: Opened)
    requires Inverting(c) && Authentic(c)
    ensures DecryptPacket(c, pkt) == Success(o)
       <==> |o.nonce| == NONCE_LEN
            && exists salt: Bytes :: |salt| == SALT_LEN && Frame(c, salt, o.nonce, o.ts, o.pt) == Success(pkt)
  {
    if DecryptPacket(c, pkt) == Success(o) {
      var salt := pkt[..SALT_LEN];
      var stamp := pkt[SALT_LEN..SALT_LEN + TS_LEN];
      var ct := pkt[SALT_LEN + TS_LEN + NONCE_LEN..];
      TimeInverse(stamp);
      assert pkt == salt + stamp + o.nonce + ct;
      assert Frame(c, salt, o.nonce, o.ts, o.pt) == Success(pkt);
    }
    if salt: Bytes :| |o.nonce| == NONCE_LEN && |salt| == SALT_LEN
                      && Frame(c, salt, o.nonce, o.ts, o.pt) == Success(pkt) {
      FramingRoundTrip(c, salt, o.nonce, o.ts, o.pt);
    }
  }

  /** `recv_from` into a buffer of `MAX_CT_SIZE` bytes, then `truncate(len)`. */
  function Received(raw: Bytes): Bytes {
    if |raw| > MAX_CT_SIZE then raw[..MAX_CT_SIZE] else raw
  }

  // ---- Padding ----

  function Hashes(n: nat): (s: Bytes)
    ensures |s| == n
  {
    if n == 0 then [] else Hashes(n - 1) + [HASH]
  }

  /** A text without its trailing run of '#'. */
  function TrimHash(s: Bytes): Bytes {
    if s != [] && s[|s| - 1] == HASH then TrimHash(s[..|s| - 1]) else s
  }

  /** What is left is the longest prefix not ending in '#', and only '#' is dropped. */
  lemma {:induction false} TrimHashSplits(s: Bytes)
    ensures var r := TrimHash(s);
            && |r| <= |s| && r == s[..|r|] && (r == [] || r[|r| - 1] != HASH)
            && forall i :: |r| <= i < |s| ==> s[i] == HASH
  {
    if s != [] && s[|s| - 1] == HASH {
      var front := s[..|s| - 1];
      TrimHashSplits(front);
      var n := |TrimHash(front)|;
      assert front[..n] == s[..n];
      forall i | n <= i < |s|
        ensures s[i] == HASH
      {
        if i < |s| - 1 {
          assert s[i] == front[i];
        }
      }
    }
  }

  method RemovePadding(text: Bytes) returns (pt: Bytes)
    ensures pt == TrimHash(text)
  {
    pt := text;
    while pt != [] && pt[|pt| - 1] == HASH
      invariant TrimHash(pt) == TrimHash(text)
      decreases |pt|
    {
      pt := pt[..|pt| - 1];
    }
  }

  /** The client's padding length for a random byte, with its saturating subtractions. */
  function CmdPadding(len: nat, random: u8): nat {
    if len + random > MAX_PT_SIZE - 1 then (if len > MAX_PT_SIZE - 1 then 0 else MAX_PT_SIZE - 1 - len) else random
  }

  method BuildPaddedCmd(script: Bytes, random: u8) returns (cmd: Bytes)
    ensures cmd == script + Hashes(CmdPadding(|script|, random))
  {
    cmd := script;
    var padLen := random;
    if |cmd| + padLen > MAX_PT_SIZE - 1 {
      padLen := if |cmd| > MAX_PT_SIZE - 1 then 0 else MAX_PT_SIZE - 1 - |cmd|;
    }
    cmd := cmd + Hashes(padLen);
  }

  /** The output a command is answered with: standard output, then standard error, cut to size. */
  function CommandOutput(out: Bytes, err: Bytes): (resp: Bytes)
    ensures resp <= out + err
    ensures |resp| == if |out| + |err| > MAX_PT_SIZE then MAX_PT_SIZE else |out| + |err|
  {
    var resp := out + err;
    if |resp| > MAX_PT_SIZE then resp[..MAX_PT_SIZE] else resp
  }

  /** The server's padding length for a random byte. */
  function ResponsePadding(len: nat, random: u8): nat {
    if len < MAX_PT_SIZE - 2 then (if len + random >= MAX_PT_SIZE then MAX_PT_SIZE - len - 1 else random) else 0
  }

  method PadResponse(output: Bytes, random: u8) returns (resp: Bytes)
    ensures resp == output + Hashes(ResponsePadding(|output|, random))
  {
    resp := output;
    if |resp| < MAX_PT_SIZE - 2 {
      var padLen := random;
      if |resp| + padLen >= MAX_PT_SIZE {
        padLen := MAX_PT_SIZE - |resp| - 1;
      }
      resp := resp + Hashes(padLen);
    }
    if |resp| < MAX_PT_SIZE {
      resp := resp + [0];
      resp := resp[..|resp| - 1];
    }
  }

  lemma {:induction false} TrimHashAppend(s: Bytes, n: nat)
    ensures TrimHash(s + Hashes(n)) == TrimHash(s)
  {
    if n == 0 {
      assert s + Hashes(0) == s;
    } else {
      TrimHashAppend(s, n - 1);
      assert s + Hashes(n) == s + Hashes(n - 1) + [HASH];
    }
  }

  /** For every random byte, removing the padding of a command or of a response leaves the text without
      its own trailing '#' run; that is the text itself exactly when it does not end in '#'. */
  lemma PaddingInverse(s: Bytes, random: u8)
    ensures TrimHash(s + Hashes(CmdPadding(|s|, random))) == TrimHash(s)
    ensures TrimHash(s + Hashes(ResponsePadding(|s|, random))) == TrimHash(s)
    ensures TrimHash(s) == s <==> (s == [] || s[|s| - 1] != HASH)
  {
    hide CmdPadding, ResponsePadding;
    TrimHashAppend(s, CmdPadding(|s|, random));
    TrimHashAppend(s, ResponsePadding(|s|, random));
    TrimHashSplits(s);
  }

  /** The padded length: as much of the random length as keeps the whole below the payload limit. */
  lemma PaddedLength(s: Bytes, random: u8)
    ensures var n := |s + Hashes(CmdPadding(|s|, random))|;
            n == if |s| >= MAX_PT_SIZE - 1 then |s|
                 else if |s| + random < MAX_PT_SIZE then |s| + random else MAX_PT_SIZE - 1
    ensures var n := |s + Hashes(ResponsePadding(|s|, random))|;
            n == if |s| >= MAX_PT_SIZE - 2 then |s|
                 else if |s| + random < MAX_PT_SIZE then |s| + random else MAX_PT_SIZE - 1
  {
  }

  /** The text, then '#' only. */
  ghost predicate IsPadded(pt: Bytes, text: Bytes) {
    text <= pt && forall i :: |text| <= i < |pt| ==> pt[i] == HASH
  }

  lemma {:induction false} HashesPad(s: Bytes, n: nat)
    ensures IsPadded(s + Hashes(n), s)
  {
    if n > 0 {
      HashesPad(s, n - 1);
      assert s + Hashes(n) == s + Hashes(n - 1) + [HASH];
    }
  }

  /** Stripping a padded text and stripping the text come to the same. */
  lemma {:induction false} PaddedTrims(pt: Bytes, text: Bytes)
    requires IsPadded(pt, text)
    ensures TrimHash(pt) == TrimHash(text)
    decreases |pt|
  {
    if |pt| == |text| {
      assert pt == text;
    } else {
      var front := pt[..|pt| - 1];
      assert forall i :: 0 <= i < |front| ==> front[i] == pt[i];
      PaddedTrims(front, text);
    }
  }

  /** A padded script fits the server's receive buffer exactly when the script fits the payload limit. */
  lemma CommandPacketFits(c: Crypto, script: Bytes, random: u8, salt: Bytes, nonce: Bytes, ts: i64)
    requires Inverting(c) && |salt| == SALT_LEN && |nonce| == NONCE_LEN
    requires Frame(c, salt, nonce, ts, script + Hashes(CmdPadding(|script|, random))).Success?
    ensures var pkt := Frame(c, salt, nonce, ts, script + Hashes(CmdPadding(|script|, random))).value;
            Received(pkt) == pkt <==> |script| <= MAX_PT_SIZE
  {
    FramingRoundTrip(c, salt, nonce, ts, script + Hashes(CmdPadding(|script|, random)));
  }

  /** Every response packet fits the client's receive buffer. */
  lemma ResponsePacketFits(
      c: Crypto, out: Bytes, err: Bytes, random: u8, salt: Bytes, nonce: Bytes, ts: i64)
    requires Inverting(c) && |salt| == SALT_LEN && |nonce| == NONCE_LEN
    ensures var resp := CommandOutput(out, err);
            var frame := Frame(c, salt, nonce, ts, resp + Hashes(ResponsePadding(|resp|, random)));
            frame.Success? ==> Received(frame.value) == frame.value
  {
    var resp := CommandOutput(out, err);
    var padded := resp + Hashes(ResponsePadding(|resp|, random));
    if Frame(c, salt, nonce, ts, padded).Success? {
      FramingRoundTrip(c, salt, nonce, ts, padded);
    }
  }
}

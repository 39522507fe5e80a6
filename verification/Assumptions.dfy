/** The hypotheses that the theorems place on the libraries and the kernel can be met together: a model of each. */
module Assumptions {
  import opened Wrappers
  import opened Ints
  import opened Net
  import opened Text
  import opened Packet
  import opened Helper
  import opened Commands
  import opened DumpScript

  function Tag(): (t: Bytes)
    ensures |t| == TAG
  {
    seq(TAG, _ => 0)
  }

  /** A cipher that only appends a constant tag is inverting and authentic. */
  lemma CryptoExists() returns (c: Crypto)
    ensures Inverting(c) && Authentic(c)
  {
    c := Crypto(
      salt => Some(salt),
      (k, n, m, a) => m + Tag(),
      (k, n, x, a) => if |x| >= TAG && x[|x| - TAG..] == Tag() then Some(x[..|x| - TAG]) else None);
    forall k, n, m, a
      ensures c.open(k, n, c.seal(k, n, m, a), a) == Some(m)
    {
      assert (m + Tag())[..|m|] == m && (m + Tag())[|m|..] == Tag();
    }
    forall k, n, x, a, m | c.open(k, n, x, a) == Some(m)
      ensures x == c.seal(k, n, m, a)
    {
      assert x == x[..|x| - TAG] + x[|x| - TAG..];
    }
  }

  // ---- Libraries ----

  function ShowHex(ip: IpAddr): string {
    match ip
    case V4(q) => "4" + HexOf(q)
    case V6(a) => "6" + HexOf(a)
  }

  function ReadHex(s: string): Result<seq<IpAddr>, Error> {
    if s == "" || |s| % 2 == 0 || HexBytes(s[1..]).Failure? then Failure(Unresolved)
    else
      var b := HexBytes(s[1..]).value;
      if s[0] == '4' && |b| == 4 then Success([V4(b)])
      else if s[0] == '6' && |b| == 16 then Success([V6(b)])
      else Failure(Unresolved)
  }

  lemma HexReadsBack(ip: IpAddr)
    ensures SafeWord(ShowHex(ip)) && ReadHex(ShowHex(ip)) == Success([ip])
  {
    var b: Bytes := match ip case V4(q) => q case V6(a) => a;
    HexBytesOfHex(b);
    HexOfSafe(b);
    assert ShowHex(ip)[1..] == HexOf(b);
  }

  lemma {:induction false} WordsOfWord(w: string, rest: string, word: string)
    requires forall c :: c in w ==> !IsSpace(c)
    ensures WordsFrom(w + rest, word) == WordsFrom(rest, word + w)
  {
    if w == "" {
      assert w + rest == rest && word + w == word;
    } else {
      assert (w + rest)[1..] == w[1..] + rest && word + [w[0]] + w[1..] == word + w;
      WordsOfWord(w[1..], rest, word + [w[0]]);
    }
  }

  lemma {:induction false} WordsOfJoin(ws: seq<string>)
    requires forall w :: w in ws ==> SafeWord(w)
    ensures WordsFrom(Join(ws), "") == ws
  {
    if ws == [] {
    } else {
      var w := ws[0];
      assert SafeWord(w) && "" + w == w;
      if |ws| == 1 {
        assert w + "" == w;
        WordsOfWord(w, "", "");
      } else {
        var rest := " " + Join(ws[1..]);
        assert Join(ws) == w + rest && rest[1..] == Join(ws[1..]);
        WordsOfWord(w, rest, "");
        WordsOfJoin(ws[1..]);
      }
    }
  }

  lemma LibraryExists() returns (lib: Library)
    ensures Honest(lib)
  {
    lib := Library(s => Some(WordsFrom(s, "")), ReadHex, ShowHex, s => s);
    forall ws: seq<string> | forall w :: w in ws ==> SafeWord(w)
      ensures lib.split(Join(ws)) == Some(ws)
    {
      WordsOfJoin(ws);
    }
    forall ip
      ensures SafeWord(lib.show(ip)) && lib.lookup(lib.show(ip)) == Success([ip])
    {
      HexReadsBack(ip);
    }
  }

  // ---- Kernel listings ----

  ghost function SomeKeys<K(!new), V>(m: map<K, V>): (dump: seq<K>)
    ensures Enumerates(dump, m)
    decreases |m|
  {
    if m == map[] then []
    else
      var key :| key in m.Keys;
      var rest := m - {key};
      assert m.Keys == rest.Keys + {key};
      [key] + SomeKeys(rest)
  }

  lemma ListingExists() returns (ls: Listing)
    ensures Complete(ls)
  {
    ls := Listing((k: Kernel) => SomeKeys(k.egress), (k: Kernel) => SomeKeys(k.users), (k, words) => Ok);
  }
}

/** The machine integers of the three programs and their byte encodings. */
module Ints {

  type u8 = x: int | 0 <= x < 0x100
  type u16 = x: int | 0 <= x < 0x1_0000
  type u32 = x: int | 0 <= x < 0x1_0000_0000
  type u64 = x: int | 0 <= x < 0x1_0000_0000_0000_0000
  type i64 = x: int | -0x8000_0000_0000_0000 <= x < 0x8000_0000_0000_0000

  type Bytes = seq<u8>

  const TWO_62: int := 0x4000_0000_0000_0000
  const TWO_63: int := 0x8000_0000_0000_0000
  const TWO_64: int := 0x1_0000_0000_0000_0000

  /** Two's-complement reduction: what an `i64` operation leaves in a build without overflow checks. */
  function WrapI64(x: int): i64 {
    (x + 0x8000_0000_0000_0000) % 0x1_0000_0000_0000_0000 - 0x8000_0000_0000_0000
  }

  /** `i64::abs`, whose only overflow is at the least value. */
  function AbsI64(x: i64): i64 {
    if x < 0 then WrapI64(0 - x as int) else x
  }

  /** The cast `x as u64`. */
  function AsU64(x: i64): u64 {
    if x < 0 then x + TWO_64 else x
  }

  /** The cast `x as i64`. */
  function AsI64(x: u64): i64 {
    if x >= TWO_63 then x - TWO_64 else x
  }

  /** Places in a list, each behind the one before it. */
  ghost predicate Increasing(ids: seq<int>) {
    forall i, j :: 0 <= i < j < |ids| ==> ids[i] < ids[j]
  }

  /** The two bytes of a 16-bit field, least significant first. */
  function Le16(x: u16): (s: Bytes)
    ensures |s| == 2
  {
    var hi := x / 0x100;
    [x - 0x100 * hi, hi]
  }

  /** The four bytes of a 32-bit field, least significant first. */
  function Le32(x: u32): (s: Bytes)
    ensures |s| == 4
  {
    var hi := x / 0x1_0000;
    Le16(x - 0x1_0000 * hi) + Le16(hi)
  }

  function U16At(b: Bytes, i: nat): u16
    requires i + 2 <= |b|
  {
    var lo: int, hi: int := b[i], b[i + 1];
    lo + 0x100 * hi
  }

  function U32At(b: Bytes, i: nat): u32
    requires i + 4 <= |b|
  {
    var lo: int, hi: int := U16At(b, i), U16At(b, i + 2);
    lo + 0x1_0000 * hi
  }

  lemma Le16Inverse(x: u16, b: Bytes, i: nat)
    requires i + 2 <= |b| && b[i..i + 2] == Le16(x)
    ensures U16At(b, i) == x
  {
    assert b[i] == Le16(x)[0] && b[i + 1] == Le16(x)[1];
  }

  lemma Le32Inverse(x: u32, b: Bytes, i: nat)
    requires i + 4 <= |b| && b[i..i + 4] == Le32(x)
    ensures U32At(b, i) == x
  {
    var hi := x / 0x1_0000;
    assert b[i..i + 2] == b[i..i + 4][..2] == Le16(x - 0x1_0000 * hi);
    assert b[i + 2..i + 4] == b[i..i + 4][2..] == Le16(hi);
    Le16Inverse(x - 0x1_0000 * hi, b, i);
    Le16Inverse(hi, b, i + 2);
  }

  lemma HighHalf(lo: int, hi: int)
    requires 0 <= lo < 0x1_0000
    ensures (lo + 0x1_0000 * hi) / 0x1_0000 == hi
  {
  }

  lemma Le16Parts(lo: u8, hi: u8)
    ensures Le16(lo + 0x100 * hi) == [lo, hi]
  {
  }

  lemma Le32Parts(lo: u16, hi: u16)
    ensures Le32(lo + 0x1_0000 * hi) == Le16(lo) + Le16(hi)
  {
    hide Le16;
    HighHalf(lo, hi);
  }

  /** The bytes of 16-bit and 32-bit fields, one by one. */
  lemma LittleEndian(a: u8, b: u8, c: u8, d: u8)
    ensures Le16(a + 0x100 * b) == [a, b]
    ensures Le32(a + 0x100 * b + 0x1_0000 * c + 0x100_0000 * d) == [a, b, c, d]
  {
    hide Le16, Le32;
    Le16Parts(a, b);
    Le16Parts(c, d);
    Le32Parts(a + 0x100 * b, c + 0x100 * d);
    assert a + 0x100 * b + 0x1_0000 * (c + 0x100 * d) == a + 0x100 * b + 0x1_0000 * c + 0x100_0000 * d;
  }

  /** The low `n` bytes of `x`, most significant first. */
  function BigEndian(x: nat, n: nat): (s: Bytes)
    ensures |s| == n
  {
    if n == 0 then [] else BigEndian(x / 0x100, n - 1) + [x % 0x100]
  }

  lemma DivideTwice(x: nat, p: nat)
    requires p > 0
    ensures x / 0x100 / p == x / (0x100 * p)
  {
    var q, r := x / 0x100, x % 0x100;
    var d, e := q / p, q % p;
    assert q == p * d + e;
    Spread(p, d);
    QuotientIs(x, 0x100 * p, d, 0x100 * e + r);
  }

  lemma Spread(p: nat, d: nat)
    ensures 0x100 * (p * d) == 0x100 * p * d
  {
  }

  lemma NoLess(m: nat, a: nat, b: nat)
    requires a <= b
    ensures m * a <= m * b
  {
  }

  lemma QuotientIs(x: nat, m: nat, d: nat, rest: nat)
    requires m > 0 && x == m * d + rest && rest < m
    ensures x / m == d
  {
    var q := x / m;
    assert x == m * q + x % m;
    if q < d {
      NoLess(m, q + 1, d);
      assert false;
    } else if q > d {
      NoLess(m, d + 1, q);
      assert false;
    }
  }

  /** Each byte, by its weight. */
  lemma {:induction false} BigEndianByte(x: nat, n: nat, i: nat)
    requires i < n
    ensures BigEndian(x, n)[i] == x / Pow256(n - 1 - i) % 0x100
    decreases n
  {
    if i == n - 1 {
      assert Pow256(0) == 1;
    } else {
      BigEndianByte(x / 0x100, n - 1, i);
      assert Pow256(n - 1 - i) == 0x100 * Pow256(n - 2 - i);
      DivideTwice(x, Pow256(n - 2 - i));
    }
  }

  function FromBigEndian(s: Bytes): nat {
    if s == [] then 0 else 0x100 * FromBigEndian(s[..|s| - 1]) + s[|s| - 1]
  }

  function Pow256(n: nat): (p: nat)
    ensures p > 0
  {
    if n == 0 then 1 else 0x100 * Pow256(n - 1)
  }

  lemma {:induction false} BigEndianInverse(x: nat, n: nat)
    requires x < Pow256(n)
    ensures FromBigEndian(BigEndian(x, n)) == x
  {
    if n == 0 {
    } else {
      BigEndianInverse(x / 0x100, n - 1);
      assert BigEndian(x, n)[..n - 1] == BigEndian(x / 0x100, n - 1);
    }
  }

  lemma {:induction false} FromBigEndianInverse(s: Bytes)
    ensures FromBigEndian(s) < Pow256(|s|)
    ensures BigEndian(FromBigEndian(s), |s|) == s
  {
    if s == [] {
    } else {
      FromBigEndianInverse(s[..|s| - 1]);
      assert s == s[..|s| - 1] + [s[|s| - 1]];
    }
  }

  lemma Pow256Values()
    ensures Pow256(8) == TWO_64
  {
    assert Pow256(1) == 0x100;
    assert Pow256(2) == 0x1_0000;
    assert Pow256(3) == 0x100_0000;
    assert Pow256(4) == 0x1_0000_0000;
    assert Pow256(5) == 0x100_0000_0000;
    assert Pow256(6) == 0x1_0000_0000_0000;
    assert Pow256(7) == 0x100_0000_0000_0000;
  }
}

/** Internet addresses as byte strings. */
module Net {
  import opened Ints

  type Quad = b: Bytes | |b| == 4 witness [0, 0, 0, 0]
  type Addr = b: Bytes | |b| == 16 witness [0, 0, 0, 0, 0, 0, 0, 0, 0, 0, 0, 0, 0, 0, 0, 0]

  datatype IpAddr = V4(quad: Quad) | V6(addr: Addr)

  const ZEROS_10: Bytes := [0, 0, 0, 0, 0, 0, 0, 0, 0, 0]

  /** The IPv4-mapped form (section 2.5.5.2 of RFC 4291). */
  function Mapped(q: Quad): Addr {
    ZEROS_10 + [0xFF, 0xFF] + q
  }

  /** The kernel's 16-byte form of an address. */
  function ToAddr(ip: IpAddr): Addr {
    match ip
    case V4(q) => Mapped(q)
    case V6(a) => a
  }

  predicate IsMapped(a: Addr) {
    a[..10] == ZEROS_10 && a[10] == 0xFF && a[11] == 0xFF
  }

  /** The block ::/96 of IPv4-compatible addresses (section 2.5.5.1 of RFC 4291). */
  predicate IsCompatible(a: Addr) {
    a[..10] == ZEROS_10 && a[10] == 0 && a[11] == 0
  }

  /** `Ipv6Addr::to_ipv4` accepts both blocks. */
  function Shown(a: Addr): IpAddr {
    if IsMapped(a) || IsCompatible(a) then V4(a[12..]) else V6(a)
  }

  /** An address is shown as its last four bytes exactly when ten zeros and two equal bytes, all ones or all zero,
      stand before them. */
  lemma ShownExact(a: Addr)
    ensures Shown(a)
         == if (forall i :: 0 <= i < 10 ==> a[i] == 0) && a[10] == a[11] && (a[10] == 0xFF || a[10] == 0)
            then V4([a[12], a[13], a[14], a[15]])
            else V6(a)
  {
    if forall i :: 0 <= i < 10 ==> a[i] == 0 {
      assert a[..10] == ZEROS_10;
    } else {
      var i :| 0 <= i < 10 && a[i] != 0;
      assert a[..10][i] != ZEROS_10[i];
    }
    assert a[12..] == [a[12], a[13], a[14], a[15]];
  }

  /** The kernel's form of an address, byte by byte. */
  lemma ToAddrBytes(q: Quad, a: Addr)
    ensures ToAddr(V4(q)) == [0, 0, 0, 0, 0, 0, 0, 0, 0, 0, 0xFF, 0xFF, q[0], q[1], q[2], q[3]]
    ensures ToAddr(V6(a)) == a
  {
  }

  /** Showing an address and reading it back is the identity outside ::/96 only. */
  lemma ShownReadBack(a: Addr)
    ensures ToAddr(Shown(a)) == a <==> !IsCompatible(a)
  {
    if IsMapped(a) {
      assert a == a[..10] + [a[10], a[11]] + a[12..];
    } else if IsCompatible(a) {
      assert Mapped(a[12..])[10] == 0xFF;
    }
  }
}

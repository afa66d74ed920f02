/** IPv6 addresses as bits: scope and common prefixes (section 3.1 and section 2.2 of RFC 6724). */
module Addresses {
  import opened Bytes

  type Address = a: seq<bv8> | |a| == 16 witness seq(16, _ => 0)

  const LINK_LOCAL := 2
  const SITE_LOCAL := 5
  const GLOBAL := 14

  /** addr_ipv6_scope. */
  function Scope(a: Address): (s: nat)
    ensures s <= 15
  {
    if a[0] == 0xff then (a[1] & 0x0f) as nat
    else if (a[0] == 0xfe && a[1] & 0xc0 == 0x80) || a == Loopback() then LINK_LOCAL
    else if a[0] == 0xfe && a[1] & 0xc0 == 0xc0 then SITE_LOCAL
    else if a[..12] == Mapped() && ((a[12] == 169 && a[13] == 254) || a[12] == 127) then LINK_LOCAL
    else GLOBAL
  }

  function Loopback(): Address {
    seq(15, _ => 0) + [1]
  }

  function Mapped(): seq<bv8> {
    seq(10, _ => 0) + [0xff, 0xff]
  }

  /** Bit i of a byte, the most significant being bit 0. */
  predicate BitOf(b: bv8, i: nat)
    requires i < 8
  {
    b & Mask(i) != 0
  }

  function Mask(i: nat): bv8
    requires i < 8
  {
    [0x80, 0x40, 0x20, 0x10, 0x08, 0x04, 0x02, 0x01][i]
  }

  predicate Bit(a: Address, i: nat)
    requires i < 128
  {
    BitOf(a[i / 8], i % 8)
  }

  predicate SameBit(a: Address, b: Address, i: nat)
    requires i < 128
  {
    Bit(a, i) == Bit(b, i)
  }

  /** The first n bits agree: bitsequal. */
  predicate SamePrefix(a: Address, b: Address, n: nat)
    requires n <= 128
  {
    forall i :: 0 <= i < n ==> SameBit(a, b, i)
  }

  /** fe80::, fec0::, and the IPv4-mapped forms of 169.254.0.0 and 127.0.0.0. */
  function LinkPrefix(): Address {
    [0xfe, 0x80] + seq(14, _ => 0)
  }

  function SitePrefix(): Address {
    [0xfe, 0xc0] + seq(14, _ => 0)
  }

  function MappedPrefix(x: bv8, y: bv8): Address {
    seq(10, _ => 0) + [0xff, 0xff, x, y, 0, 0]
  }

  /** Scope by prefixes: multicast addresses carry it in bits 12 to 15; fe80::/10, ::1 and, mapped, 169.254/16 and 127/8 are link-local,
      fec0::/10 is site-local, all others are global. */
  lemma ScopeIs(a: Address)
    ensures a[0] == 0xff ==> Scope(a) == BitAt(a, 12, 8) + BitAt(a, 13, 4) + BitAt(a, 14, 2) + BitAt(a, 15, 1)
    ensures a[0] != 0xff ==>
              var local := SamePrefix(a, LinkPrefix(), 10) || SamePrefix(a, Loopback(), 128)
                           || SamePrefix(a, MappedPrefix(169, 254), 112) || SamePrefix(a, MappedPrefix(127, 0), 104);
              Scope(a) == if local then LINK_LOCAL else if SamePrefix(a, SitePrefix(), 10) then SITE_LOCAL else GLOBAL
  {
    if a[0] == 0xff {
      NibbleBits(a[1]);
    } else {
      TenBits(a, LinkPrefix());
      TenBits(a, SitePrefix());
      OctetsSame(a, Loopback(), 16);
      OctetsSame(a, MappedPrefix(169, 254), 14);
      OctetsSame(a, MappedPrefix(127, 0), 13);
      FirstTwo(a[1]);
      Split(a);
      Split(MappedPrefix(169, 254));
      Split(MappedPrefix(127, 0));
    }
  }

  lemma Split(a: Address)
    ensures a[..14] == a[..12] + [a[12], a[13]] && a[..13] == a[..12] + [a[12]] && a[..16] == a
    ensures a[10] == 0xff && a[11] == 0xff && (forall i :: 0 <= i < 10 ==> a[i] == 0) ==> a[..12] == Mapped()
  {
  }

  function BitAt(a: Address, i: nat, weight: nat): nat
    requires i < 128
  {
    if Bit(a, i) then weight else 0
  }

  lemma NibbleBits(x: bv8)
    ensures (x & 0x0f) as nat == (if BitOf(x, 4) then 8 else 0) + (if BitOf(x, 5) then 4 else 0) + (if BitOf(x, 6) then 2 else 0)
                                 + (if BitOf(x, 7) then 1 else 0)
  {
    var y := x & 0x0f;
    assert y == (x & 0x08) | (x & 0x04) | (x & 0x02) | (x & 0x01);
  }

  lemma FirstTwo(x: bv8)
    ensures x & 0xc0 == 0x80 <==> BitOf(x, 0) && !BitOf(x, 1)
    ensures x & 0xc0 == 0xc0 <==> BitOf(x, 0) && BitOf(x, 1)
  {
  }

  lemma TenBits(a: Address, p: Address)
    ensures SamePrefix(a, p, 10) <==> a[0] == p[0] && BitOf(a[1], 0) == BitOf(p[1], 0) && BitOf(a[1], 1) == BitOf(p[1], 1)
  {
    OctetsSame(a, p, 1);
    assert a[..1] == [a[0]] && p[..1] == [p[0]];
    OctetBit(a, p, 1, 0);
    OctetBit(a, p, 1, 1);
    assert SamePrefix(a, p, 10) <==> SamePrefix(a, p, 8) && SameBit(a, p, 8) && SameBit(a, p, 9);
  }

  /** Prefixes of whole octets agree bit by bit exactly if they are the same. */
  lemma {:induction false} OctetsSame(a: Address, b: Address, k: nat)
    requires k <= 16
    ensures SamePrefix(a, b, 8 * k) <==> a[..k] == b[..k]
  {
    if k > 0 {
      OctetsSame(a, b, k - 1);
      assert a[..k] == a[..k - 1] + [a[k - 1]] && b[..k] == b[..k - 1] + [b[k - 1]];
      if a[k - 1] == b[k - 1] {
        if SamePrefix(a, b, 8 * (k - 1)) {
          OctetAgrees(a, b, k - 1);
        }
      } else {
        OctetDiffers(a, b, k - 1);
      }
    }
  }

  lemma OctetDiffers(a: Address, b: Address, k: nat)
    requires k < 16 && a[k] != b[k]
    ensures !SamePrefix(a, b, 8 * k + 8)
  {
    var z := FirstDifference(a[k], b[k]);
    OctetBit(a, b, k, z);
    assert !SameBit(a, b, 8 * k + z);
  }

  lemma FirstDifference(s: bv8, d: bv8) returns (z: nat)
    requires s != d
    ensures z < 8 && BitOf(s, z) != BitOf(d, z)
  {
    z := LeadingZeros(s ^ d);
    XorAgrees(s, d);
    assert !AgreeAt(s, d, z);
  }

  function LeadingZeros(x: bv8): (n: nat)
    ensures n <= 8
  {
    if x & 0x80 != 0 then 0 else if x & 0x40 != 0 then 1 else if x & 0x20 != 0 then 2 else if x & 0x10 != 0 then 3
    else if x & 0x08 != 0 then 4 else if x & 0x04 != 0 then 5 else if x & 0x02 != 0 then 6 else if x & 0x01 != 0 then 7 else 8
  }

  lemma XorBit(s: bv8, d: bv8, i: nat)
    requires i < 8
    ensures BitOf(s ^ d, i) <==> BitOf(s, i) != BitOf(d, i)
  {
    MaskXor(s, d, Mask(i));
  }

  lemma MaskXor(s: bv8, d: bv8, m: bv8)
    requires m == 0x80 || m == 0x40 || m == 0x20 || m == 0x10 || m == 0x08 || m == 0x04 || m == 0x02 || m == 0x01
    ensures (s ^ d) & m != 0 <==> (s & m != 0) != (d & m != 0)
  {
  }

  lemma LeadingBits(x: bv8)
    ensures forall i :: 0 <= i < LeadingZeros(x) ==> !BitOf(x, i)
    ensures LeadingZeros(x) < 8 ==> BitOf(x, LeadingZeros(x))
  {
  }

  predicate AgreeAt(s: bv8, d: bv8, i: nat)
    requires i < 8
  {
    BitOf(s, i) == BitOf(d, i)
  }

  /** Two bytes agree in exactly their first z bits. */
  predicate Agree(s: bv8, d: bv8, z: nat) {
    && z <= 8 && (forall i :: 0 <= i < z ==> AgreeAt(s, d, i))
    && (if z < 8 then !AgreeAt(s, d, z) else s == d)
  }

  /** The exclusive or of two bytes shows how many of their leading bits agree. */
  lemma XorAgrees(s: bv8, d: bv8)
    ensures Agree(s, d, LeadingZeros(s ^ d))
  {
    var z := LeadingZeros(s ^ d);
    LeadingBits(s ^ d);
    forall i | 0 <= i < z ensures AgreeAt(s, d, i) {
      XorBit(s, d, i);
    }
    if z < 8 {
      XorBit(s, d, z);
    } else {
      DifferentBytes(s, d);
    }
  }

  /** addr_common_prefix_len: the number of leading bits in which the addresses agree, at most srcLen. */
  method CommonPrefixLen(src: Address, srcLen: nat, dst: Address) returns (common: nat)
    requires srcLen <= 128
    ensures common == Common(src, srcLen, dst)
  {
    common := 0;
    var left: nat, k: nat := srcLen, 0;
    while left >= 8 && src[k] == dst[k]
      invariant common == 8 * k && left + common == srcLen
      invariant SamePrefix(src, dst, 8 * k)
      decreases left
    {
      OctetAgrees(src, dst, k);
      common, left, k := common + 8, left - 8, k + 1;
    }
    if left > 0 {
      XorAgrees(src[k], dst[k]);
      var trail := LeadingZeros(src[k] ^ dst[k]);
      TrailAgrees(src, dst, k, trail, left);
      if trail > left {
        trail := left;
      }
      common := common + trail;
    }
    CommonIs(src, srcLen, dst, common);
  }

  lemma OctetAgrees(src: Address, dst: Address, k: nat)
    requires k < 16 && SamePrefix(src, dst, 8 * k) && src[k] == dst[k]
    ensures SamePrefix(src, dst, 8 * (k + 1))
  {
    forall i | 0 <= i < 8 * (k + 1) ensures SameBit(src, dst, i) {
      if i >= 8 * k {
        OctetBit(src, dst, k, i - 8 * k);
      }
    }
  }

  lemma TrailAgrees(src: Address, dst: Address, k: nat, z: nat, left: nat)
    requires k < 16 && 0 < left && 8 * k + left <= 128 && SamePrefix(src, dst, 8 * k)
    requires Agree(src[k], dst[k], z) && (left >= 8 ==> z < 8)
    ensures SamePrefix(src, dst, 8 * k + Min(z, left))
    ensures z < left ==> !SameBit(src, dst, 8 * k + z)
  {
    var n := 8 * k + Min(z, left);
    forall i | 0 <= i < n ensures SameBit(src, dst, i) {
      if i >= 8 * k {
        OctetBit(src, dst, k, i - 8 * k);
        assert AgreeAt(src[k], dst[k], i - 8 * k);
      }
    }
    if z < left {
      OctetBit(src, dst, k, z);
    }
  }

  lemma OctetBit(src: Address, dst: Address, k: nat, j: nat)
    requires j < 8 && k < 16
    ensures SameBit(src, dst, 8 * k + j) <==> BitOf(src[k], j) == BitOf(dst[k], j)
  {
    assert (8 * k + j) / 8 == k && (8 * k + j) % 8 == j;
  }

  lemma DifferentBytes(s: bv8, d: bv8)
    ensures LeadingZeros(s ^ d) == 8 ==> s == d
  {
  }

  /** The length of the longest common prefix of at most n bits. */
  function Common(a: Address, n: nat, b: Address): (r: nat)
    requires n <= 128
    ensures r <= n
  {
    CommonFrom(a, n, b, 0)
  }

  function CommonFrom(a: Address, n: nat, b: Address, i: nat): (r: nat)
    requires i <= n <= 128
    ensures i <= r <= n
    decreases n - i
  {
    if i == n || !SameBit(a, b, i) then i else CommonFrom(a, n, b, i + 1)
  }

  /** It is the one length up to which all bits agree and at which they stop doing so. */
  lemma {:induction false} CommonIs(a: Address, n: nat, b: Address, r: nat)
    requires r <= n <= 128 && SamePrefix(a, b, r) && (r < n ==> !SameBit(a, b, r))
    ensures r == Common(a, n, b)
  {
    CommonFromIs(a, n, b, r, 0);
  }

  lemma {:induction false} CommonFromIs(a: Address, n: nat, b: Address, r: nat, i: nat)
    requires i <= r <= n <= 128 && SamePrefix(a, b, r) && (r < n ==> !SameBit(a, b, r))
    ensures r == CommonFrom(a, n, b, i)
    decreases r - i
  {
    if i < r {
      assert SameBit(a, b, i);
      CommonFromIs(a, n, b, r, i + 1);
    }
  }
}

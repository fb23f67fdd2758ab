/** IPv4 subnets: masks, containment, overlap and the gateway address. */
module Subnets {
  import opened Words

  datatype Subnet = Subnet(base: u32, prefix: u8)

  /** A prefix length of 0 shifts a 32-bit one by 32 in the source, and one above 32
      underflows; every mask computation is defined from 1 to 32. */
  type Net = s: Subnet | 1 <= s.prefix <= 32 witness Subnet(0, 1)

  function HostMask(prefix: u8): (mask: u32)
    requires 1 <= prefix <= 32
    ensures mask == Pow2(32 - prefix) - 1
  {
    Pow2Monotone(32 - prefix, 32);
    Pow2Values();
    if prefix >= 32 then 0 else Pow2(32 - prefix) - 1
  }

  /** The number of addresses of a subnet. */
  function Size(s: Net): nat {
    Pow2(32 - s.prefix)
  }

  function NetworkBits(ip: u32, prefix: u8): (bits: nat)
    requires 1 <= prefix <= 32
  {
    And(ip, Not32(HostMask(prefix)))
  }

  predicate InSubnet(ip: u32, s: Net) {
    NetworkBits(ip, s.prefix) == NetworkBits(s.base, s.prefix)
  }

  function Min(a: u8, b: u8): u8 {
    if a <= b then a else b
  }

  predicate Overlap(a: Net, b: Net) {
    var prefix := Min(a.prefix, b.prefix);
    NetworkBits(a.base, prefix) == NetworkBits(b.base, prefix)
  }

  function Gateway(s: Net): u32 {
    WrappingAdd(s.base, 1)
  }

  // ---------------------------------------------------------------- arithmetic meaning

  lemma NetworkBitsMeaning(ip: u32, prefix: u8)
    requires 1 <= prefix <= 32
    ensures NetworkBits(ip, prefix) == ip - ip % Pow2(32 - prefix)
    ensures NetworkBits(ip, prefix) == Pow2(32 - prefix) * (ip / Pow2(32 - prefix))
  {
    var k := 32 - prefix;
    assert Pow2(32) == WORD by { Pow2Values(); }
    assert Not32(HostMask(prefix)) == Pow2(32) - Pow2(k);
    AndHighMask(ip, k, 32);
    DivMod(ip, Pow2(k));
  }

  /** Masked bits agree exactly when the addresses lie in the same aligned block. */
  lemma SameNetworkBits(x: u32, y: u32, prefix: u8)
    requires 1 <= prefix <= 32
    ensures NetworkBits(x, prefix) == NetworkBits(y, prefix) <==> x / Pow2(32 - prefix) == y / Pow2(32 - prefix)
  {
    NetworkBitsMeaning(x, prefix);
    NetworkBitsMeaning(y, prefix);
    EqualMultiples(Pow2(32 - prefix), x / Pow2(32 - prefix), y / Pow2(32 - prefix));
  }

  /** The containment test accepts exactly the addresses of the aligned range around the
      base, whether or not the base itself is aligned. */
  lemma InSubnetIffInRange(ip: u32, s: Net)
    ensures InSubnet(ip, s) <==> NetworkBits(s.base, s.prefix) <= ip < NetworkBits(s.base, s.prefix) + Size(s)
  {
    NetworkBitsMeaning(ip, s.prefix);
    NetworkBitsMeaning(s.base, s.prefix);
    SameNetworkBits(ip, s.base, s.prefix);
    var m := Size(s);
    var q := s.base / m;
    if m * q <= ip < m * q + m {
      DivModUnique(ip, m, q, ip - m * q);
    }
  }

  /** Coarser blocks contain finer ones. */
  lemma CoarserBlock(x: u32, y: u32, coarse: nat, fine: nat)
    requires fine <= coarse && x / Pow2(fine) == y / Pow2(fine)
    ensures x / Pow2(coarse) == y / Pow2(coarse)
  {
    Pow2Split(fine, coarse - fine);
    DivDiv(x, Pow2(fine), Pow2(coarse - fine));
    DivDiv(y, Pow2(fine), Pow2(coarse - fine));
  }

  /** Overlap of two subnets, for all prefixes and unaligned bases, is exactly the
      existence of a shared address. */
  lemma OverlapIffShared(a: Net, b: Net)
    ensures Overlap(a, b) <==> exists ip: u32 :: InSubnet(ip, a) && InSubnet(ip, b)
  {
    if a.prefix <= b.prefix {
      OverlapIffSharedOrdered(a, b);
    } else {
      OverlapIffSharedOrdered(b, a);
    }
  }

  lemma OverlapIffSharedOrdered(a: Net, b: Net)
    requires a.prefix <= b.prefix
    ensures Overlap(a, b) <==> exists ip: u32 :: InSubnet(ip, a) && InSubnet(ip, b)
  {
    hide NetworkBits, Pow2;
    if Overlap(a, b) {
      assert InSubnet(b.base, a) && InSubnet(b.base, b);
    }
    forall ip: u32 | InSubnet(ip, a) && InSubnet(ip, b)
      ensures Overlap(a, b)
    {
      SameNetworkBits(ip, a.base, a.prefix);
      SameNetworkBits(ip, b.base, b.prefix);
      CoarserBlock(ip, b.base, 32 - a.prefix, 32 - b.prefix);
      SameNetworkBits(a.base, b.base, a.prefix);
    }
  }

  lemma OverlapSymmetric(a: Net, b: Net)
    ensures Overlap(a, b) <==> Overlap(b, a)
  {
    assert Min(a.prefix, b.prefix) == Min(b.prefix, a.prefix);
  }
}

/** Address ranges: the mask comparisons of the SPF checker, against the leading bits they stand for. */
module IpNetwork {
  import opened Arith
  import opened Bits
  import opened Octets

  type U32 = x: int | 0 <= x < 0x1_0000_0000
  type U8 = x: int | 0 <= x < 256
  type V6Octets = s: seq<Byte> | |s| == 16 witness seq(16, _ => 0)

  /** The first p bits of two numbers of a given width are the same. */
  predicate SharePrefix(a: nat, b: nat, width: nat, p: nat)
    requires p <= width
  {
    a / Pow(2, width - p) == b / Pow(2, width - p)
  }

  /** !((1 << k) - 1) on 32 bits. */
  function NotLow(k: nat): nat
    requires k <= 32
  {
    TwoPow32();
    PowMono(2, k, 32);
    0xFFFF_FFFF - (Pow(2, k) - 1)
  }

  function Ipv4InNetwork(ip: U32, network: U32, prefix: U8): bool {
    if prefix == 0 then true
    else
      var mask: nat := if prefix >= 32 then 0xFFFF_FFFF else NotLow(32 - prefix);
      And(ip, mask) == And(network, mask)
  }

  function Ipv6InNetwork(ip: V6Octets, network: V6Octets, prefix: U8): bool {
    if prefix == 0 then true
    else
      var fullBytes, remBits: nat := prefix / 8, prefix % 8;
      if fullBytes > 16 then ip == network
      else if ip[..fullBytes] != network[..fullBytes] then false
      else if remBits == 0 then true
      else
        var mask: nat := (0xFF * Pow(2, 8 - remBits)) % 0x100;
        var a: nat := if fullBytes < 16 then And(ip[fullBytes], mask) else And(0, mask);
        var b: nat := if fullBytes < 16 then And(network[fullBytes], mask) else And(0, mask);
        a == b
  }

  lemma AndDouble(a: nat, c: nat)
    ensures And(a, 2 * c) == 2 * And(a / 2, c)
  {
    if a != 0 && c != 0 {
      assert (2 * c) / 2 == c && (2 * c) % 2 == 0;
    }
  }

  lemma {:induction false} AndShifted(a: nat, b: nat, s: nat)
    ensures b * Pow(2, s) >= 0
    ensures And(a, b * Pow(2, s)) == And(a / Pow(2, s), b) * Pow(2, s)
    decreases s
  {
    MulSign(b, Pow(2, s));
    if s == 0 {
      assert Pow(2, 0) == 1;
    } else {
      var h: nat := Pow(2, s - 1);
      PowStep(s);
      MulSign(b, h);
      AndShifted(a / 2, b, s - 1);
      hide And, Pow;
      DivDiv(a, 2, h);
      AndDouble(a, b * h);
      Doubled(b, h);
      Doubled(And(a / 2 / h, b), h);
    }
  }

  lemma Doubled(x: int, h: int)
    ensures x * (2 * h) == 2 * (x * h)
  {
  }

  lemma PowStep(s: nat)
    requires s > 0
    ensures Pow(2, s) == 2 * Pow(2, s - 1)
  {
  }

  /** A mask of the high bits keeps exactly them. */
  lemma AndHighMask(a: nat, width: nat, s: nat)
    requires s <= width && a < Pow(2, width)
    ensures Pow(2, width) - Pow(2, s) >= 0
    ensures And(a, Pow(2, width) - Pow(2, s)) == (a / Pow(2, s)) * Pow(2, s)
  {
    hide And, Pow;
    var h, t := Pow(2, s), Pow(2, width - s);
    PowAdd(2, width - s, s);
    OneLess(t, h);
    AndShifted(a, t - 1, s);
    QuotientBelow(a, h, t);
    AndMask(a / h, width - s);
    ModSmall(a / h, t);
  }

  lemma OneLess(t: int, h: int)
    ensures t * h - h == (t - 1) * h
    ensures t > 0 && h > 0 ==> t * h - h >= 0
  {
    if t > 0 && h > 0 { MulSign(t - 1, h); }
  }

  lemma SameUnderMask(a: nat, b: nat, width: nat, s: nat)
    requires s <= width && a < Pow(2, width) && b < Pow(2, width)
    ensures Pow(2, width) - Pow(2, s) >= 0
    ensures And(a, Pow(2, width) - Pow(2, s)) == And(b, Pow(2, width) - Pow(2, s))
       <==> a / Pow(2, s) == b / Pow(2, s)
  {
    AndHighMask(a, width, s);
    AndHighMask(b, width, s);
    MultipleMod(a / Pow(2, s), Pow(2, s));
    MultipleMod(b / Pow(2, s), Pow(2, s));
  }

  /** ipv4_in_network compares exactly the first prefix bits, and all 32 for any larger prefix. */
  lemma Ipv4NetworkExact(ip: U32, network: U32, prefix: U8)
    ensures Ipv4InNetwork(ip, network, prefix)
       <==> SharePrefix(ip, network, 32, if prefix < 32 then prefix else 32)
  {
    TwoPow32();
    assert Pow(2, 0) == 1;
    hide And, Pow;
    if prefix == 0 {
      ModSmall(ip, Pow(2, 32));
      ModSmall(network, Pow(2, 32));
    } else if prefix >= 32 {
      SameUnderMask(ip, network, 32, 0);
    } else {
      SameUnderMask(ip, network, 32, 32 - prefix);
    }
  }

  lemma WidthSplit(full: nat, rem: nat)
    requires full < 16 && rem < 8
    ensures Pow(2, 128 - (8 * full + rem)) == Pow(256, 15 - full) * Pow(2, 8 - rem)
    ensures Pow(2, rem) * Pow(2, 8 - rem) == 256
  {
    TwoPow16();
    hide Pow;
    PowAdd(2, 8 - rem, rem);
    PowMul(2, 8, 15 - full);
    PowAdd(2, 8 * (15 - full), 8 - rem);
    assert 128 - (8 * full + rem) == 8 * (15 - full) + (8 - rem);
  }

  lemma CarryOut(x: nat, b: nat, t: nat, h: nat)
    requires h > 0 && t * h == 256
    ensures (256 * x + b) / h == x * t + b / h
  {
    MulAssoc(x, t, h);
    MulComm(x, 256);
    ModMultiple(b, x * t, h);
  }

  /** Whole bytes followed by the top bits of one more. */
  function Packed(x: nat, b: Byte, rem: nat): nat
    requires rem < 8
  {
    MulSign(x, Pow(2, rem));
    DivPositive(b, Pow(2, 8 - rem));
    x * Pow(2, rem) + b / Pow(2, 8 - rem)
  }

  /** The number whose leading bits are whole bytes and part of the next one. */
  lemma LeadingBits(s: V6Octets, full: nat, rem: nat)
    requires full < 16 && rem < 8
    ensures Os2ip(s) / Pow(2, 128 - (8 * full + rem)) == Packed(Os2ip(s[..full]), s[full], rem)
  {
    hide Os2ip, Pow;
    var x, b, h, t := Os2ip(s[..full]), s[full], Pow(2, 8 - rem), Pow(2, rem);
    WidthSplit(full, rem);
    DivDiv(Os2ip(s), Pow(256, 15 - full), h);
    Os2ipSuffix(s, full + 1);
    assert s[..full + 1] == s[..full] + [b];
    Os2ipSnoc(s[..full], b);
    CarryOut(x, b, t, h);
  }

  lemma TopOfByte(b: Byte, rem: nat)
    requires rem <= 8
    ensures b / Pow(2, 8 - rem) < Pow(2, rem)
  {
    TwoPow16();
    hide Pow;
    PowAdd(2, 8 - rem, rem);
    var h, t := Pow(2, 8 - rem), Pow(2, rem);
    MulComm(h, t);
    QuotientBelow(b, h, t);
  }

  lemma ByteMask(rem: nat)
    requires 0 < rem < 8
    ensures (0xFF * Pow(2, 8 - rem)) % 0x100 == Pow(2, 8) - Pow(2, 8 - rem)
  {
    var h := Pow(2, 8 - rem);
    TwoPow16();
    PowMono(2, 8 - rem, 8);
    assert 0xFF * h == (256 - h) + (h - 1) * 256;
    ModMultiple(256 - h, h - 1, 256);
    ModSmall(256 - h, 256);
  }

  /** ipv6_in_network compares exactly the first prefix bits, and all 128 for any larger prefix. */
  lemma Ipv6NetworkExact(ip: V6Octets, network: V6Octets, prefix: U8)
    ensures Ipv6InNetwork(ip, network, prefix)
       <==> SharePrefix(Os2ip(ip), Os2ip(network), 128, if prefix < 128 then prefix else 128)
  {
    if prefix >= 128 {
      WholeAddress(ip, network, prefix);
    } else {
      var full, rem: nat := prefix / 8, prefix % 8;
      SameLeading(ip, network, full, rem);
      ByteCompared(ip[full], network[full], rem);
      hide Os2ip, Pow, And;
      assert prefix == 8 * full + rem;
    }
  }

  lemma SameLeading(ip: V6Octets, network: V6Octets, full: nat, rem: nat)
    requires full < 16 && rem < 8
    ensures Os2ip(ip) / Pow(2, 128 - (8 * full + rem)) == Os2ip(network) / Pow(2, 128 - (8 * full + rem))
       <==> ip[..full] == network[..full] && ip[full] / Pow(2, 8 - rem) == network[full] / Pow(2, 8 - rem)
  {
    hide Os2ip, Pow, Packed;
    LeadingBits(ip, full, rem);
    LeadingBits(network, full, rem);
    PackedUnique(Os2ip(ip[..full]), ip[full], Os2ip(network[..full]), network[full], rem);
    if Os2ip(ip[..full]) == Os2ip(network[..full]) {
      Os2ipInjective(ip[..full], network[..full]);
    }
  }

  lemma PackedUnique(x: nat, b: Byte, y: nat, c: Byte, rem: nat)
    requires rem < 8
    ensures Packed(x, b, rem) == Packed(y, c, rem) <==> x == y && b / Pow(2, 8 - rem) == c / Pow(2, 8 - rem)
  {
    TopOfByte(b, rem);
    TopOfByte(c, rem);
    PackedIs(x, b, rem);
    PackedIs(y, c, rem);
    hide Pow, Packed;
    var t, h := Pow(2, rem), Pow(2, 8 - rem);
    DivPositive(b, h);
    DivPositive(c, h);
    PairUnique(x, b / h, y, c / h, t);
  }

  lemma PackedIs(x: nat, b: Byte, rem: nat)
    requires rem < 8
    ensures Packed(x, b, rem) == x * Pow(2, rem) + b / Pow(2, 8 - rem)
  {
  }

  lemma PairUnique(x: int, b: nat, y: int, c: nat, t: nat)
    requires b < t && c < t
    ensures x * t + b == y * t + c <==> x == y && b == c
  {
    DivModUnique(x * t + b, t, x, b);
    DivModUnique(y * t + c, t, y, c);
  }

  lemma ByteCompared(b: Byte, c: Byte, rem: nat)
    requires rem < 8
    ensures b / Pow(2, 8 - rem) == c / Pow(2, 8 - rem)
       <==> rem == 0 || And(b, (0xFF * Pow(2, 8 - rem)) % 0x100) == And(c, (0xFF * Pow(2, 8 - rem)) % 0x100)
  {
    TwoPow16();
    hide And, Pow;
    if rem > 0 {
      ByteMask(rem);
      SameUnderMask(b, c, 8, 8 - rem);
    } else {
      ModSmall(b, Pow(2, 8));
      ModSmall(c, Pow(2, 8));
    }
  }

  lemma WholeAddress(ip: V6Octets, network: V6Octets, prefix: U8)
    requires prefix >= 128
    ensures Ipv6InNetwork(ip, network, prefix) <==> ip == network
    ensures SharePrefix(Os2ip(ip), Os2ip(network), 128, 128) <==> ip == network
  {
    assert Pow(2, 0) == 1;
    assert ip[..16] == ip && network[..16] == network;
    if Os2ip(ip) == Os2ip(network) {
      Os2ipInjective(ip, network);
    }
  }
}

/** Big-endian bytes to and from the multi-precision integers of src/crypto.rs. */
module BigBytes {
  import opened Arith
  import opened Bits
  import opened Octets
  import opened Limbs
  import opened BigNum

  method FromBeBytes(bytes: seq<Byte>) returns (r: BigUint)
    ensures Val(r) == Os2ip(bytes)
  {
    if bytes == [] {
      return Zero();
    }
    var limbs: seq<Limb> := [];
    var i := |bytes|;
    while i > 0
      invariant 0 <= i <= |bytes|
      invariant i > 0 ==> |bytes| - i == 4 * |limbs|
      invariant Val(limbs) == Os2ip(bytes[i..])
    {
      var start := if i >= 4 then i - 4 else 0;
      var val := LimbFromBytes(bytes[start..i]);
      ValSnoc(limbs, val);
      assert bytes[start..] == bytes[start..i] + bytes[i..];
      Os2ipConcat(bytes[start..i], bytes[i..]);
      LimbIsFourBytes(|limbs|);
      limbs := limbs + [val];
      i := start;
    }
    assert bytes[0..] == bytes;
    r := Normalize(limbs);
  }

  lemma LimbIsFourBytes(n: nat)
    ensures Pow(256, 4 * n) == Pow(BASE, n)
  {
    assert Pow(256, 1) == 256 && Pow(256, 2) == 65536 && Pow(256, 3) == 16777216 && Pow(256, 4) == BASE;
    PowMul(256, 4, n);
  }

  lemma SmallPowers()
    ensures Pow(256, 3) == 0x100_0000 && Pow(2, 8) == 256
  {
    assert Pow(256, 1) == 256 && Pow(256, 2) == 65536;
    TwoPow16();
  }

  /** Up to four bytes shifted into one limb. */
  method LimbFromBytes(bytes: seq<Byte>) returns (val: Limb)
    requires |bytes| <= 4
    ensures val == Os2ip(bytes)
  {
    val := 0;
    for j := 0 to |bytes|
      invariant val == Os2ip(bytes[..j])
    {
      hide Or, Os2ip, Pow;
      Os2ipBound(bytes[..j]);
      PowMono(256, j, 3);
      SmallPowers();
      MultipleMod(val, 256);
      OrDisjoint(val * 256, bytes[j], 8);
      assert bytes[..j + 1] == bytes[..j] + [bytes[j]];
      Os2ipSnoc(bytes[..j], bytes[j]);
      val := Or((val * 256) % BASE, bytes[j]);
    }
    assert bytes[..|bytes|] == bytes;
  }

  /** The four bytes of a limb, most significant first. */
  function LimbBytes(l: Limb): (s: seq<Byte>)
    ensures |s| == 4 && Os2ip(s) == l
  {
    var l1 := l / 0x100;
    var l2 := l1 / 0x100;
    var s: seq<Byte> := [l2 / 0x100, l2 % 0x100, l1 % 0x100, l % 0x100];
    FourBytes(s[0], s[1], s[2], s[3]);
    s
  }

  lemma FourBytes(a: Byte, b: Byte, c: Byte, d: Byte)
    ensures Os2ip([a]) == a
    ensures Os2ip([a, b]) == 0x100 * a + b
    ensures Os2ip([a, b, c]) == 0x1_0000 * a + 0x100 * b + c
    ensures Os2ip([a, b, c, d]) == 0x100_0000 * a + 0x1_0000 * b + 0x100 * c + d
  {
    Os2ipSnoc([], a);
    Os2ipSnoc([a], b);
    Os2ipSnoc([a, b], c);
    Os2ipSnoc([a, b, c], d);
    assert [] + [a] == [a] && [a] + [b] == [a, b] && [a, b] + [c] == [a, b, c];
    assert [a, b, c] + [d] == [a, b, c, d];
  }

  /** Minimal bytes of the top limb. */
  function TopBytes(l: Limb): (s: seq<Byte>)
    ensures s != [] && Os2ip(s) == l
    ensures l > 0 ==> s[0] != 0
  {
    if l > 0x00ff_ffff then LimbBytes(l)
    else if l > 0x0000_ffff then
      var l1 := l / 0x100;
      FourBytes(l1 / 0x100, l1 % 0x100, l % 0x100, 0);
      [l1 / 0x100, l1 % 0x100, l % 0x100]
    else if l > 0x0000_00ff then
      FourBytes(l / 0x100, l % 0x100, 0, 0);
      [l / 0x100, l % 0x100]
    else
      FourBytes(l, 0, 0, 0);
      [l]
  }

  /** Big-endian bytes without a leading zero, [0] for zero. */
  method ToBeBytes(a: BigUint) returns (out: seq<Byte>)
    ensures Os2ip(out) == Val(a)
    ensures out != [] && (Val(a) > 0 ==> out[0] != 0)
    ensures Val(a) == 0 ==> out == [0]
  {
    if IsZero(a) {
      FourBytes(0, 0, 0, 0);
      return [0];
    }
    TopLimb(a);
    var k := |a| - 1;
    out := TopBytes(a[k]);
    ValHead(a, k);
    while k > 0
      invariant 0 <= k < |a|
      invariant out != [] && out[0] != 0
      invariant Os2ip(out) == Val(a[k..])
      decreases k
    {
      k := k - 1;
      ValHead(a, k);
      AppendLimb(out, a[k]);
      out := out + LimbBytes(a[k]);
    }
    assert a[0..] == a;
  }

  lemma AppendLimb(s: seq<Byte>, l: Limb)
    ensures Os2ip(s + LimbBytes(l)) == l + BASE * Os2ip(s)
  {
    Os2ipConcat(s, LimbBytes(l));
    LimbIsFourBytes(1);
    PowOne(BASE);
  }

  /** Exactly `width` bytes; a longer number loses its leading bytes. */
  method ToBeBytesPadded(a: BigUint, width: nat) returns (out: seq<Byte>)
    ensures out == I2osp(Val(a), width)
  {
    Os2ipOfI2osp(Val(a), width);
    var raw := ToBeBytes(a);
    while |raw| > width && raw[0] == 0
      invariant Os2ip(raw) == Val(a)
      decreases |raw|
    {
      Os2ipPad(1, raw[1..]);
      assert ZeroBytes(1) + raw[1..] == raw;
      raw := raw[1..];
    }
    if |raw| > width {
      Os2ipSuffix(raw, |raw| - width);
      Os2ipInjective(raw[|raw| - width..], I2osp(Val(a), width));
      return raw[|raw| - width..];
    }
    Os2ipBound(raw);
    PowMono(256, |raw|, width);
    ModSmall(Val(a), Pow(256, width));
    Os2ipPad(width - |raw|, raw);
    out := ZeroBytes(width - |raw|) + raw;
    Os2ipInjective(out, I2osp(Val(a), width));
  }

  /** The minimal encoding is determined by the value. */
  lemma MinimalBytesUnique(s: seq<Byte>, t: seq<Byte>)
    requires s != [] && t != [] && Os2ip(s) == Os2ip(t)
    requires |s| > 1 ==> s[0] != 0
    requires |t| > 1 ==> t[0] != 0
    ensures s == t
  {
    if |s| < |t| {
      MinimalLonger(s, t);
    } else if |t| < |s| {
      MinimalLonger(t, s);
    }
    Os2ipInjective(s, t);
  }

  lemma MinimalLonger(s: seq<Byte>, t: seq<Byte>)
    requires |s| < |t| && t[0] != 0
    ensures Os2ip(s) < Os2ip(t)
  {
    Os2ipBound(s);
    Os2ipLower(t);
    PowMono(256, |s|, |t| - 1);
  }
}

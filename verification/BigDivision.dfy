/** Shifts, bit setting and division of the multi-precision integers of src/crypto.rs. */
module BigDivision {
  import opened Arith
  import opened Bits
  import opened Limbs
  import opened BigNum

  method Shl(a: BigUint, bits: nat) returns (r: BigUint)
    ensures Val(r) == Val(a) * Pow(2, bits)
  {
    if bits == 0 || IsZero(a) {
      return a;
    }
    var limbShift, bitShift := bits / 32, bits % 32;
    LimbWeight(limbShift, bitShift);
    assert bits == 32 * limbShift + bitShift;
    var limbs: seq<Limb> := Zeros(limbShift);
    if bitShift == 0 {
      ValZerosThen(limbShift, a);
      limbs := limbs + a;
    } else {
      LowZeros(limbs, limbShift);
      limbs := PushShifted(a, bitShift, limbs);
    }
    r := Normalize(limbs);
  }

  /** Appends the limbs of a, moved up by less than a limb, above the zero limbs. */
  method PushShifted(a: BigUint, bitShift: nat, zeros: seq<Limb>) returns (limbs: seq<Limb>)
    requires 0 < bitShift < 32 && Val(zeros) == 0
    ensures Val(limbs) == Val(a) * (Pow(2, bitShift) * Pow(BASE, |zeros|))
  {
    limbs := zeros;
    var carry: Limb := 0;
    for i := 0 to |a|
      invariant |limbs| == |zeros| + i && carry < Pow(2, bitShift)
      invariant Val(limbs) + carry * Pow(BASE, |zeros| + i)
             == Low(a, i) * (Pow(2, bitShift) * Pow(BASE, |zeros|))
    {
      ShiftedLimb(a[i], bitShift, carry);
      var l: Limb := Or((a[i] * Pow(2, bitShift)) % BASE, carry);
      var c: Limb := a[i] / Pow(2, 32 - bitShift);
      ValSnoc(limbs, l);
      PowAdd(BASE, |zeros|, i);
      ShlStep(a[i], Pow(2, bitShift), carry, l, c, Pow(BASE, |zeros|), Pow(BASE, i), Low(a, i));
      limbs := limbs + [l];
      carry := c;
    }
    if carry > 0 {
      ValSnoc(limbs, carry);
      limbs := limbs + [carry];
    }
  }

  /** The limb pushed and the carry kept add up to the shifted limb plus the carry taken in. */
  lemma ShiftedLimb(l: Limb, s: nat, carry: Limb)
    requires 0 < s < 32 && carry < Pow(2, s)
    ensures 0 <= Or((l * Pow(2, s)) % BASE, carry) < BASE
    ensures 0 <= l / Pow(2, 32 - s) < Pow(2, s) <= BASE
    ensures Or((l * Pow(2, s)) % BASE, carry) + (l / Pow(2, 32 - s)) * BASE == l * Pow(2, s) + carry
  {
    var c, m := Pow(2, s), Pow(2, 32 - s);
    TwoPow32();
    PowAdd(2, s, 32 - s);
    DivCancel(l, c, m);
    DivMod(l * c, BASE);
    MultipleMod(l % m, c);
    OrDisjoint((l * c) % BASE, carry, s);
    MulLe(l % m + 1, m, c);
    assert (l % m + 1) * c == c * (l % m) + c;
    PowMono(2, s, 32);
    QuotientBelow(l, m, c);
  }

  lemma ShlStep(x: int, p: int, carry: int, l: int, c: int, ws: int, wi: int, low: int)
    requires l + c * BASE == x * p + carry
    ensures l * (ws * wi) + c * (BASE * (ws * wi)) - carry * (ws * wi)
            == (low + x * wi) * (p * ws) - low * (p * ws)
  {
    var w := ws * wi;
    assert l * w + c * (BASE * w) == (l + c * BASE) * w;
    assert (x * p + carry) * w == (x * p) * w + carry * w;
    assert (x * p) * w == (x * wi) * (p * ws);
    assert (low + x * wi) * (p * ws) == low * (p * ws) + (x * wi) * (p * ws);
  }

  method Shr1(a: BigUint) returns (r: BigUint)
    ensures Val(r) == Val(a) / 2
  {
    var limbs: seq<Limb> := a;
    var carry: Limb := 0;
    var i := |a|;
    while i > 0
      invariant 0 <= i <= |a| == |limbs|
      invariant limbs[..i] == a[..i]
      invariant carry == Val(a[i..]) % 2
      invariant Val(limbs[i..]) == Val(a[i..]) / 2
    {
      i := i - 1;
      var l := a[i];
      assert limbs[i] == a[..i + 1][i];
      ValHead(a, i);
      HalvedLimb(l, carry, Val(a[i + 1..]));
      var h: Limb := Or(l / 2, carry * 0x8000_0000);
      ghost var t := limbs[i + 1..];
      limbs := limbs[i := h];
      assert limbs[i + 1..] == t;
      ValHead(limbs, i);
      carry := l % 2;
    }
    assert a[0..] == a && limbs[0..] == limbs;
    r := Normalize(limbs);
  }

  lemma HalvedLimb(l: Limb, carry: Limb, h: nat)
    requires carry == h % 2
    ensures 0 <= Or(l / 2, carry * 0x8000_0000) < BASE
    ensures Or(l / 2, carry * 0x8000_0000) + BASE * (h / 2) == (l + BASE * h) / 2
    ensures (l + BASE * h) % 2 == l % 2
  {
    TwoPow32();
    OrCommutes(l / 2, carry * 0x8000_0000);
    MultipleMod(carry, 0x8000_0000);
    OrDisjoint(carry * 0x8000_0000, l / 2, 31);
  }

  /** Sets one bit, growing the number when the bit lies past its end. */
  method SetBit(a: BigUint, bit: nat) returns (r: BigUint)
    ensures Val(r) == Val(a) + if Bit(Val(a), bit) then 0 else Pow(2, bit)
  {
    var limb, b := bit / 32, bit % 32;
    var limbs: seq<Limb> := Resized(a, limb + 1);
    BitFits(limbs[limb], b);
    OrBit(limbs[limb], b);
    var l: Limb := Or(limbs[limb], Pow(2, b));
    SetBitValue(limbs, limb, b, l);
    r := limbs[limb := l];
  }

  lemma SetBitValue(s: seq<Limb>, limb: nat, b: nat, l: Limb)
    requires limb < |s| && b < 32 && l == s[limb] + if Bit(s[limb], b) then 0 else Pow(2, b)
    ensures Val(s[limb := l]) == Val(s) + if Bit(Val(s), 32 * limb + b) then 0 else Pow(2, 32 * limb + b)
  {
    LimbBit(s, limb, b);
    LowUpdate(s, limb, l, |s|);
    LimbWeight(limb, b);
    if Bit(s[limb], b) {
      assert (l - s[limb]) * Pow(BASE, limb) == 0;
    }
  }

  /** At least n limbs, zero-filled. */
  function Resized(a: BigUint, n: nat): (s: seq<Limb>)
    requires n > 0
    ensures |s| == (if |a| < n then n else |a|) && Val(s) == Val(a)
    ensures |s| > n ==> s[|s| - 1] != 0
  {
    if |a| < n then
      var s := a + Zeros(n - |a|);
      LowSame(a, s, n);
      LowPad(a, n);
      s
    else a
  }

  lemma BitFits(l: Limb, b: nat)
    requires b < 32
    ensures 0 < Or(l, Pow(2, b)) < BASE
  {
    TwoPow32();
    PowStrict(2, b, 32);
    OrBound(l, Pow(2, b), 32);
  }

  method DivRemU32(a: BigUint, d: Limb) returns (q: BigUint, r: BigUint)
    requires d != 0
    ensures Val(a) == Val(q) * d + Val(r) && Val(r) < d
  {
    var quot: seq<Limb> := Zeros(|a|);
    var rem: Word := 0;
    var i := |a|;
    while i > 0
      invariant 0 <= i <= |a| == |quot|
      invariant 0 <= rem < d
      invariant Val(a[i..]) == Val(quot[i..]) * d + rem
    {
      i := i - 1;
      CurrentWord(rem, a[i]);
      var cur: Word := Or(rem * BASE, a[i]);
      QuotientBelow(cur, d, BASE);
      ValHead(a, i);
      ghost var t := quot[i + 1..];
      quot := quot[i := cur / d];
      assert quot[i + 1..] == t;
      ValHead(quot, i);
      DivStep(cur, d, rem, a[i], Val(t), Val(a[i + 1..]));
      rem := cur % d;
    }
    assert a[0..] == a && quot[0..] == quot;
    q := Normalize(quot);
    r := FromU32(rem);
  }

  lemma CurrentWord(rem: nat, l: Limb)
    requires rem < BASE
    ensures Or(rem * BASE, l) == rem * BASE + l < 0x1_0000_0000_0000_0000
  {
    TwoPow32();
    MultipleMod(rem, BASE);
    OrDisjoint(rem * BASE, l, 32);
  }

  lemma DivStep(cur: nat, d: int, rem: int, l: int, qh: int, ah: int)
    requires d > 0 && ah == qh * d + rem && cur == rem * BASE + l
    ensures l + BASE * ah == (cur / d + BASE * qh) * d + cur % d
  {
    DivMod(cur, d);
    assert (cur / d + BASE * qh) * d == (cur / d) * d + BASE * (qh * d);
  }

  /** Quotient and remainder, by the single-limb path or by shift and subtract. */
  method DivRem(a: BigUint, d: BigUint) returns (q: BigUint, r: BigUint)
    requires !IsZero(d)
    ensures Val(q) == Val(a) / Val(d) && Val(r) == Val(a) % Val(d)
  {
    var c := Cmp(a, d);
    if c == Less {
      ModSmall(Val(a), Val(d));
      return Zero(), a;
    }
    if |d| == 1 {
      assert d == FromU32(d[0]);
      q, r := DivRemU32(a, d[0]);
    } else {
      q, r := ShiftSubtract(a, d);
    }
    DivModUnique(Val(a), Val(d), Val(q), Val(r));
  }

  method ShiftSubtract(a: BigUint, divisor: BigUint) returns (q: BigUint, r: BigUint)
    requires Val(a) >= Val(divisor) > 0
    ensures Val(a) == Val(q) * Val(divisor) + Val(r) && Val(r) < Val(divisor)
  {
    var shift := if BitLength(a) >= BitLength(divisor) then BitLength(a) - BitLength(divisor) else 0;
    InitialState(a, divisor, shift);
    var d := Shl(divisor, shift);
    q, r := LongDivide(a, d, shift, Val(divisor));
    FinalState(Val(a), Val(divisor), Val(q), Val(r));
  }

  lemma FinalState(a: nat, dv: nat, q: nat, r: nat)
    requires DivisionState(a, dv, q, r, 0)
    ensures a == q * dv + r && r < dv
  {
    assert dv * Pow(2, 0) == dv;
  }

  method LongDivide(a: BigUint, shifted: BigUint, shift: nat, ghost dv: nat) returns (q: BigUint, r: BigUint)
    requires Val(shifted) == dv * Pow(2, shift)
    requires DivisionState(Val(a), dv, 0, Val(a), shift + 1)
    ensures DivisionState(Val(a), dv, Val(q), Val(r), 0)
  {
    var rem, quot, d := a, Zero(), shifted;
    var s := shift + 1;
    while s > 0
      invariant 0 <= s <= shift + 1
      invariant s > 0 ==> Val(d) == dv * Pow(2, s - 1)
      invariant DivisionState(Val(a), dv, Val(quot), Val(rem), s)
    {
      s := s - 1;
      rem, quot := SubtractStep(rem, quot, d, s, Val(a), dv);
      HalfShift(dv, s);
      d := Shr1(d);
    }
    q := Normalize(quot);
    r := Normalize(rem);
  }

  /** With s bits to go: the identity holds, rem < dv * 2^s and the low s quotient bits are clear. */
  ghost predicate DivisionState(a: nat, dv: nat, quot: nat, rem: nat, s: nat) {
    a == quot * dv + rem && rem < dv * Pow(2, s) && quot % Pow(2, s) == 0
  }

  method SubtractStep(rem: BigUint, quot: BigUint, d: BigUint, s: nat, ghost a: nat, ghost dv: nat)
    returns (rem': BigUint, quot': BigUint)
    requires Val(d) == dv * Pow(2, s)
    requires DivisionState(a, dv, Val(quot), Val(rem), s + 1)
    ensures DivisionState(a, dv, Val(quot'), Val(rem'), s)
  {
    rem', quot' := rem, quot;
    var c := Cmp(rem, d);
    ClearBit(Val(quot), s);
    QuotientStep(Val(quot), dv, Pow(2, s));
    if c != Less {
      var diff := Sub(rem, d);
      rem' := diff.value;
      quot' := SetBit(quot, s);
    }
  }

  lemma InitialState(a: BigUint, d: BigUint, shift: nat)
    requires Val(a) >= Val(d) > 0
    requires shift == if BitLength(a) >= BitLength(d) then BitLength(a) - BitLength(d) else 0
    ensures DivisionState(Val(a), Val(d), 0, Val(a), shift + 1)
  {
    InitialShift(Val(a), Val(d), BitLength(a), BitLength(d), shift);
    ModSmall(0, Pow(2, shift + 1));
    assert 0 * Val(d) == 0;
  }

  lemma InitialShift(a: nat, d: nat, x: nat, y: nat, shift: nat)
    requires a >= d > 0 && x > 0 && y > 0 && Pow(2, x - 1) <= a < Pow(2, x) && Pow(2, y - 1) <= d < Pow(2, y)
    requires shift == if x >= y then x - y else 0
    ensures a < d * Pow(2, shift + 1)
  {
    if x < y { PowMono(2, x, y - 1); }
    PowAdd(2, y - 1, shift + 1);
    assert x == y - 1 + (shift + 1);
    MulLe(Pow(2, y - 1), d, Pow(2, shift + 1));
  }

  /** With the low s + 1 bits clear, bit s is clear and setting it leaves the low s bits clear. */
  lemma ClearBit(v: nat, s: nat)
    requires v % Pow(2, s + 1) == 0
    ensures !Bit(v, s) && v % Pow(2, s) == 0 && (v + Pow(2, s)) % Pow(2, s) == 0
  {
    var h := Pow(2, s);
    DivMod(v, 2 * h);
    var k := v / (2 * h);
    assert v == (2 * k) * h by { assert k * (2 * h) == (2 * k) * h; }
    MultipleMod(2 * k, h);
    assert v + h == (2 * k + 1) * h;
    MultipleMod(2 * k + 1, h);
  }

  lemma QuotientStep(q: int, d: int, p: int)
    ensures (q + p) * d == q * d + d * p
    ensures d * (2 * p) == 2 * (d * p)
  {
  }

  lemma HalfShift(d: int, s: nat)
    ensures s > 0 ==> (d * Pow(2, s)) / 2 == d * Pow(2, s - 1)
  {
    if s > 0 {
      assert d * Pow(2, s) == (d * Pow(2, s - 1)) * 2;
    }
  }

  method Rem(a: BigUint, m: BigUint) returns (r: BigUint)
    requires !IsZero(m)
    ensures Val(r) == Val(a) % Val(m)
  {
    var q;
    q, r := DivRem(a, m);
  }
}

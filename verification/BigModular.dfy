/** Modular exponentiation, inverse and gcd over the multi-precision integers of src/crypto.rs. */
module BigModular {
  import opened Results
  import opened Arith
  import opened Bits
  import opened NumberTheory
  import opened Limbs
  import opened BigNum
  import opened BigDivision

  /** Square and multiply, least significant exponent bit first; 0 for a zero modulus. */
  method ModPow(a: BigUint, exp: BigUint, m: BigUint) returns (r: BigUint)
    ensures Val(r) == if Val(m) == 0 then 0 else Pow(Val(a), Val(exp)) % Val(m)
  {
    if IsZero(m) {
      return Zero();
    }
    if |m| == 1 && m[0] == 1 {
      assert m == FromU32(1);
      return Zero();
    }
    OneNormal(m);
    var base := Rem(a, m);
    PowModBase(Val(a), Val(exp), Val(m));
    r := SquareAndMultiply(base, exp, m);
  }

  method SquareAndMultiply(start: BigUint, exp: BigUint, m: BigUint) returns (result: BigUint)
    requires Val(m) > 1
    ensures Val(result) == Pow(Val(start), Val(exp)) % Val(m)
  {
    ghost var n := Val(m);
    result := FromU32(1);
    var base := start;
    var bits := BitLength(exp);
    ghost var rest := Val(exp);
    assert Val(exp) / Pow(2, 0) == Val(exp);
    for i := 0 to bits
      invariant Val(result) < n
      invariant rest == Val(exp) / Pow(2, i)
      invariant (Val(result) * Pow(Val(base), rest)) % n == Pow(Val(start), Val(exp)) % n
    {
      HalveExponent(Val(exp), i);
      SquareStep(Val(result), Val(base), rest, n);
      if GetBit(exp, i) {
        var p := Mul(result, base);
        result := Rem(p, m);
      }
      var s := Mul(base, base);
      base := Rem(s, m);
      rest := rest / 2;
    }
    ModSmall(Val(exp), Pow(2, bits));
    ModSmall(Val(result), n);
  }

  lemma HalveExponent(e: nat, i: nat)
    ensures e / Pow(2, i + 1) == (e / Pow(2, i)) / 2
    ensures Bit(e, i) <==> (e / Pow(2, i)) % 2 == 1
  {
    DivDiv(e, Pow(2, i), 2);
  }

  lemma OneNormal(m: BigUint)
    requires !(|m| == 1 && m[0] == 1)
    ensures Val(m) != 1
  {
    if Val(m) == 1 { NormalUnique(m, FromU32(1)); }
  }

  /** One exponent bit: y * b^k is kept while k is halved. */
  lemma SquareStep(y: nat, b: nat, k: nat, n: int)
    requires n > 0
    ensures var y' := if k % 2 == 1 then (y * b) % n else y;
            (y' * Pow((b * b) % n, k / 2)) % n == (y * Pow(b, k)) % n
  {
    var h := k / 2;
    PowModBase(b * b, h, n);
    PowBaseMul(b, b, h);
    PowAdd(b, h, h);
    if k % 2 == 1 {
      assert Pow(b, k) == b * Pow(b, h + h);
      ModMod(y * b, n);
      CongMul((y * b) % n, y * b, Pow((b * b) % n, h), Pow(b * b, h), n);
      MulAssoc(y, b, Pow(b, h + h));
    } else {
      assert h + h == k;
      CongMul(y, y, Pow((b * b) % n, h), Pow(b * b, h), n);
    }
  }

  /** The integer a sign flag and a magnitude stand for. */
  function Signed(a: int, neg: bool): int {
    if neg then -a else a
  }

  method SignedSub(a: BigUint, aNeg: bool, b: BigUint, bNeg: bool) returns (r: BigUint, neg: bool)
    ensures Signed(Val(r), neg) == Signed(Val(a), aNeg) - Signed(Val(b), bNeg)
  {
    if !aNeg && !bNeg {
      var c := Cmp(a, b);
      if c != Less {
        var s := Sub(a, b);
        return s.value, false;
      }
      var s := Sub(b, a);
      return s.value, true;
    } else if aNeg && bNeg {
      var c := Cmp(b, a);
      if c != Less {
        var s := Sub(b, a);
        return s.value, false;
      }
      var s := Sub(a, b);
      return s.value, true;
    } else {
      r := Add(a, b);
      neg := aNeg;
    }
  }

  /** Inverse by the extended Euclidean algorithm, tracking one coefficient with a sign flag. */
  method ModInverse(a: BigUint, m: BigUint) returns (inv: Option<BigUint>)
    ensures inv.Some? <==> Val(m) > 1 && Gcd(Val(m), Val(a)) == 1
    ensures inv.Some? ==> 0 < Val(inv.value) < Val(m) && (Val(a) * Val(inv.value)) % Val(m) == 1
  {
    if IsZero(m) { return None; }
    ghost var n, x := Val(m), Val(a);
    var start := Rem(a, m);
    GcdOfResidue(n, x);
    if IsZero(start) { return None; }
    var oldR, r := m, start;
    var oldS, oldSNeg := Zero(), false;
    var s, sNeg := FromU32(1), false;
    ModMod(x, n);
    MultipleMod(1, n);
    ModSmall(0, n);
    while !IsZero(r)
      invariant Val(oldR) > 0 && Val(oldR) <= n
      invariant Gcd(Val(oldR), Val(r)) == Gcd(n, x)
      invariant Val(r) > 0 ==> Val(r) < n
      invariant (x * Signed(Val(oldS), oldSNeg)) % n == Val(oldR) % n
      invariant (x * Signed(Val(s), sNeg)) % n == Val(r) % n
      decreases Val(r)
    {
      var q, unused := DivRem(oldR, r);
      var qr := Mul(q, r);
      DivMod(Val(oldR), Val(r));
      var newR := Sub(oldR, qr);
      var qs := Mul(q, s);
      QuotientSign(Val(q), Val(s), sNeg);
      CoefficientStep(x, n, Signed(Val(oldS), oldSNeg), Signed(Val(s), sNeg), Val(oldR), Val(r), Val(q));
      var ns, nsNeg := SignedSub(oldS, oldSNeg, qs, sNeg);
      oldR, r := r, newR.value;
      oldS, oldSNeg := s, sNeg;
      s, sNeg := ns, nsNeg;
    }
    if !(|oldR| == 1 && oldR[0] == 1) {
      OneNormal(oldR);
      return None;
    }
    assert oldR == FromU32(1);
    ModSmall(1, n);
    ModMod(Signed(Val(oldS), oldSNeg), n);
    var reduced := Rem(oldS, m);
    InverseResidue(x, n, Val(oldS), oldSNeg);
    if oldSNeg {
      inv := Sub(m, reduced);
    } else {
      inv := Some(reduced);
    }
  }

  lemma GcdOfResidue(n: nat, x: nat)
    requires n > 0
    ensures Gcd(n, x % n) == Gcd(n, x)
    ensures x % n == 0 ==> Gcd(n, x) == n
  {
    GcdSymmetric(n, x);
    GcdSymmetric(n, x % n);
    if x < n {
      ModSmall(x, n);
    }
    assert Gcd(x, n) == Gcd(n, x % n);
  }

  lemma QuotientSign(q: int, s: int, neg: bool)
    requires q >= 0 && s >= 0
    ensures q * s >= 0
    ensures Signed(q * s, neg) == q * Signed(s, neg)
  {
    MulSign(q, s);
    assert q * (-s) == -(q * s);
  }

  lemma CoefficientStep(x: nat, n: nat, s0: int, s1: int, r0: nat, r1: nat, q: nat)
    requires n > 0 && r1 > 0 && q == r0 / r1
    requires (x * s0) % n == r0 % n && (x * s1) % n == r1 % n
    ensures (x * (s0 - q * s1)) % n == (r0 - q * r1) % n
    ensures r0 - q * r1 == r0 % r1
  {
    DivMod(r0, r1);
    CongMul(q, q, x * s1, r1, n);
    CongDiff(x * s0, r0, n);
    CongDiff(q * (x * s1), q * r1, n);
    DividesAdd(n, x * s0 - r0, q * (x * s1) - q * r1);
    var lhs, rhs := x * (s0 - q * s1), r0 - q * r1;
    assert x * (s0 - q * s1) == x * s0 - q * (x * s1);
    CongDiff(lhs, rhs, n);
  }

  /** The reduced coefficient is a nonzero inverse, also after flipping its sign. */
  lemma InverseResidue(x: int, n: int, s: int, neg: bool)
    requires x >= 0 && n > 1 && s >= 0 && (x * Signed(s, neg)) % n == 1
    ensures 0 < s % n < n
    ensures !neg ==> (x * (s % n)) % n == 1
    ensures neg ==> (x * (n - s % n)) % n == 1
  {
    MulMod(x, s, n);
    if neg { NegatedInverse(x, n, s); }
    if s % n == 0 {
      assert x * (s % n) == 0;
      ModSmall(0, n);
      if neg { assert n - s % n == n; MultipleMod(x, n); }
      assert false;
    }
  }

  lemma NegatedInverse(x: int, n: int, s: int)
    requires x >= 0 && n > 1 && s >= 0
    ensures (x * (n - s % n)) % n == (x * Signed(s, true)) % n
  {
    var t := n - s % n;
    DivMod(s, n);
    assert t == -s + (s / n + 1) * n by { assert (s / n + 1) * n == (s / n) * n + n; }
    ModMultiple(-s, s / n + 1, n);
    CongMul(x, x, t, -s, n);
  }

  /** Euclid's algorithm on the multi-precision integers. */
  method BigGcd(x: BigUint, y: BigUint) returns (g: BigUint)
    ensures Val(g) == Gcd(Val(x), Val(y))
    ensures Val(x) > 0 || Val(y) > 0 ==> Divides(Val(g), Val(x)) && Divides(Val(g), Val(y))
    ensures forall d: int :: d > 0 && Divides(d, Val(x)) && Divides(d, Val(y)) ==> Divides(d, Val(g))
  {
    var a, b := x, y;
    while !IsZero(b)
      invariant Gcd(Val(a), Val(b)) == Gcd(Val(x), Val(y))
      decreases Val(b)
    {
      var r := Rem(a, b);
      a, b := b, r;
    }
    g := a;
    hide Gcd, Divides, Val;
    if Val(x) > 0 || Val(y) > 0 { GcdDivides(Val(x), Val(y)); }
    forall d: int | d > 0 && Divides(d, Val(x)) && Divides(d, Val(y)) ensures Divides(d, Val(g)) {
      GcdGreatest(Val(x), Val(y), d);
    }
  }
}

/** Recovering the primes and CRT values of an RSA key from n, e and d. */
module PrimeRecovery {
  import opened Results
  import opened Arith
  import opened NumberTheory
  import opened Limbs
  import opened BigNum
  import opened BigDivision
  import opened BigModular
  import opened Primality
  import opened Rsa

  /** ZeroDivisor stands for the panic of `rem`. */
  datatype RecoverError = EdUnderflow | EdOdd | EmptyModulus | FactorUnderflow | ZeroDivisor | NotInvertible | NoWitness

  /** The CRT record belongs to n and d. */
  ghost predicate CrtFor(c: Crt, n: nat, d: nat) {
    var p, q := Val(c.p), Val(c.q);
    p > q > 1 && p * q == n
    && Val(c.dP) == d % (p - 1) && Val(c.dQ) == d % (q - 1)
    && 0 < Val(c.qInv) < p && (q * Val(c.qInv)) % p == 1
  }

  /** Orders the primes and computes dP, dQ and qInv. */
  method CrtFromPrimes(a: BigUint, b: BigUint, d: BigUint) returns (r: Result<Crt, RecoverError>)
    ensures r.Ok? <==> Val(a) > 1 && Val(b) > 1 && Gcd(Val(a), Val(b)) == 1
    ensures r.Ok? ==> CrtFor(r.value, Val(a) * Val(b), Val(d))
    ensures r.Ok? ==> r.value.p == (if Val(a) < Val(b) then b else a)
    ensures r.Err? ==> r == Err(if Val(a) == 0 || Val(b) == 0 then FactorUnderflow
                                else if Val(a) == 1 || Val(b) == 1 then ZeroDivisor
                                else NotInvertible)
  {
    var c := Cmp(a, b);
    var p, q := a, b;
    if c == Less { p, q := b, a; }
    MulComm(Val(a), Val(b));
    GcdSymmetric(Val(a), Val(b));
    var one := FromU32(1);
    var p1 := Sub(p, one);
    if p1 == None { return Err(FactorUnderflow); }
    var q1 := Sub(q, one);
    if q1 == None { return Err(FactorUnderflow); }
    if IsZero(p1.value) || IsZero(q1.value) { return Err(ZeroDivisor); }
    var dP := Rem(d, p1.value);
    var dQ := Rem(d, q1.value);
    var inv := ModInverse(q, p);
    if inv == None { return Err(NotInvertible); }
    if Val(p) == Val(q) { GcdSelf(Val(p)); }
    r := Ok(Crt(p, q, dP, dQ, inv.value));
  }

  lemma GcdSelf(p: nat)
    requires p > 0
    ensures Gcd(p, p) == p
  {
    MultipleMod(1, p);
    assert Gcd(p, p) == Gcd(p, 0);
  }

  /** c is a square root of 1 modulo n other than 1 and -1. */
  ghost predicate NontrivialRoot(n: nat, c: nat) {
    1 < n && c < n && c != 1 && c != n - 1 && (c * c) % n == 1
  }

  lemma DifferenceOfSquares(c: int)
    ensures (c - 1) * (c + 1) == c * c - 1
  {
  }

  /** Such a root splits n: gcd(c - 1, n) is a proper factor. */
  lemma RootSplits(n: nat, c: nat)
    requires NontrivialRoot(n, c)
    ensures c > 1
    ensures var g := Gcd(c - 1, n); 1 < g < n && Divides(g, n) && g * (n / g) == n && n / g > 1
  {
    ModSmall(0, n);
    assert 0 * 0 == 0;
    hide Gcd;
    var g := Gcd(c - 1, n);
    GcdDivides(c - 1, n);
    DividesLe(g, c - 1);
    if g == 1 {
      GcdSymmetric(c - 1, n);
      ModSmall(1, n);
      CongDiff(c * c, 1, n);
      DifferenceOfSquares(c);
      CoprimeDivides(n, c - 1, c + 1);
      DividesLe(n, c + 1);
      assert false;
    }
    DivMod(n, g);
    MulComm(n / g, g);
    if n / g <= 1 { MulLe(n / g, 1, g); }
  }

  /** The candidate the search looks at: a^(t * 2^j) modulo n, for t * 2^s = e * d - 1. */
  ghost predicate Witness(n: nat, ed: nat, a: nat, j: nat)
    requires n > 0 && ed > 0
  {
    j < Twos(ed - 1) && NontrivialRoot(n, Squared(n, OddPart(ed - 1), a, j))
  }

  ghost predicate SearchedBase(n: nat, a: nat) {
    2 <= a < 200 && a % 2 == 0 && a < n
  }

  ghost predicate BaseWitness(n: nat, ed: nat, a: nat)
    requires n > 0 && ed > 0
  {
    exists j: nat :: Witness(n, ed, a, j)
  }

  /** Some searched base below the bound has a witness. */
  ghost predicate WitnessBelow(n: nat, ed: nat, bound: nat)
    requires n > 0 && ed > 0
  {
    exists a: nat :: a < bound && SearchedBase(n, a) && BaseWitness(n, ed, a)
  }

  /** n is a product of two numbers greater than 1 with a common factor. */
  ghost predicate SplitsBadly(n: nat) {
    exists p: nat, q: nat :: p > 1 && q > 1 && p * q == n && Gcd(p, q) != 1
  }

  /** The outcome of a search that found something, or nothing. */
  ghost predicate SearchResult(r: Result<Crt, RecoverError>, n: nat, d: nat, found: bool) {
    && (r.Ok? ==> CrtFor(r.value, n, d))
    && (r == Err(NoWitness) <==> !found)
    && (r.Ok? || r == Err(NoWitness) || (r == Err(NotInvertible) && SplitsBadly(n)))
  }

  /** Every outcome of the recovery, by the values of n and ed = e * d. */
  ghost predicate RecoveryResult(r: Result<Crt, RecoverError>, n: nat, ed: int, d: nat) {
    if ed <= 0 then r == Err(EdUnderflow)
    else if ed == 1 || ed % 2 == 0 then r == Err(EdOdd)
    else if n == 0 then r == Err(EmptyModulus)
    else SearchResult(r, n, d, WitnessBelow(n, ed, 200))
  }

  method RecoverCrt(n: BigUint, e: BigUint, d: BigUint) returns (r: Result<Crt, RecoverError>)
    ensures RecoveryResult(r, Val(n), Val(e) * Val(d), Val(d))
  {
    var ed := Mul(e, d);
    r := RecoverFrom(n, ed, d);
  }

  method RecoverFrom(n: BigUint, ed: BigUint, d: BigUint) returns (r: Result<Crt, RecoverError>)
    ensures RecoveryResult(r, Val(n), Val(ed), Val(d))
  {
    var one := FromU32(1);
    var ktot := Sub(ed, one);
    if ktot == None { return Err(EdUnderflow); }
    var t, s := TakeOutTwos(ktot.value);
    if s == 0 { return Err(EdOdd); }
    var nMinus := Sub(n, one);
    if nMinus == None { return Err(EmptyModulus); }
    r := SearchBases(n, ed, d, ktot.value, t, nMinus.value);
  }

  /** The loop over the even bases 2, 4, ..., 198, stopping early at n. */
  method SearchBases(n: BigUint, ed: BigUint, d: BigUint, ktot: BigUint, t: BigUint, nMinus: BigUint)
    returns (r: Result<Crt, RecoverError>)
    requires Val(n) > 0 && Val(nMinus) == Val(n) - 1
    requires Val(ed) > 1 && Val(ktot) == Val(ed) - 1 && Twos(Val(ktot)) > 0 && Val(t) == OddPart(Val(ktot))
    ensures SearchResult(r, Val(n), Val(d), WitnessBelow(Val(n), Val(ed), 200))
  {
    hide WitnessBelow, BaseWitness, CrtFor, SplitsBadly, Twos, OddPart, Val;
    var a := 2;
    NoBaseBelowTwo(Val(n), Val(ed));
    while a < 200
      invariant 2 <= a <= 200 && a % 2 == 0
      invariant !WitnessBelow(Val(n), Val(ed), a)
    {
      var big := FromU32(a);
      var c := Cmp(big, n);
      if c != Less {
        NoSearchFromN(Val(n), Val(ed), a);
        return Err(NoWitness);
      }
      r := TryBase(n, ed, d, ktot, t, nMinus, big);
      if r != Err(NoWitness) {
        FoundAt(Val(n), Val(ed), a);
        return;
      }
      NextBase(Val(n), Val(ed), a);
      a := a + 2;
    }
    r := Err(NoWitness);
  }

  lemma FoundAt(n: nat, ed: nat, a: nat)
    requires n > 0 && ed > 0 && SearchedBase(n, a) && BaseWitness(n, ed, a)
    ensures WitnessBelow(n, ed, 200)
  {
  }

  lemma NoBaseBelowTwo(n: nat, ed: nat)
    requires n > 0 && ed > 0
    ensures !WitnessBelow(n, ed, 2)
  {
  }

  lemma NoSearchFromN(n: nat, ed: nat, a: nat)
    requires n > 0 && ed > 0 && n <= a <= 200 && !WitnessBelow(n, ed, a)
    ensures !WitnessBelow(n, ed, 200)
  {
  }

  lemma NextBase(n: nat, ed: nat, a: nat)
    requires n > 0 && ed > 0 && a % 2 == 0 && !WitnessBelow(n, ed, a) && !BaseWitness(n, ed, a)
    ensures !WitnessBelow(n, ed, a + 2)
  {
  }

  /** One base: walks k = t, 2t, 4t, ... below e * d - 1. */
  method TryBase(n: BigUint, ed: BigUint, d: BigUint, ktot: BigUint, t: BigUint, nMinus: BigUint, a: BigUint)
    returns (r: Result<Crt, RecoverError>)
    requires 0 < Val(a) < Val(n) && Val(nMinus) == Val(n) - 1
    requires Val(ed) > 1 && Val(ktot) == Val(ed) - 1 && Twos(Val(ktot)) > 0 && Val(t) == OddPart(Val(ktot))
    ensures SearchResult(r, Val(n), Val(d), BaseWitness(Val(n), Val(ed), Val(a)))
  {
    var k := t;
    ghost var j: nat := 0;
    ExponentStart(Val(ktot));
    while true
      invariant j < Twos(Val(ktot)) && Val(k) == OddPart(Val(ktot)) * Pow(2, j)
      invariant forall i: nat :: i < j ==> !Witness(Val(n), Val(ed), Val(a), i)
      decreases Twos(Val(ktot)) - j
    {
      r := TryCandidate(n, d, nMinus, a, k);
      if r != Err(NoWitness) {
        assert Witness(Val(n), Val(ed), Val(a), j);
        return;
      }
      var k2 := Shl(k, 1);
      DoubledExponent(OddPart(Val(ktot)), j, Twos(Val(ktot)));
      var c := Cmp(k2, ktot);
      if c != Less { break; }
      k := k2;
      j := j + 1;
    }
    r := Err(NoWitness);
  }

  lemma ExponentStart(k: nat)
    ensures OddPart(k) * Pow(2, 0) == OddPart(k)
    ensures OddPart(k) * Pow(2, Twos(k)) == k
  {
    OddPartTimesTwos(k);
  }

  lemma DoubledExponent(t: nat, j: nat, s: nat)
    requires t > 0 && j < s
    ensures (t * Pow(2, j)) * Pow(2, 1) == t * Pow(2, j + 1)
    ensures t * Pow(2, j + 1) < t * Pow(2, s) <==> j + 1 < s
  {
    MulAssoc(t, Pow(2, j), Pow(2, 1));
    PowAdd(2, j, 1);
    if j + 1 < s {
      PowStrict(2, j + 1, s);
      MulLt(Pow(2, j + 1), Pow(2, s), t);
      MulComm(t, Pow(2, j + 1));
      MulComm(t, Pow(2, s));
    }
  }

  /** One candidate c = a^k mod n: a nontrivial root of 1 yields the factors. */
  method TryCandidate(n: BigUint, d: BigUint, nMinus: BigUint, a: BigUint, k: BigUint)
    returns (r: Result<Crt, RecoverError>)
    requires Val(n) > 1 && Val(nMinus) == Val(n) - 1
    ensures SearchResult(r, Val(n), Val(d), NontrivialRoot(Val(n), Pow(Val(a), Val(k)) % Val(n)))
  {
    var one := FromU32(1);
    var cand := ModPow(a, k, n);
    var c1 := Cmp(cand, one);
    var c2 := Cmp(cand, nMinus);
    if c1 != Equal && c2 != Equal {
      var sq := Mul(cand, cand);
      var cand2 := Rem(sq, n);
      var c3 := Cmp(cand2, one);
      if c3 == Equal {
        RootSplits(Val(n), Val(cand));
        var candM1 := Sub(cand, one);
        var p := BigGcd(if candM1.Some? then candM1.value else Zero(), n);
        var low := Cmp(p, one);
        var high := Cmp(p, n);
        if low == Greater && high == Less {
          var q, unused := DivRem(n, p);
          var product := Mul(p, q);
          var whole := Cmp(product, n);
          if !IsZero(q) && whole == Equal {
            r := CrtFromPrimes(p, q, d);
            return;
          }
        }
      }
    }
    r := Err(NoWitness);
  }

  /** For two distinct primes the only failure left is not meeting a witness. */
  lemma OnlySplitOfTwoPrimes(p: nat, q: nat, x: nat, y: nat)
    requires IsPrime(p) && IsPrime(q) && p != q && x > 1 && y > 1 && x * y == p * q
    ensures Gcd(x, y) == 1
  {
    DistinctPrimesCoprime(p, q);
    GcdSymmetric(p, q);
    FactorsOfTwoPrimes(p, q, x, y);
  }

  lemma OtherFactor(p: nat, q: nat, x: nat, y: nat)
    requires IsPrime(p) && IsPrime(q) && x > 1 && y > 1 && x * y == p * q && Divides(p, x)
    ensures x == p && y == q
  {
    DivMod(x, p);
    var z := x / p;
    DivPositive(x, p);
    assert p * (z * y) == p * q by { MulComm(z, p); MulAssoc(p, z, y); }
    DivModUnique(p * (z * y), p, z * y, 0);
    DivModUnique(p * q, p, q, 0);
    assert z * y == q;
    MultipleMod(z, y);
    assert Divides(y, q);
    DividesLe(y, q);
    if y < q { assert false; }
    if z > 1 { MulLt(1, z, y); }
  }

  /** For a modulus of two distinct primes, recovery succeeds exactly when a witness is met. */
  lemma TwoPrimeRecovery(r: Result<Crt, RecoverError>, p: nat, q: nat, d: nat, found: bool)
    requires IsPrime(p) && IsPrime(q) && p > q && p * q > 0 && SearchResult(r, p * q, d, found)
    ensures r.Ok? <==> found
    ensures r.Ok? ==> Val(r.value.p) == p && Val(r.value.q) == q
  {
    if SplitsBadly(p * q) {
      var x: nat, y: nat :| x > 1 && y > 1 && x * y == p * q && Gcd(x, y) != 1;
      OnlySplitOfTwoPrimes(p, q, x, y);
    }
    if r.Ok? {
      var x, y := Val(r.value.p), Val(r.value.q);
      FactorsOfTwoPrimes(p, q, x, y);
    }
  }

  /** The CRT record recover_crt gives for n, e and d, if any. */
  ghost predicate Recovered(crt: Option<Crt>, n: nat, e: nat, d: nat) {
    exists r :: RecoveryResult(r, n, e * d, d) && crt == if r.Ok? then Some(r.value) else None
  }

  /** For two distinct primes: present exactly when the search meets a witness, and then the record of these primes. */
  lemma RecoveredForTwoPrimes(crt: Option<Crt>, p: nat, q: nat, e: nat, d: nat)
    requires IsPrime(p) && IsPrime(q) && p > q && p * q > 0 && Recovered(crt, p * q, e, d)
    ensures crt.Some? <==> e * d > 1 && (e * d) % 2 == 1 && WitnessBelow(p * q, e * d, 200)
    ensures crt.Some? ==> Val(crt.value.p) == p && Val(crt.value.q) == q && CrtFor(crt.value, p * q, d)
  {
    hide WitnessBelow, SplitsBadly, IsPrime, CrtFor;
    var r :| RecoveryResult(r, p * q, e * d, d) && crt == if r.Ok? then Some(r.value) else None;
    MulSign(e, d);
    if e * d > 1 && (e * d) % 2 == 1 { TwoPrimeRecovery(r, p, q, d, WitnessBelow(p * q, e * d, 200)); }
  }

  /** a^(t * 2^j) is a square root of 1 modulo n, and neither 1 nor -1. */
  ghost predicate RootAmongPowers(n: nat, a: nat, t: nat, j: nat)
    requires n > 0
  {
    MulSign(t, Pow(2, j));
    var c := Pow(a, t * Pow(2, j)) % n;
    c != 1 && c != n - 1 && c * c % n == 1
  }

  /** With e * d - 1 = t * 2^s and t odd, the primes of n = p * q are found exactly when some even a below 200 and n
      has, among the powers a^(t * 2^j) with j below s, a root of 1 modulo n other than 1 and -1. */
  lemma RecoveredExactly(crt: Option<Crt>, p: nat, q: nat, e: nat, d: nat, t: nat, s: nat)
    requires IsPrime(p) && IsPrime(q) && p > q && Recovered(crt, p * q, e, d)
    requires t % 2 == 1 && s > 0 && e * d == 1 + t * Pow(2, s)
    ensures p * q > 0
    ensures crt.Some? <==>
              exists a: nat, j: nat ::
                a % 2 == 0 && 2 <= a < 200 && a < p * q && j < s && RootAmongPowers(p * q, a, t, j)
  {
    hide IsPrime, Recovered, Pow, OddPart, Twos, RootAmongPowers, WitnessBelow;
    MulSign(p, q);
    AtLeastSix(p, q);
    PowTwoStep(s);
    OddPartUnique(e * d - 1, t, s);
    OddProduct(t, Pow(2, s - 1));
    RecoveredForTwoPrimes(crt, p, q, e, d);
    WitnessExactly(p * q, e * d, t, s);
  }

  lemma WitnessExactly(n: nat, ed: nat, t: nat, s: nat)
    requires n > 1 && ed > 0 && OddPart(ed - 1) == t && Twos(ed - 1) == s
    ensures WitnessBelow(n, ed, 200) <==>
              exists a: nat, j: nat :: a % 2 == 0 && 2 <= a < 200 && a < n && j < s && RootAmongPowers(n, a, t, j)
  {
    hide Pow, OddPart, Twos, RootAmongPowers, Witness;
    forall a: nat, j: nat ensures Witness(n, ed, a, j) <==> j < s && RootAmongPowers(n, a, t, j) {
      WitnessIsRoot(n, ed, a, t, s, j);
    }
    if WitnessBelow(n, ed, 200) {
      var a: nat :| a < 200 && SearchedBase(n, a) && BaseWitness(n, ed, a);
      var j: nat :| Witness(n, ed, a, j);
      assert j < s && RootAmongPowers(n, a, t, j);
    }
    forall a: nat, j: nat | a % 2 == 0 && 2 <= a < 200 && a < n && j < s && RootAmongPowers(n, a, t, j)
      ensures WitnessBelow(n, ed, 200)
    {
      assert Witness(n, ed, a, j);
      assert SearchedBase(n, a) && BaseWitness(n, ed, a);
    }
  }

  lemma WitnessIsRoot(n: nat, ed: nat, a: nat, t: nat, s: nat, j: nat)
    requires n > 1 && ed > 0 && OddPart(ed - 1) == t && Twos(ed - 1) == s
    ensures Witness(n, ed, a, j) <==> j < s && RootAmongPowers(n, a, t, j)
  {
    hide Pow, OddPart, Twos;
    MulSign(t, Pow(2, j));
  }

  lemma AtLeastSix(p: nat, q: nat)
    requires IsPrime(p) && IsPrime(q) && p > q
    ensures p * q > 1
  {
    MulLe(2, q, p);
  }

  lemma OddProduct(t: nat, h: nat)
    requires t > 0 && h > 0
    ensures t * (2 * h) > 0 && (1 + t * (2 * h)) % 2 == 1
  {
    MulSign(t, h);
    assert t * (2 * h) == 2 * (t * h);
    MulLe(1, t, h);
  }

  lemma FactorsOfTwoPrimes(p: nat, q: nat, x: nat, y: nat)
    requires IsPrime(p) && IsPrime(q) && x > 1 && y > 1 && x * y == p * q
    ensures (x == p && y == q) || (x == q && y == p)
  {
    MultipleMod(q, p);
    MulComm(p, q);
    EuclidLemma(p, x, y);
    if Divides(p, x) {
      OtherFactor(p, q, x, y);
    } else {
      MulComm(x, y);
      OtherFactor(p, q, y, x);
    }
  }
}

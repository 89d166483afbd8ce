/** Trial division and Miller-Rabin with fixed bases. */
module Primality {
  import opened Arith
  import opened Bits
  import opened NumberTheory
  import opened Limbs
  import opened BigNum
  import opened BigDivision
  import opened BigModular

  const SMALL: seq<Limb> :=
    [3, 5, 7, 11, 13, 17, 19, 23, 29, 31, 37, 41, 43, 47, 53, 59, 61, 67, 71, 73, 79, 83, 89, 97]

  const BASES: seq<Limb> := [2, 3, 5, 7, 11, 13, 23]

  /** m with its factors of two taken out; 0 for 0. */
  function OddPart(m: nat): (t: nat)
    ensures t == 0 <==> m == 0
    ensures m > 0 ==> t % 2 == 1
  {
    if m == 0 || m % 2 == 1 then m else OddPart(m / 2)
  }

  /** Number of factors of two in m; 0 for 0. */
  function Twos(m: nat): (s: nat)
    ensures s == 0 <==> m == 0 || m % 2 == 1
  {
    if m == 0 || m % 2 == 1 then 0 else 1 + Twos(m / 2)
  }

  lemma {:induction false} OddPartTimesTwos(m: nat)
    ensures OddPart(m) * Pow(2, Twos(m)) == m
  {
    if m == 0 || m % 2 == 1 {
    } else {
      OddPartTimesTwos(m / 2);
      var t, p := OddPart(m / 2), Pow(2, Twos(m / 2));
      MulAssoc(t, p, 2);
      assert Pow(2, Twos(m)) == 2 * p;
    }
  }

  lemma PowTwoStep(r: nat)
    ensures Pow(2, 0) == 1 && (r > 0 ==> Pow(2, r) == 2 * Pow(2, r - 1))
  {
  }

  lemma TwiceInside(d: int, p: int)
    ensures d * (2 * p) == 2 * (d * p)
  {
  }

  /** Odd part and power of two are determined by their product. */
  lemma {:induction false} OddPartUnique(m: nat, d: nat, r: nat)
    requires d % 2 == 1 && m == d * Pow(2, r)
    ensures OddPart(m) == d && Twos(m) == r
    decreases r
  {
    hide Pow;
    PowTwoStep(r);
    if r > 0 {
      MulSign(d, Pow(2, r - 1));
      var h: nat := d * Pow(2, r - 1);
      TwiceInside(d, Pow(2, r - 1));
      OddPartUnique(h, d, r - 1);
      assert m == 2 * h && h > 0;
    }
  }

  /** The `while even { halve }` loop. */
  method TakeOutTwos(m: BigUint) returns (t: BigUint, s: nat)
    ensures Val(t) == OddPart(Val(m)) && s == Twos(Val(m))
  {
    t, s := m, 0;
    while !IsZero(t) && !GetBit(t, 0)
      invariant OddPart(Val(t)) == OddPart(Val(m))
      invariant s + Twos(Val(t)) == Twos(Val(m))
      decreases Val(t)
    {
      LowestBit(Val(t));
      t := Shr1(t);
      s := s + 1;
    }
    LowestBit(Val(t));
  }

  lemma LowestBit(v: nat)
    ensures Bit(v, 0) <==> v % 2 == 1
  {
    assert Pow(2, 0) == 1;
    assert v / 1 == v;
  }

  /** a^(d * 2^i) modulo n. */
  ghost function Squared(n: nat, d: nat, a: nat, i: nat): nat
    requires n > 0
  {
    MulSign(d, Pow(2, i));
    Pow(a, d * Pow(2, i)) % n
  }

  lemma DoubleExponent(n: nat, a: nat, d: nat, p: nat)
    requires n > 0
    ensures d * p >= 0 && d * (2 * p) >= 0
    ensures Pow(a, d * (2 * p)) % n == ((Pow(a, d * p) % n) * (Pow(a, d * p) % n)) % n
  {
    MulSign(d, p);
    MulSign(d, 2 * p);
    var k := d * p;
    assert d * (2 * p) == k + k;
    PowAdd(a, k, k);
    MulMod(Pow(a, k), Pow(a, k), n);
  }

  lemma SquareAgain(n: nat, d: nat, a: nat, i: nat)
    requires n > 0
    ensures Squared(n, d, a, i + 1) == (Squared(n, d, a, i) * Squared(n, d, a, i)) % n
    ensures Squared(n, d, a, 0) == Pow(a, d) % n
  {
    assert Pow(2, 0) == 1;
    DoubleExponent(n, a, d, Pow(2, i));
  }

  /** The round's condition: a^d is 1 or -1, or one of the later squares is -1. */
  ghost predicate StrongProbablePrime(n: nat, d: nat, s: nat, a: nat)
    requires n > 0
  {
    Squared(n, d, a, 0) == 1 || exists i: nat :: (i == 0 || i < s) && Squared(n, d, a, i) == n - 1
  }

  method MillerRabinRound(n: BigUint, nMinus: BigUint, d: BigUint, s: nat, a: Limb) returns (pass: bool)
    requires Val(n) > 0 && Val(nMinus) == Val(n) - 1
    ensures pass <==> a >= Val(n) || StrongProbablePrime(Val(n), Val(d), s, a)
  {
    var base := FromU32(a);
    var c := Cmp(base, n);
    if c != Less { return true; }
    ghost var m, dv := Val(n), Val(d);
    var x := ModPow(base, d, n);
    SquareAgain(m, dv, a, 0);
    var one := FromU32(1);
    var isOne := Cmp(x, one);
    var isMinus := Cmp(x, nMinus);
    if isOne == Equal || isMinus == Equal { return true; }
    pass := SquareRounds(n, nMinus, x, s, dv, a);
  }

  /** The squaring loop, entered when a^d is neither 1 nor -1. */
  method SquareRounds(n: BigUint, nMinus: BigUint, start: BigUint, s: nat, ghost d: nat, ghost a: nat)
    returns (pass: bool)
    requires Val(n) > 0 && Val(nMinus) == Val(n) - 1
    requires Val(start) == Squared(Val(n), d, a, 0) && Val(start) != 1 && Val(start) != Val(nMinus)
    ensures pass <==> StrongProbablePrime(Val(n), d, s, a)
  {
    var x := start;
    var i := 1;
    while i < s
      invariant i >= 1 && Val(x) == Squared(Val(n), d, a, i - 1)
      invariant forall j: nat :: j < i ==> Squared(Val(n), d, a, j) != Val(n) - 1
    {
      SquareAgain(Val(n), d, a, i - 1);
      var sq := Mul(x, x);
      x := Rem(sq, n);
      var isMinus := Cmp(x, nMinus);
      if isMinus == Equal { return true; }
      var isOne := Cmp(x, FromU32(1));
      if isOne == Equal {
        forall j: nat | j >= i ensures Squared(Val(n), d, a, j) == 1 { StaysOne(Val(n), d, a, i, j); }
        return false;
      }
      i := i + 1;
    }
    return false;
  }

  lemma {:induction false} StaysOne(n: nat, d: nat, a: nat, i: nat, j: nat)
    requires n > 0 && i <= j && Squared(n, d, a, i) == 1
    ensures Squared(n, d, a, j) == 1
    decreases j
  {
    if i < j {
      StaysOne(n, d, a, i, j - 1);
      SquareAgain(n, d, a, j - 1);
      ModMod(Pow(a, d * Pow(2, j - 1)), n);
    }
  }

  /** What `is_probable_prime` decides. */
  ghost predicate ProbablePrime(n: nat) {
    n > 0 && (IsSmallPrime(n) || (SurvivesTrial(n, |SMALL|) && PassesRounds(n, |BASES|)))
  }

  ghost predicate SurvivesTrial(n: nat, k: nat)
    requires k <= |SMALL|
  {
    forall i :: 0 <= i < k ==> n != SMALL[i] && n % SMALL[i] != 0
  }

  ghost predicate IsSmallPrime(n: nat) {
    exists i :: 0 <= i < |SMALL| && SurvivesTrial(n, i) && n == SMALL[i]
  }

  ghost predicate PassesRounds(n: nat, k: nat)
    requires n > 0 && k <= |BASES|
  {
    forall i :: 0 <= i < k ==>
      BASES[i] >= n || StrongProbablePrime(n, OddPart(n - 1), Twos(n - 1), BASES[i])
  }

  method IsProbablePrime(n: BigUint) returns (answer: bool)
    ensures answer <==> ProbablePrime(Val(n))
  {
    if IsZero(n) { return false; }
    var decided;
    decided, answer := TrialDivision(n);
    if decided { return; }
    answer := Rounds(n);
  }

  method TrialDivision(n: BigUint) returns (decided: bool, answer: bool)
    ensures decided <==> !SurvivesTrial(Val(n), |SMALL|)
    ensures decided ==> (answer <==> IsSmallPrime(Val(n)))
  {
    for i := 0 to |SMALL|
      invariant SurvivesTrial(Val(n), i)
    {
      var d := FromU32(SMALL[i]);
      var c := Cmp(n, d);
      if c == Equal { return true, true; }
      var r := Rem(n, d);
      if IsZero(r) { return true, false; }
    }
    return false, false;
  }

  method Rounds(n: BigUint) returns (answer: bool)
    requires Val(n) > 0
    ensures answer <==> PassesRounds(Val(n), |BASES|)
  {
    var one := FromU32(1);
    var diff := Sub(n, one);
    var nMinus := diff.value;
    var d, s := TakeOutTwos(nMinus);
    for i := 0 to |BASES|
      invariant PassesRounds(Val(n), i)
    {
      var pass := MillerRabinRound(n, nMinus, d, s, BASES[i]);
      if !pass { return false; }
    }
    return true;
  }

  // ----- every prime passes -----

  /** Going down from a^(n-1) = 1, the first square that is not 1 is -1. */
  lemma {:induction false} DescendToMinusOne(n: nat, d: nat, a: nat, i: nat)
    requires IsPrime(n) && Squared(n, d, a, i) == 1
    ensures Squared(n, d, a, 0) == 1 || exists j: nat :: j < i && Squared(n, d, a, j) == n - 1
    decreases i
  {
    if i == 0 {
    } else {
      SquareAgain(n, d, a, i - 1);
      var x := Squared(n, d, a, i - 1);
      SquareRootsOfOne(n, x);
      ModSmall(x, n);
      if x == 1 { DescendToMinusOne(n, d, a, i - 1); }
    }
  }

  lemma PrimePassesRound(n: nat, a: nat)
    requires IsPrime(n) && 0 < a < n
    ensures StrongProbablePrime(n, OddPart(n - 1), Twos(n - 1), a)
  {
    var d, s := OddPart(n - 1), Twos(n - 1);
    OddPartTimesTwos(n - 1);
    ModSmall(a, n);
    Fermat(n, a);
    DescendToMinusOne(n, d, a, s);
  }

  /** Soundness: a prime is never rejected, so whatever is rejected is composite (or zero). */
  lemma PrimesPass(n: nat)
    requires IsPrime(n)
    ensures ProbablePrime(n)
  {
    forall i | 0 <= i < |SMALL| && n != SMALL[i] ensures n % SMALL[i] != 0 {
      if n < SMALL[i] {
        ModSmall(n, SMALL[i]);
      } else {
        assert !Divides(SMALL[i], n);
      }
    }
    forall i | 0 <= i < |BASES| && BASES[i] < n
      ensures StrongProbablePrime(n, OddPart(n - 1), Twos(n - 1), BASES[i])
    {
      PrimePassesRound(n, BASES[i]);
    }
    assert PassesRounds(n, |BASES|);
    if !SurvivesTrial(n, |SMALL|) {
      var i :| 0 <= i < |SMALL| && n == SMALL[i];
      SmallDistinct(i);
      assert SurvivesTrial(n, i);
    }
  }

  lemma SmallDistinct(i: nat)
    requires i < |SMALL|
    ensures forall j :: 0 <= j < i ==> SMALL[j] != SMALL[i]
  {
  }

  /** The converse fails: 1 is not prime, and every base is at least 1, so it passes. */
  lemma OnePassesToo()
    ensures ProbablePrime(1) && !IsPrime(1)
  {
    forall i | 0 <= i < |SMALL| ensures 1 % SMALL[i] != 0 { ModSmall(1, SMALL[i]); }
  }
}

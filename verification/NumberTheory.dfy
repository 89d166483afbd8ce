/** Greatest common divisors, primes, Fermat's little theorem. */
module NumberTheory {
  import opened Arith

  predicate Divides(d: int, a: int)
    requires d > 0
  {
    a % d == 0
  }

  lemma DividesMul(d: int, a: int, k: int)
    requires d > 0 && Divides(d, a)
    ensures Divides(d, k * a) && Divides(d, a * k)
  {
    MulMod(k, a, d);
    MulMod(a, k, d);
    assert k * a == a * k;
    ModSmall(0, d);
    assert k * 0 == 0;
  }

  lemma DividesAdd(d: int, a: int, b: int)
    requires d > 0 && Divides(d, a) && Divides(d, b)
    ensures Divides(d, a + b) && Divides(d, a - b)
  {
    DivMod(a, d);
    DivMod(b, d);
    assert a + b == (a / d + b / d) * d;
    assert a - b == (a / d - b / d) * d;
    MultipleMod(a / d + b / d, d);
    MultipleMod(a / d - b / d, d);
  }

  lemma DividesLe(d: int, a: int)
    requires d > 0 && a > 0 && Divides(d, a)
    ensures d <= a
  {
    if a < d { ModSmall(a, d); }
  }

  /** Euclid's algorithm. */
  function Gcd(a: nat, b: nat): (g: nat)
    ensures a > 0 || b > 0 ==> g > 0
    decreases b
  {
    if b == 0 then a else Gcd(b, a % b)
  }

  lemma {:induction false} GcdDivides(a: nat, b: nat)
    requires a > 0 || b > 0
    ensures Divides(Gcd(a, b), a) && Divides(Gcd(a, b), b)
    decreases b
  {
    if b == 0 {
      MultipleMod(1, a);
      ModSmall(0, a);
    } else {
      GcdDivides(b, a % b);
      var g := Gcd(a, b);
      DivMod(a, b);
      DividesMul(g, b, a / b);
      DividesAdd(g, (a / b) * b, a % b);
    }
  }

  lemma {:induction false} GcdGreatest(a: nat, b: nat, d: int)
    requires d > 0 && Divides(d, a) && Divides(d, b)
    ensures Divides(d, Gcd(a, b))
    decreases b
  {
    if b == 0 {
    } else {
      DivMod(a, b);
      DividesMul(d, b, a / b);
      DividesAdd(d, a, (a / b) * b);
      GcdGreatest(b, a % b, d);
    }
  }

  /** Bezout's identity, with the coefficients. */
  lemma {:induction false} Bezout(a: nat, b: nat) returns (u: int, v: int)
    ensures u * a + v * b == Gcd(a, b)
    decreases b
  {
    if b == 0 {
      u, v := 1, 0;
    } else {
      var u1, v1 := Bezout(b, a % b);
      DivMod(a, b);
      u, v := v1, u1 - v1 * (a / b);
      BezoutStep(u1, v1, a, b, a / b, a % b);
    }
  }

  lemma BezoutStep(u: int, v: int, a: int, b: int, q: int, r: int)
    requires a == q * b + r
    ensures u * b + v * r == v * a + (u - v * q) * b
  {
    MulDist(q * b, r, v);
    MulAssoc(v, q, b);
    MulDist(u, v * q, b);
  }

  /** gcd(a, m) = 1 is the same thing as a having an inverse modulo m. */
  lemma CoprimeIffInvertible(a: nat, m: nat)
    requires m > 1
    ensures Gcd(m, a) == 1 <==> exists v: int :: (a * v) % m == 1
  {
    if Gcd(m, a) == 1 {
      var u, v := Bezout(m, a);
      assert a * v == 1 + (-u) * m;
      ModMultiple(1, -u, m);
      ModSmall(1, m);
    }
    if v: int :| (a * v) % m == 1 {
      var g := Gcd(m, a);
      GcdDivides(m, a);
      DividesMul(g, a, v);
      DivMod(a * v, m);
      DividesMul(g, m, a * v / m);
      DividesAdd(g, a * v, (a * v / m) * m);
      DividesLe(g, 1);
    }
  }

  lemma GcdSymmetric(a: nat, b: nat)
    ensures Gcd(a, b) == Gcd(b, a)
  {
    if a < b {
      ModSmall(a, b);
      assert Gcd(a, b) == Gcd(b, a);
    } else if b < a {
      ModSmall(b, a);
      assert Gcd(b, a) == Gcd(a, b);
    }
  }

  // ----- primes -----

  ghost predicate IsPrime(p: int) {
    p >= 2 && forall d {:trigger Divides(d, p)} :: 2 <= d < p ==> !Divides(d, p)
  }

  lemma PrimeGcd(p: nat, a: nat)
    requires IsPrime(p) && !Divides(p, a)
    ensures Gcd(p, a) == 1
  {
    var g := Gcd(p, a);
    GcdDivides(p, a);
    DividesLe(g, p);
    assert g == 1 || g == p;
  }

  /** Euclid's lemma: what divides a product and is coprime to one factor divides the other. */
  lemma CoprimeDivides(m: nat, a: nat, b: int)
    requires m > 0 && Gcd(m, a) == 1 && Divides(m, a * b)
    ensures Divides(m, b)
  {
    var u, v := Bezout(m, a);
    MultipleMod(u * b, m);
    DividesMul(m, a * b, v);
    DividesAdd(m, (u * b) * m, v * (a * b));
    hide Gcd, Divides;
    Combination(u, m, v, a, b);
  }

  lemma Combination(u: int, m: int, v: int, a: int, b: int)
    requires u * m + v * a == 1
    ensures b == (u * b) * m + v * (a * b)
  {
    MulDist(u * m, v * a, b);
    MulAssoc(v, a, b);
    MulAssoc(u, m, b);
    MulComm(m, b);
    MulAssoc(u, b, m);
  }

  lemma EuclidLemma(p: nat, a: nat, b: int)
    requires IsPrime(p) && Divides(p, a * b)
    ensures Divides(p, a) || Divides(p, b)
  {
    if !Divides(p, a) {
      PrimeGcd(p, a);
      CoprimeDivides(p, a, b);
    }
  }

  lemma DistinctPrimesCoprime(p: nat, q: nat)
    requires IsPrime(p) && IsPrime(q) && p != q
    ensures Gcd(p, q) == 1
  {
    if Divides(p, q) {
      DividesLe(p, q);
    }
    PrimeGcd(p, q);
  }

  /** Two coprime divisors of x divide x together. */
  lemma CoprimeProductDivides(p: nat, q: nat, x: int)
    requires p > 0 && q > 0 && Gcd(p, q) == 1 && Divides(p, x) && Divides(q, x)
    ensures p * q > 0 && Divides(p * q, x)
  {
    MulSign(p, q);
    DivMod(x, q);
    var y := x / q;
    MulComm(y, q);
    CoprimeDivides(p, q, y);
    DivMod(y, p);
    var t := y / p;
    MulAssoc(t, p, q);
    MultipleMod(t, p * q);
  }

  // ----- Fermat's little theorem, through the binomial theorem -----

  ghost function Choose(n: nat, k: nat): nat {
    if k == 0 then 1
    else if n == 0 then 0
    else Choose(n - 1, k - 1) + Choose(n - 1, k)
  }

  lemma {:induction false} ChooseAbove(n: nat, k: nat)
    requires k > n
    ensures Choose(n, k) == 0
  {
    if n == 0 {
    } else {
      ChooseAbove(n - 1, k - 1);
      ChooseAbove(n - 1, k);
    }
  }

  lemma {:induction false} Absorption(n: nat, k: nat)
    requires n > 0 && k > 0
    ensures k * Choose(n, k) == n * Choose(n - 1, k - 1)
  {
    if n == 1 {
      if k > 1 { ChooseAbove(1, k); ChooseAbove(0, k - 1); }
      assert Choose(1, 1) == Choose(0, 0) + Choose(0, 1);
    } else if k == 1 {
      Absorption(n - 1, 1);
      assert Choose(n, 1) == Choose(n - 1, 0) + Choose(n - 1, 1);
    } else {
      Absorption(n - 1, k);
      Absorption(n - 1, k - 1);
      AbsorptionStep(n, k, Choose(n - 1, k - 1), Choose(n - 1, k), Choose(n - 2, k - 2), Choose(n - 2, k - 1));
    }
  }

  lemma AbsorptionStep(n: int, k: int, left: int, right: int, l2: int, r2: int)
    requires k * right == (n - 1) * r2
    requires (k - 1) * left == (n - 1) * l2
    requires left == l2 + r2
    ensures k * (left + right) == n * left
  {
    assert (n - 1) * left == (n - 1) * l2 + (n - 1) * r2;
    assert k * (left + right) == (k - 1) * left + left + k * right;
  }

  lemma PrimeDividesChoose(p: nat, k: nat)
    requires IsPrime(p) && 0 < k < p
    ensures Divides(p, Choose(p, k))
  {
    Absorption(p, k);
    var c, c1 := Choose(p, k), Choose(p - 1, k - 1);
    MultipleMod(c1, p);
    assert k * c == c1 * p;
    EuclidLemma(p, k, c);
    ModSmall(k, p);
  }

  /** The first k terms of the expansion of (1 + x)^n. */
  ghost function BinomialSum(n: nat, x: int, k: nat): int {
    if k == 0 then 0 else BinomialSum(n, x, k - 1) + Choose(n, k - 1) * Pow(x, k - 1)
  }

  lemma {:induction false} BinomialPascal(n: nat, x: int, k: nat)
    ensures BinomialSum(n + 1, x, k + 1) == BinomialSum(n, x, k + 1) + x * BinomialSum(n, x, k)
  {
    if k == 0 {
      assert BinomialSum(n + 1, x, 1) == BinomialSum(n + 1, x, 0) + Choose(n + 1, 0) * Pow(x, 0);
      assert BinomialSum(n, x, 1) == BinomialSum(n, x, 0) + Choose(n, 0) * Pow(x, 0);
    } else {
      BinomialPascal(n, x, k - 1);
      PascalStep(x, Choose(n, k - 1), Choose(n, k), Pow(x, k - 1), BinomialSum(n, x, k - 1));
    }
  }

  lemma PascalStep(x: int, c0: int, c1: int, y: int, sum: int)
    ensures (c0 + c1) * (x * y) + x * sum == c1 * (x * y) + x * (sum + c0 * y)
  {
    assert x * (c0 * y) == c0 * (x * y);
    assert x * (sum + c0 * y) == x * sum + x * (c0 * y);
    assert (c0 + c1) * (x * y) == c0 * (x * y) + c1 * (x * y);
  }

  lemma {:induction false} BinomialTheorem(n: nat, x: int)
    ensures BinomialSum(n, x, n + 1) == Pow(1 + x, n)
    decreases n
  {
    if n == 0 {
      assert BinomialSum(0, x, 1) == BinomialSum(0, x, 0) + Choose(0, 0) * Pow(x, 0);
    } else {
      BinomialPascal(n - 1, x, n);
      BinomialTheorem(n - 1, x);
      ChooseAbove(n - 1, n);
      assert BinomialSum(n - 1, x, n + 1) == BinomialSum(n - 1, x, n) + 0 * Pow(x, n);
      assert (1 + x) * Pow(1 + x, n - 1) == Pow(1 + x, n - 1) + x * Pow(1 + x, n - 1);
    }
  }

  lemma {:induction false} BinomialSumModPrime(p: nat, x: int, k: nat)
    requires IsPrime(p) && 1 <= k <= p
    ensures BinomialSum(p, x, k) % p == 1
    decreases k
  {
    if k == 1 {
      assert BinomialSum(p, x, 1) == BinomialSum(p, x, 0) + Choose(p, 0) * Pow(x, 0);
      ModSmall(1, p);
    } else {
      BinomialSumModPrime(p, x, k - 1);
      PrimeDividesChoose(p, k - 1);
      var c := Choose(p, k - 1);
      DividesMul(p, c, Pow(x, k - 1));
      var t := c * Pow(x, k - 1);
      DivMod(t, p);
      ModMultiple(BinomialSum(p, x, k - 1), t / p, p);
    }
  }

  /** (1 + x)^p and 1 + x^p agree modulo a prime p. */
  lemma FreshmansDream(p: nat, x: int)
    requires IsPrime(p)
    ensures Pow(1 + x, p) % p == (1 + Pow(x, p)) % p
  {
    BinomialTheorem(p, x);
    BinomialSumModPrime(p, x, p);
    ChooseSelf(p);
    var b := BinomialSum(p, x, p);
    assert Pow(1 + x, p) == b + Pow(x, p);
    ModSmall(1, p);
    CongDiff(b, 1, p);
    CongDiff(b + Pow(x, p), 1 + Pow(x, p), p);
  }

  lemma {:induction false} ChooseSelf(n: nat)
    ensures Choose(n, n) == 1
  {
    if n == 0 {
    } else {
      ChooseSelf(n - 1);
      ChooseAbove(n - 1, n);
    }
  }

  lemma {:induction false} FermatAll(p: nat, x: nat)
    requires IsPrime(p)
    ensures Pow(x, p) % p == x % p
    decreases x
  {
    if x == 0 {
      assert Pow(0, p) == 0 * Pow(0, p - 1);
    } else {
      FermatAll(p, x - 1);
      FreshmansDream(p, x - 1);
      CongDiff(Pow(x - 1, p), x - 1, p);
      CongDiff(1 + Pow(x - 1, p), x, p);
    }
  }

  /** Fermat's little theorem. */
  lemma Fermat(p: nat, x: nat)
    requires IsPrime(p) && !Divides(p, x)
    ensures Pow(x, p - 1) % p == 1
  {
    FermatAll(p, x);
    var y := Pow(x, p - 1);
    CongDiff(Pow(x, p), x, p);
    assert Pow(x, p) == x * y;
    assert x * y - x == x * (y - 1);
    EuclidLemma(p, x, y - 1);
    CongDiff(y, 1, p);
    ModSmall(1, p);
  }

  /** Modulo a prime, only 1 and -1 square to 1. */
  lemma SquareRootsOfOne(p: nat, x: nat)
    requires IsPrime(p) && (x * x) % p == 1
    ensures x % p == 1 || x % p == p - 1
  {
    ModSmall(1, p);
    CongDiff(x * x, 1, p);
    if x == 0 {
      ModSmall(0, p);
    } else {
      assert x * x - 1 == (x - 1) * (x + 1);
      EuclidLemma(p, x - 1, x + 1);
      CongDiff(x, 1, p);
      if Divides(p, x + 1) {
        CongDiff(x, -1, p);
        ModMultiple(-1, 1, p);
        ModSmall(p - 1, p);
      }
    }
  }
}

/** Powers, Euclidean division and congruences over the integers. */
module Arith {

  function Pow(b: int, e: nat): (r: int)
    ensures b > 0 ==> r > 0
    ensures b >= 0 ==> r >= 0
    decreases e
  {
    if e == 0 then 1 else
      var t := Pow(b, e - 1);
      MulSign(b, t);
      b * t
  }

  lemma MulSign(x: int, y: int)
    ensures x > 0 && y > 0 ==> x * y > 0
    ensures x >= 0 && y >= 0 ==> x * y >= 0
  {
  }

  lemma MulAssoc(x: int, y: int, z: int)
    ensures (x * y) * z == x * (y * z)
  {
  }

  lemma MulComm(x: int, y: int)
    ensures x * y == y * x
  {
  }

  lemma MulDist(x: int, y: int, z: int)
    ensures (x + y) * z == x * z + y * z
    ensures z * (x + y) == z * x + z * y
    ensures (x - y) * z == x * z - y * z
    ensures z * (x - y) == z * x - z * y
  {
  }

  /** The middle factors of a fourfold product change places. */
  lemma MulSwap(a: int, b: int, x: int, y: int)
    ensures (a * b) * (x * y) == (a * x) * (b * y)
  {
    MulAssoc(a, b, x * y);
    MulAssoc(b, x, y);
    MulComm(b, x);
    MulAssoc(x, b, y);
    MulAssoc(a, x, b * y);
  }

  lemma MulLe(a: int, b: int, c: int)
    requires a <= b && 0 <= c
    ensures a * c <= b * c
  {
  }

  lemma MulLt(a: int, b: int, c: int)
    requires a < b && 0 < c
    ensures a * c < b * c
  {
  }

  lemma {:induction false} PowAdd(b: int, x: nat, y: nat)
    ensures Pow(b, x + y) == Pow(b, x) * Pow(b, y)
    decreases x
  {
    if x == 0 {
    } else {
      PowAdd(b, x - 1, y);
      MulAssoc(b, Pow(b, x - 1), Pow(b, y));
    }
  }

  lemma {:induction false} PowMul(b: int, x: nat, y: nat)
    ensures x * y >= 0
    ensures Pow(b, x * y) == Pow(Pow(b, x), y)
    decreases y
  {
    MulSign(x, y);
    if y == 0 {
      assert x * y == 0;
    } else {
      PowMul(b, x, y - 1);
      assert x * y == x + x * (y - 1);
      PowAdd(b, x, x * (y - 1));
    }
  }

  lemma {:induction false} PowBaseMul(a: int, b: int, e: nat)
    ensures Pow(a * b, e) == Pow(a, e) * Pow(b, e)
    decreases e
  {
    if e == 0 {
    } else {
      PowBaseMul(a, b, e - 1);
      MulSwap(a, b, Pow(a, e - 1), Pow(b, e - 1));
    }
  }

  lemma PowOne(b: int)
    ensures Pow(b, 1) == b
  {
    assert Pow(b, 1) == b * Pow(b, 0);
  }

  lemma {:induction false} OnePow(e: nat)
    ensures Pow(1, e) == 1
    decreases e
  {
    if e == 0 {
    } else {
      OnePow(e - 1);
    }
  }

  lemma {:induction false} PowMono(b: int, x: nat, y: nat)
    requires b >= 1 && x <= y
    ensures Pow(b, x) <= Pow(b, y)
    decreases y
  {
    if x < y {
      PowMono(b, x, y - 1);
      MulLe(1, b, Pow(b, y - 1));
    }
  }

  lemma {:induction false} PowStrict(b: int, x: nat, y: nat)
    requires b >= 2 && x < y
    ensures Pow(b, x) < Pow(b, y)
  {
    PowMono(b, x, y - 1);
    MulLt(1, b, Pow(b, y - 1));
  }

  /** Quotient and remainder are the only pair of their kind. */
  lemma DivModUnique(a: int, m: int, q: int, r: int)
    requires 0 < m && 0 <= r < m && a == q * m + r
    ensures a / m == q && a % m == r
  {
    var q1, r1 := a / m, a % m;
    assert a == q1 * m + r1;
    assert (q - q1) * m == r1 - r;
    if q > q1 {
      MulLe(1, q - q1, m);
      assert false;
    } else if q < q1 {
      MulLe(1, q1 - q, m);
      assert false;
    }
  }

  lemma DivMod(a: int, m: int)
    requires 0 < m
    ensures a == (a / m) * m + a % m
    ensures 0 <= a % m < m
  {
  }

  lemma ModSmall(a: int, m: int)
    requires 0 <= a < m
    ensures a % m == a && a / m == 0
  {
    DivModUnique(a, m, 0, a);
  }

  lemma ModMultiple(a: int, k: int, m: int)
    requires 0 < m
    ensures (a + k * m) % m == a % m
    ensures (a + k * m) / m == a / m + k
  {
    assert a + k * m == (a / m + k) * m + a % m by {
      assert (a / m + k) * m == (a / m) * m + k * m;
    }
    DivModUnique(a + k * m, m, a / m + k, a % m);
  }

  lemma MultipleMod(k: int, m: int)
    requires 0 < m
    ensures (k * m) % m == 0 && (k * m) / m == k
  {
    DivModUnique(k * m, m, k, 0);
  }

  /** Equal residues are the same thing as a divisible difference. */
  lemma CongDiff(a: int, b: int, m: int)
    requires 0 < m
    ensures a % m == b % m <==> (a - b) % m == 0
  {
    var k := a / m - b / m;
    assert (a / m) * m - (b / m) * m == k * m;
    assert a - b == a % m - b % m + k * m;
    ModMultiple(a % m - b % m, k, m);
    assert (a - b) % m == (a % m - b % m) % m;
    var d := a % m - b % m;
    if d < 0 {
      ModMultiple(d, 1, m);
      ModSmall(d + m, m);
    } else {
      ModSmall(d, m);
    }
  }

  lemma MulMod(a: int, b: int, m: int)
    requires 0 < m
    ensures ((a % m) * b) % m == (a * b) % m
    ensures (a * (b % m)) % m == (a * b) % m
    ensures ((a % m) * (b % m)) % m == (a * b) % m
  {
    MulModLeft(a, b, m);
    MulModLeft(b, a, m);
    MulModLeft(b, a % m, m);
    assert b * a == a * b && (b % m) * a == a * (b % m);
    assert b * (a % m) == (a % m) * b && (b % m) * (a % m) == (a % m) * (b % m);
  }

  lemma MulModLeft(a: int, b: int, m: int)
    requires 0 < m
    ensures ((a % m) * b) % m == (a * b) % m
  {
    assert a * b == (a % m) * b + ((a / m) * b) * m by {
      assert ((a / m) * m + a % m) * b == (a % m) * b + ((a / m) * b) * m;
    }
    ModMultiple((a % m) * b, (a / m) * b, m);
  }

  lemma CongMul(a: int, b: int, c: int, d: int, m: int)
    requires 0 < m && a % m == b % m && c % m == d % m
    ensures (a * c) % m == (b * d) % m
  {
    MulMod(a, c, m);
    MulMod(b, d, m);
  }

  lemma {:induction false} PowCong(a: int, b: int, e: nat, m: int)
    requires 0 < m && a % m == b % m
    ensures Pow(a, e) % m == Pow(b, e) % m
    decreases e
  {
    if e == 0 {
    } else {
      PowCong(a, b, e - 1, m);
      CongMul(a, b, Pow(a, e - 1), Pow(b, e - 1), m);
    }
  }

  lemma PowModBase(a: int, e: nat, m: int)
    requires 0 < m
    ensures Pow(a % m, e) % m == Pow(a, e) % m
  {
    ModMod(a, m);
    PowCong(a % m, a, e, m);
  }

  lemma ModMod(a: int, m: int)
    requires 0 < m
    ensures (a % m) % m == a % m
  {
    ModSmall(a % m, m);
  }

  lemma DivPositive(a: int, m: int)
    requires 0 <= a && 0 < m
    ensures 0 <= a / m <= a
    ensures m <= a ==> 1 <= a / m
  {
    DivMod(a, m);
    var q := a / m;
    if q < 0 { MulLe(q, -1, m); }
    if q > a { MulLe(1, m, q); }
    if q <= 0 && m <= a { MulLe(q, 0, m); }
  }

  /** Dividing by x and then by y is dividing by x * y. */
  lemma DivDiv(a: int, x: int, y: int)
    requires 0 < x && 0 < y
    ensures x * y > 0
    ensures a / (x * y) == (a / x) / y
  {
    MulSign(x, y);
    var q := a / x;
    var r := a % x;
    var q2 := q / y;
    var r2 := q % y;
    assert a == q2 * (x * y) + (r2 * x + r) by {
      assert (q2 * y + r2) * x == q2 * (x * y) + r2 * x;
    }
    MulLe(r2, y - 1, x);
    assert (y - 1) * x == x * y - x;
    MulSign(r2, x);
    DivModUnique(a, x * y, q2, r2 * x + r);
  }

  lemma ModProduct(a: int, x: int, y: int)
    requires 0 < x && 0 < y
    ensures x * y > 0
    ensures a % (x * y) == x * ((a / x) % y) + a % x
  {
    DivDiv(a, x, y);
    DivMod(a, x);
    DivMod(a, x * y);
    DivMod(a / x, y);
    var q := (a / x) / y;
    assert a == x * (q * y + (a / x) % y) + a % x;
    assert x * (q * y) == q * (x * y);
  }

  /** A common factor cancels from a division. */
  lemma DivCancel(a: int, c: int, m: int)
    requires 0 < m && 0 < c
    ensures c * m > 0
    ensures (c * a) / (c * m) == a / m
    ensures (c * a) % (c * m) == c * (a % m)
  {
    MulSign(c, m);
    assert c * a == (a / m) * (c * m) + c * (a % m) by {
      assert c * ((a / m) * m + a % m) == (a / m) * (c * m) + c * (a % m);
    }
    MulLt(a % m, m, c);
    DivModUnique(c * a, c * m, a / m, c * (a % m));
  }

  lemma QuotientBelow(x: nat, m: int, c: int)
    requires m > 0 && x < c * m
    ensures 0 <= x / m < c
  {
    DivMod(x, m);
    DivPositive(x, m);
    if x / m >= c { MulLe(c, x / m, m); }
  }

  lemma ByteBits(k: nat)
    ensures Pow(256, k) == Pow(2, 8 * k)
  {
    assert Pow(2, 1) == 2 && Pow(2, 2) == 4 && Pow(2, 3) == 8 && Pow(2, 4) == 16;
    PowAdd(2, 4, 4);
    PowMul(2, 8, k);
  }

  /** u64::saturating_sub. */
  function SaturatingSub(a: nat, b: nat): nat {
    if a < b then 0 else a - b
  }
}

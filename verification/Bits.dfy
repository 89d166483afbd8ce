/** Bitwise operations on non-negative integers, and when they agree with arithmetic. */
module Bits {
  import opened Arith

  function Or(a: nat, b: nat): (r: nat)
    ensures r >= a && r >= b
    decreases a + b
  {
    if a == 0 then b
    else if b == 0 then a
    else (if a % 2 == 1 || b % 2 == 1 then 1 else 0) + 2 * Or(a / 2, b / 2)
  }

  function And(a: nat, b: nat): (r: nat)
    ensures r <= a && r <= b
    decreases a + b
  {
    if a == 0 || b == 0 then 0
    else (if a % 2 == 1 && b % 2 == 1 then 1 else 0) + 2 * And(a / 2, b / 2)
  }

  /** Bit i of v. */
  predicate Bit(v: nat, i: nat) {
    (v / Pow(2, i)) % 2 == 1
  }

  lemma OrZero(a: nat)
    ensures Or(a, 0) == a && Or(0, a) == a
  {
  }

  /** Or is addition when the low bits it fills in are clear. */
  lemma {:induction false} OrDisjoint(a: nat, b: nat, s: nat)
    requires a % Pow(2, s) == 0 && b < Pow(2, s)
    ensures Or(a, b) == a + b
    decreases s
  {
    if s == 0 || a == 0 || b == 0 {
    } else {
      var h := Pow(2, s - 1);
      DivMod(a, 2 * h);
      var q := a / (2 * h);
      assert a == 2 * (q * h) by { assert q * (2 * h) == 2 * (q * h); }
      assert a / 2 == q * h && a % 2 == 0;
      MultipleMod(q, h);
      OrDisjoint(a / 2, b / 2, s - 1);
    }
  }

  lemma {:induction false} OrCommutes(a: nat, b: nat)
    ensures Or(a, b) == Or(b, a)
    decreases a + b
  {
    if a != 0 && b != 0 { OrCommutes(a / 2, b / 2); }
  }

  /** Masking with 2^s - 1 keeps the low s bits. */
  lemma {:induction false} AndMask(a: nat, s: nat)
    ensures And(a, Pow(2, s) - 1) == a % Pow(2, s)
    decreases s
  {
    if s == 0 {
    } else {
      var h := Pow(2, s - 1);
      assert Pow(2, s) == 2 * h;
      hide And, Pow;
      AndMask(a / 2, s - 1);
      AndStep(a, 2 * h - 1);
      assert (2 * h - 1) / 2 == h - 1 && (2 * h - 1) % 2 == 1;
      ModProduct(a, 2, h);
    }
  }

  lemma AndStep(a: nat, b: nat)
    ensures And(a, b) == (if a % 2 == 1 && b % 2 == 1 then 1 else 0) + 2 * And(a / 2, b / 2)
  {
  }

  /** Setting bit s: adds 2^s when the bit was clear. */
  lemma {:induction false} OrBit(a: nat, s: nat)
    ensures Or(a, Pow(2, s)) == if Bit(a, s) then a else a + Pow(2, s)
    decreases s
  {
    if a == 0 {
      ModSmall(0, Pow(2, s));
    } else if s == 0 {
      OrZero(a / 2);
      assert Pow(2, 0) == 1;
      assert a / 1 == a;
    } else {
      var h := Pow(2, s - 1);
      assert Pow(2, s) == 2 * h;
      assert (2 * h) % 2 == 0 && (2 * h) / 2 == h;
      OrBit(a / 2, s - 1);
      DivDiv(a, 2, h);
    }
  }

  lemma {:induction false} OrBound(a: nat, b: nat, s: nat)
    requires a < Pow(2, s) && b < Pow(2, s)
    ensures Or(a, b) < Pow(2, s)
    decreases s
  {
    if a == 0 || b == 0 || s == 0 {
    } else {
      OrBound(a / 2, b / 2, s - 1);
    }
  }

  lemma TwoPow32()
    ensures Pow(2, 32) == 0x1_0000_0000
    ensures Pow(2, 31) == 0x8000_0000
  {
    TwoPow16();
    PowAdd(2, 16, 16);
    PowAdd(2, 16, 15);
    PowAdd(2, 8, 7);
    assert Pow(2, 15) == 32768;
  }

  lemma TwoPow16()
    ensures Pow(2, 8) == 256 && Pow(2, 16) == 65536 && Pow(2, 7) == 128
  {
    assert Pow(2, 1) == 2 && Pow(2, 2) == 4;
    assert Pow(2, 3) == 8 && Pow(2, 4) == 16;
    assert Pow(2, 5) == 32 && Pow(2, 6) == 64;
    assert Pow(2, 7) == 128 && Pow(2, 8) == 256;
    PowAdd(2, 8, 8);
  }
}

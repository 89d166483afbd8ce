/** Little-endian sequences of 32-bit limbs and the integers they stand for. */
module Limbs {
  import opened Arith
  import opened Bits

  const BASE := 0x1_0000_0000

  type Limb = x: int | 0 <= x < 0x1_0000_0000
  type Word = x: int | 0 <= x < 0x1_0000_0000_0000_0000
  type SignedWord = x: int | -0x8000_0000_0000_0000 <= x < 0x8000_0000_0000_0000

  /** Limb i, reading zero past the end. */
  function Digit(s: seq<Limb>, i: nat): Limb {
    if i < |s| then s[i] else 0
  }

  /** Value of the lowest n limbs. */
  function Low(s: seq<Limb>, n: nat): (v: nat)
    decreases n
  {
    if n == 0 then 0 else
      MulSign(Digit(s, n - 1), Pow(BASE, n - 1));
      Low(s, n - 1) + Digit(s, n - 1) * Pow(BASE, n - 1)
  }

  function Val(s: seq<Limb>): nat {
    Low(s, |s|)
  }

  /** No leading zero limb, and at least one limb. */
  predicate Normal(s: seq<Limb>) {
    |s| >= 1 && (|s| > 1 ==> s[|s| - 1] != 0)
  }

  function Zeros(n: nat): (s: seq<Limb>)
    ensures |s| == n && forall i :: 0 <= i < n ==> s[i] == 0
  {
    seq(n, _ => 0)
  }

  lemma {:induction false} LowBound(s: seq<Limb>, n: nat)
    ensures Low(s, n) < Pow(BASE, n)
  {
    if n == 0 {
    } else {
      LowBound(s, n - 1);
      var p := Pow(BASE, n - 1);
      MulLe(Digit(s, n - 1), BASE - 1, p);
      assert (BASE - 1) * p == BASE * p - p;
    }
  }

  lemma {:induction false} LowSame(s: seq<Limb>, t: seq<Limb>, n: nat)
    requires forall i :: 0 <= i < n ==> Digit(s, i) == Digit(t, i)
    ensures Low(s, n) == Low(t, n)
  {
    if n == 0 {
    } else {
      LowSame(s, t, n - 1);
    }
  }

  /** Where two numbers agree on limbs [i, n), their difference is decided below i. */
  lemma {:induction false} LowDiff(s: seq<Limb>, t: seq<Limb>, i: nat, n: nat)
    requires i <= n
    requires forall j :: i <= j < n ==> Digit(s, j) == Digit(t, j)
    ensures Low(s, n) - Low(t, n) == Low(s, i) - Low(t, i)
    decreases n
  {
    if n > i { LowDiff(s, t, i, n - 1); }
  }

  lemma {:induction false} LowZeros(s: seq<Limb>, n: nat)
    requires forall i :: 0 <= i < n ==> Digit(s, i) == 0
    ensures Low(s, n) == 0
  {
    if n == 0 {
    } else {
      LowZeros(s, n - 1);
    }
  }

  lemma {:induction false} LowMono(s: seq<Limb>, m: nat, n: nat)
    requires m <= n
    ensures Low(s, m) <= Low(s, n)
    decreases n
  {
    if m < n {
      LowMono(s, m, n - 1);
      MulSign(Digit(s, n - 1), Pow(BASE, n - 1));
    }
  }

  lemma {:induction false} LowPad(s: seq<Limb>, n: nat)
    requires n >= |s|
    ensures Low(s, n) == Val(s)
    decreases n
  {
    if n > |s| { LowPad(s, n - 1); }
  }

  lemma ValSnoc(s: seq<Limb>, x: Limb)
    ensures Val(s + [x]) == Val(s) + x * Pow(BASE, |s|)
  {
    LowSame(s + [x], s, |s|);
  }

  lemma {:induction false} LowUpdate(s: seq<Limb>, i: nat, x: Limb, n: nat)
    requires i < |s|
    ensures Low(s[i := x], n) == Low(s, n) + if i < n then (x - s[i]) * Pow(BASE, i) else 0
    decreases n
  {
    if n == 0 {
    } else {
      LowUpdate(s, i, x, n - 1);
      if i == n - 1 {
        var p := Pow(BASE, i);
        assert x * p == s[i] * p + (x - s[i]) * p;
      }
    }
  }

  /** Splitting a number at limb n. */
  lemma {:induction false} LowSplit(s: seq<Limb>, n: nat, m: nat)
    requires n <= |s|
    ensures Low(s, n + m) == Low(s, n) + Low(s[n..], m) * Pow(BASE, n)
    decreases m
  {
    if m == 0 {
      assert 0 * Pow(BASE, n) == 0;
    } else {
      LowSplit(s, n, m - 1);
      assert Digit(s, n + m - 1) == Digit(s[n..], m - 1);
      PowAdd(BASE, n, m - 1);
      SplitStep(Pow(BASE, n), Pow(BASE, m - 1), Digit(s, n + m - 1), Low(s[n..], m - 1));
    }
  }

  lemma SplitStep(p: int, q: int, d: int, v: int)
    ensures v * p + d * (p * q) == (v + d * q) * p
  {
    MulDist(v, d * q, p);
    MulComm(p, q);
    MulAssoc(d, q, p);
  }

  lemma ValSplit(s: seq<Limb>, n: nat)
    requires n <= |s|
    ensures Val(s) == Low(s, n) + Val(s[n..]) * Pow(BASE, n)
  {
    var m := |s| - n;
    LowSplit(s, n, m);
    assert |s[n..]| == m && n + m == |s|;
  }

  /** Least significant limb first. */
  lemma ValHead(s: seq<Limb>, n: nat)
    requires n < |s|
    ensures Val(s[n..]) == s[n] + BASE * Val(s[n + 1..])
  {
    var t := s[n..];
    ValSplit(t, 1);
    PowOne(BASE);
    assert t[1..] == s[n + 1..];
    assert Low(t, 1) == Low(t, 0) + t[0] * Pow(BASE, 0);
  }

  lemma ValZerosThen(k: nat, s: seq<Limb>)
    ensures Val(Zeros(k) + s) == Val(s) * Pow(BASE, k)
  {
    var t := Zeros(k) + s;
    ValSplit(t, k);
    LowZeros(t, k);
    assert t[k..] == s;
  }

  lemma LowIsVal(s: seq<Limb>, n: nat)
    requires Val(s) < Pow(BASE, n)
    ensures Low(s, n) == Val(s)
  {
    if n < |s| {
      ValSplit(s, n);
      var h := Val(s[n..]);
      if h >= 1 { MulLe(1, h, Pow(BASE, n)); }
      assert h == 0;
    } else {
      LowPad(s, n);
    }
  }

  /** The value is zero exactly when every limb is. */
  lemma {:induction false} ZeroIff(s: seq<Limb>, n: nat)
    ensures Low(s, n) == 0 <==> forall i :: 0 <= i < n ==> Digit(s, i) == 0
  {
    if n == 0 {
    } else {
      ZeroIff(s, n - 1);
      MulSign(Digit(s, n - 1), Pow(BASE, n - 1));
    }
  }

  /** A number below BASE^n has no limb set from n on. */
  lemma HighLimbsZero(s: seq<Limb>, n: nat)
    requires Val(s) < Pow(BASE, n)
    ensures forall t :: n <= t < |s| ==> s[t] == 0
  {
    forall t | n <= t < |s| ensures s[t] == 0 {
      LowMono(s, t + 1, |s|);
      PowMono(BASE, n, t);
      if s[t] >= 1 { MulLe(1, s[t], Pow(BASE, t)); }
    }
  }

  lemma ZeroLimbs(s: seq<Limb>)
    ensures Val(s) == 0 <==> forall i :: 0 <= i < |s| ==> s[i] == 0
  {
    ZeroIff(s, |s|);
    if forall i :: 0 <= i < |s| ==> s[i] == 0 {
      assert forall i :: 0 <= i < |s| ==> Digit(s, i) == s[i];
    } else {
      var i :| 0 <= i < |s| && s[i] != 0;
      assert Digit(s, i) == s[i];
    }
  }

  /** A normalized number of more than one limb reaches its top limb's weight. */
  lemma NormalLower(s: seq<Limb>)
    requires Normal(s) && |s| > 1
    ensures Val(s) >= Pow(BASE, |s| - 1)
  {
    MulLe(1, s[|s| - 1], Pow(BASE, |s| - 1));
  }

  /** Normalized representations are unique. */
  lemma NormalUnique(s: seq<Limb>, t: seq<Limb>)
    requires Normal(s) && Normal(t) && Val(s) == Val(t)
    ensures s == t
  {
    if |s| < |t| {
      NormalLower(t);
      LowBound(s, |s|);
      PowMono(BASE, |s|, |t| - 1);
    } else if |t| < |s| {
      NormalLower(s);
      LowBound(t, |t|);
      PowMono(BASE, |t|, |s| - 1);
    } else {
      LowInjective(s, t, |s|);
      assert forall i :: 0 <= i < |s| ==> s[i] == Digit(s, i) && t[i] == Digit(t, i);
    }
  }

  lemma {:induction false} LowInjective(s: seq<Limb>, t: seq<Limb>, n: nat)
    requires Low(s, n) == Low(t, n)
    ensures forall i :: 0 <= i < n ==> Digit(s, i) == Digit(t, i)
    decreases n
  {
    if n == 0 {
    } else {
      LowBound(s, n - 1);
      LowBound(t, n - 1);
      var p := Pow(BASE, n - 1);
      DivModUnique(Low(s, n), p, Digit(s, n - 1), Low(s, n - 1));
      DivModUnique(Low(t, n), p, Digit(t, n - 1), Low(t, n - 1));
      LowInjective(s, t, n - 1);
    }
  }

  /** Bit k of limb i is bit 32 * i + k of the number. */
  lemma LimbBit(s: seq<Limb>, i: nat, k: nat)
    requires k < 32
    ensures Bit(Val(s), 32 * i + k) <==> Bit(Digit(s, i), k)
  {
    BitOfLimbWeight(Val(s), i, k);
    if i >= |s| {
      LowBound(s, |s|);
      PowMono(BASE, |s|, i);
      ModSmall(Val(s), Pow(BASE, i));
      ModSmall(0, Pow(2, k));
    } else {
      LimbQuotient(s, i);
      PowerBelow32(k);
      HighBitsDoNotMatter(s[i], Val(s[i + 1..]), Pow(2, k), Pow(2, 31 - k));
    }
  }

  lemma BitOfLimbWeight(v: nat, i: nat, k: nat)
    ensures Bit(v, 32 * i + k) <==> Bit(v / Pow(BASE, i), k)
  {
    TwoPow32();
    PowMul(2, 32, i);
    PowAdd(2, 32 * i, k);
    DivDiv(v, Pow(BASE, i), Pow(2, k));
  }

  lemma PowerBelow32(k: nat)
    requires k < 32
    ensures BASE == Pow(2, k) * (2 * Pow(2, 31 - k))
  {
    TwoPow32();
    PowAdd(2, k, 32 - k);
    assert Pow(2, 32 - k) == 2 * Pow(2, 31 - k);
  }

  lemma LimbQuotient(s: seq<Limb>, i: nat)
    requires i < |s|
    ensures Val(s) / Pow(BASE, i) == s[i] + BASE * Val(s[i + 1..])
  {
    ValSplit(s, i);
    ValHead(s, i);
    LowBound(s, i);
    DivModUnique(Val(s), Pow(BASE, i), Val(s[i..]), Low(s, i));
  }

  lemma HighBitsDoNotMatter(x: nat, h: nat, p: int, c: int)
    requires p > 0 && BASE == p * (2 * c)
    ensures ((x + BASE * h) / p) % 2 == (x / p) % 2
  {
    assert BASE * h == (2 * (c * h)) * p;
    ModMultiple(x, 2 * (c * h), p);
    ModMultiple(x / p, c * h, 2);
  }
}

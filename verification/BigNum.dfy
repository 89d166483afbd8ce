/** The multi-precision integers of src/crypto.rs, limb loop by limb loop. */
module BigNum {
  import opened Results
  import opened Arith
  import opened Bits
  import opened Limbs

  type BigUint = s: seq<Limb> | Normal(s) witness [0]

  datatype Ordering = Less | Equal | Greater

  function Order(x: int, y: int): Ordering {
    if x < y then Less else if x == y then Equal else Greater
  }

  function Zero(): (r: BigUint)
    ensures Val(r) == 0
  {
    assert Low([0], 1) == Low([0], 0) + 0 * Pow(BASE, 0);
    [0]
  }

  function FromU32(v: Limb): (r: BigUint)
    ensures Val(r) == v
  {
    assert Low([v], 1) == Low([v], 0) + v * Pow(BASE, 0);
    [v]
  }

  /** Pops leading zero limbs. */
  method Normalize(raw: seq<Limb>) returns (r: BigUint)
    ensures Val(r) == Val(raw)
  {
    var limbs := raw;
    while |limbs| > 1 && limbs[|limbs| - 1] == 0
      invariant Val(limbs) == Val(raw)
      decreases |limbs|
    {
      var n := |limbs| - 1;
      LowSame(limbs, limbs[..n], n);
      limbs := limbs[..n];
    }
    if |limbs| == 0 {
      limbs := limbs + [0];
      ValSnoc([], 0);
      assert limbs == [] + [0];
    }
    r := limbs;
  }

  predicate IsZero(a: seq<Limb>)
    ensures IsZero(a) <==> Val(a) == 0
  {
    ZeroLimbs(a);
    forall i :: 0 <= i < |a| ==> a[i] == 0
  }

  /** Significant bits of a limb: 32 minus its leading zeros. */
  function LimbBitLen(v: nat): (n: nat)
    ensures v < Pow(2, n)
    ensures v > 0 ==> n > 0 && Pow(2, n - 1) <= v
  {
    if v == 0 then 0 else 1 + LimbBitLen(v / 2)
  }

  /** Number of significant bits. */
  function BitLength(a: BigUint): (n: nat)
    ensures Val(a) < Pow(2, n)
    ensures Val(a) > 0 ==> n > 0 && Pow(2, n - 1) <= Val(a)
    ensures Val(a) == 0 ==> n == 0
  {
    if IsZero(a) then 0
    else
      TopLimb(a);
      (|a| - 1) * 32 + LimbBitLen(a[|a| - 1])
  }

  lemma TopLimb(a: BigUint)
    requires Val(a) > 0
    ensures a[|a| - 1] > 0
    ensures var n := 32 * (|a| - 1) + LimbBitLen(a[|a| - 1]);
            n > 0 && Pow(2, n - 1) <= Val(a) < Pow(2, n)
  {
    ZeroLimbs(a);
    LowBound(a, |a| - 1);
    TopLimbWeight(Low(a, |a| - 1), a[|a| - 1], |a| - 1);
  }

  lemma TopLimbWeight(low: nat, t: Limb, k: nat)
    requires t > 0 && low < Pow(BASE, k)
    ensures var b := LimbBitLen(t);
            b > 0 && Pow(2, 32 * k + b - 1) <= low + t * Pow(BASE, k) < Pow(2, 32 * k + b)
  {
    var b := LimbBitLen(t);
    LimbWeight(k, b);
    LimbWeight(k, b - 1);
    TopBounds(low, t, Pow(BASE, k), Pow(2, b - 1), Pow(2, b));
  }

  lemma TopBounds(low: nat, t: int, w: int, lo: int, hi: int)
    requires 0 <= low < w && lo <= t < hi
    ensures lo * w <= low + t * w < hi * w
  {
    MulLe(t + 1, hi, w);
    MulLe(lo, t, w);
    assert (t + 1) * w == t * w + w;
  }

  lemma LimbWeight(k: nat, b: nat)
    ensures Pow(2, 32 * k + b) == Pow(2, b) * Pow(BASE, k)
  {
    TwoPow32();
    PowMul(2, 32, k);
    PowAdd(2, 32 * k, b);
  }

  /** Bit i of the number, false past the end. */
  predicate GetBit(a: BigUint, i: nat)
    ensures GetBit(a, i) <==> Bit(Val(a), i)
  {
    LimbBit(a, i / 32, i % 32);
    var limb, bit := i / 32, i % 32;
    limb < |a| && (a[limb] / Pow(2, bit)) % 2 == 1
  }

  method Cmp(a: seq<Limb>, b: seq<Limb>) returns (r: Ordering)
    ensures r == Order(Val(a), Val(b))
  {
    var n := if |a| > |b| then |a| else |b|;
    LowPad(a, n);
    LowPad(b, n);
    var i := n;
    while i > 0
      invariant 0 <= i <= n
      invariant forall j :: i <= j < n ==> Digit(a, j) == Digit(b, j)
    {
      i := i - 1;
      var x, y := Digit(a, i), Digit(b, i);
      if x != y {
        LowDiff(a, b, i + 1, n);
        DecideAt(a, b, i);
        return if x < y then Less else Greater;
      }
    }
    LowDiff(a, b, 0, n);
    return Equal;
  }

  lemma DecideAt(a: seq<Limb>, b: seq<Limb>, i: nat)
    requires Digit(a, i) != Digit(b, i)
    ensures Low(a, i + 1) < Low(b, i + 1) <==> Digit(a, i) < Digit(b, i)
    ensures Low(a, i + 1) != Low(b, i + 1)
  {
    LowBound(a, i);
    LowBound(b, i);
    hide Pow, Digit;
    DecideStep(Low(a, i), Low(b, i), Digit(a, i), Digit(b, i), Pow(BASE, i));
  }

  lemma DecideStep(low: int, low': int, x: int, y: int, p: int)
    requires 0 <= low < p && 0 <= low' < p && x != y
    ensures low + x * p < low' + y * p <==> x < y
    ensures low + x * p != low' + y * p
  {
    if x < y { MulLe(x + 1, y, p); } else { MulLe(y + 1, x, p); }
    assert (x + 1) * p == x * p + p && (y + 1) * p == y * p + p;
  }

  method Add(a: BigUint, b: BigUint) returns (r: BigUint)
    ensures Val(r) == Val(a) + Val(b)
  {
    var n := if |a| > |b| then |a| else |b|;
    LowPad(a, n);
    LowPad(b, n);
    var limbs: seq<Limb> := [];
    var carry: Word := 0;
    for i := 0 to n
      invariant |limbs| == i && 0 <= carry <= 1
      invariant Val(limbs) + carry * Pow(BASE, i) == Low(a, i) + Low(b, i)
    {
      var s: Word := Digit(a, i) + Digit(b, i) + carry;
      ValSnoc(limbs, s % BASE);
      CarryStep(s, Pow(BASE, i));
      AddDistributes(Digit(a, i), Digit(b, i), carry, Pow(BASE, i));
      limbs := limbs + [s % BASE];
      carry := s / BASE;
    }
    if carry > 0 {
      ValSnoc(limbs, carry);
      limbs := limbs + [carry];
    }
    r := Normalize(limbs);
  }

  /** Splitting an accumulator into a limb and a carry keeps its weight. */
  lemma CarryStep(s: nat, p: int)
    ensures (s % BASE) * p + (s / BASE) * (BASE * p) == s * p
  {
    DivMod(s, BASE);
    assert (s / BASE) * (BASE * p) == ((s / BASE) * BASE) * p;
    assert ((s / BASE) * BASE) * p + (s % BASE) * p == ((s / BASE) * BASE + s % BASE) * p;
  }

  lemma AddDistributes(x: int, y: int, z: int, p: int)
    ensures (x + y + z) * p == x * p + y * p + z * p
  {
  }

  /** Subtraction; None when the result would be negative. */
  method Sub(a: BigUint, b: BigUint) returns (r: Option<BigUint>)
    ensures Val(a) < Val(b) ==> r == None
    ensures Val(a) >= Val(b) ==> r.Some? && Val(r.value) == Val(a) - Val(b)
  {
    var c := Cmp(a, b);
    if c == Less { return None; }
    var n := |a|;
    var limbs: seq<Limb> := [];
    var borrow: SignedWord := 0;
    for i := 0 to n
      invariant |limbs| == i && 0 <= borrow <= 1
      invariant Val(limbs) - borrow * Pow(BASE, i) == Low(a, i) - Low(b, i)
    {
      var d: SignedWord := a[i] - Digit(b, i) - borrow;
      BorrowStep(a[i], Digit(b, i), borrow, Pow(BASE, i));
      if d < 0 {
        d := d + 0x1_0000_0000;
        borrow := 1;
      } else {
        borrow := 0;
      }
      ValSnoc(limbs, d);
      limbs := limbs + [d];
    }
    LowBound(a, n);
    LowIsVal(b, n);
    LowBound(limbs, n);
    assert borrow == 0;
    var s := Normalize(limbs);
    r := Some(s);
  }

  lemma BorrowStep(x: Limb, y: Limb, borrow: int, p: int)
    ensures (x - y - borrow) * p == x * p - y * p - borrow * p
    ensures (x - y - borrow + BASE) * p - 1 * (BASE * p) == x * p - y * p - borrow * p
  {
  }

  /** Schoolbook product. The inner accumulator is a 64-bit word. */
  method Mul(a: BigUint, b: BigUint) returns (r: BigUint)
    ensures Val(r) == Val(a) * Val(b)
  {
    if IsZero(a) || IsZero(b) {
      assert Val(a) == 0 || Val(b) == 0;
      return Zero();
    }
    var limbs: seq<Limb> := Zeros(|a| + |b|);
    LowZeros(limbs, |limbs|);
    for i := 0 to |a|
      invariant |limbs| >= |a| + |b|
      invariant Val(limbs) == Low(a, i) * Val(b)
    {
      limbs := MulRow(a, b, i, limbs);
    }
    r := Normalize(limbs);
  }

  /** Adds a[i] * b at limb i, carries included. */
  method MulRow(a: BigUint, b: BigUint, i: nat, acc: seq<Limb>) returns (limbs: seq<Limb>)
    requires i < |a| && |acc| >= |a| + |b|
    requires Val(acc) == Low(a, i) * Val(b)
    ensures |limbs| >= |acc|
    ensures Val(limbs) == Low(a, i + 1) * Val(b)
  {
    limbs := acc;
    RowRoom(a, b, i);
    HighLimbsZero(limbs, i + |b|);
    var carry: Word := 0;
    for j := 0 to |b|
      invariant |limbs| == |acc| && 0 <= carry < BASE
      invariant Val(limbs) + carry * Pow(BASE, i + j) == Val(acc) + a[i] * (Low(b, j) * Pow(BASE, i))
      invariant forall t :: i + |b| <= t < |limbs| ==> limbs[t] == 0
    {
      MulAccumulator(a[i], b[j], limbs[i + j], carry);
      var p: Word := a[i] * b[j] + limbs[i + j] + carry;
      LowUpdate(limbs, i + j, p % BASE, |limbs|);
      PowAdd(BASE, i, j);
      RowStep(a[i], b[j], limbs[i + j], carry, p, Pow(BASE, i), Pow(BASE, j), Low(b, j));
      limbs := limbs[i + j := p % BASE];
      carry := p / BASE;
    }
    RowDone(Low(a, i), a[i], Val(b), Pow(BASE, i));
    limbs := PropagateCarry(limbs, i + |b|, carry);
  }

  /** The `while carry > 0` loop after a row, growing the number if it has to. */
  method PropagateCarry(acc: seq<Limb>, start: nat, carryIn: Word) returns (limbs: seq<Limb>)
    requires start <= |acc| && carryIn < BASE
    requires forall t :: start <= t < |acc| ==> acc[t] == 0
    ensures |limbs| >= |acc|
    ensures Val(limbs) == Val(acc) + carryIn * Pow(BASE, start)
  {
    limbs := acc;
    var carry, k := carryIn, start;
    while carry > 0
      invariant 0 <= k <= |limbs| && |limbs| >= |acc| && 0 <= carry < BASE
      invariant Val(limbs) + carry * Pow(BASE, k) == Val(acc) + carryIn * Pow(BASE, start)
      invariant forall t :: k <= t < |limbs| ==> limbs[t] == 0
      decreases carry
    {
      if k >= |limbs| {
        ValSnoc(limbs, 0);
        limbs := limbs + [0];
      }
      var s: Word := limbs[k] + carry;
      LowUpdate(limbs, k, s % BASE, |limbs|);
      ModSmall(s, BASE);
      limbs := limbs[k := s % BASE];
      carry := s / BASE;
      k := k + 1;
    }
  }

  /** The rows below i reach no limb from i + |b| on. */
  lemma RowRoom(a: BigUint, b: BigUint, i: nat)
    ensures Low(a, i) * Val(b) < Pow(BASE, i + |b|)
  {
    LowBound(a, i);
    LowBound(b, |b|);
    PowAdd(BASE, i, |b|);
    MulLe(Low(a, i), Pow(BASE, i), Val(b));
    MulLt(Val(b), Pow(BASE, |b|), Pow(BASE, i));
  }

  /** The product accumulator never exceeds 64 bits, and the bound is attained. */
  lemma MulAccumulator(x: Limb, y: Limb, old_: Limb, carry: int)
    requires 0 <= carry < BASE
    ensures 0 <= x * y + old_ + carry <= 0xFFFF_FFFF_FFFF_FFFF
    ensures x == y == old_ == carry == BASE - 1 ==> x * y + old_ + carry == 0xFFFF_FFFF_FFFF_FFFF
  {
    MulLe(x, BASE - 1, y);
    MulLe(y, BASE - 1, BASE - 1);
    MulSign(x, y);
    assert (BASE - 1) * y == y * (BASE - 1);
  }

  lemma RowStep(x: int, y: int, l: int, c: int, p: nat, pi: int, pj: int, low: int)
    requires p == x * y + l + c
    ensures ((p % BASE) - l) * (pi * pj) + (p / BASE) * (BASE * (pi * pj))
            == c * (pi * pj) + x * ((low + y * pj) * pi) - x * (low * pi)
  {
    var w := pi * pj;
    CarryStep(p, w);
    assert ((p % BASE) - l) * w == (p % BASE) * w - l * w;
    assert p * w == (x * y) * w + l * w + c * w;
    assert (x * y) * w == x * ((y * pj) * pi);
    assert (low + y * pj) * pi == low * pi + (y * pj) * pi;
  }

  lemma RowDone(low: int, x: int, v: int, p: int)
    ensures low * v + x * (v * p) == (low + x * p) * v
  {
    assert x * (v * p) == (x * p) * v;
  }
}

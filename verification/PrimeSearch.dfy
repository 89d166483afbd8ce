/** What the primality test accepts, and the search for a random prime that relies on it. */
module PrimeSearch {
  import opened Results
  import opened Arith
  import opened Bits
  import opened NumberTheory
  import opened Octets
  import opened Limbs
  import opened BigNum
  import opened BigBytes
  import opened Primality

  // ----- no small divisor -----

  /** Divisibility is transitive. */
  lemma DividesTrans(c: int, d: int, a: int)
    requires c > 0 && d > 0 && Divides(c, d) && Divides(d, a)
    ensures Divides(c, a)
  {
    DivMod(a, d);
    DividesMul(c, d, a / d);
  }

  /** An odd number from 3 to 100 is a multiple of 3, 5 or 7, or one of the other trial divisors. */
  lemma OddBelow101(d: nat)
    requires 1 < d <= 100 && d % 2 == 1
    ensures d % 3 == 0 || d % 5 == 0 || d % 7 == 0 || exists i :: 3 <= i < |SMALL| && SMALL[i] == d
  {
    if d % 3 != 0 && d % 5 != 0 && d % 7 != 0 {
      if d < 50 { FirstHalf(d); } else { SecondHalf(d); }
    }
  }

  lemma FirstHalf(d: nat)
    requires 1 < d < 50 && d % 2 == 1 && d % 3 != 0 && d % 5 != 0 && d % 7 != 0
    ensures exists i :: 3 <= i < |SMALL| && SMALL[i] == d
  {
    var k := d / 2;
    assert d == 2 * k + 1 && k < 25;
    assert SMALL[3] == 11 && SMALL[4] == 13 && SMALL[5] == 17 && SMALL[6] == 19 && SMALL[7] == 23 && SMALL[8] == 29;
    assert SMALL[9] == 31 && SMALL[10] == 37 && SMALL[11] == 41 && SMALL[12] == 43 && SMALL[13] == 47;
  }

  lemma SecondHalf(d: nat)
    requires 50 <= d <= 100 && d % 2 == 1 && d % 3 != 0 && d % 5 != 0 && d % 7 != 0
    ensures exists i :: 3 <= i < |SMALL| && SMALL[i] == d
  {
    var k := d / 2;
    assert d == 2 * k + 1 && k < 50;
    assert SMALL[14] == 53 && SMALL[15] == 59 && SMALL[16] == 61 && SMALL[17] == 67 && SMALL[18] == 71;
    assert SMALL[19] == 73 && SMALL[20] == 79 && SMALL[21] == 83 && SMALL[22] == 89 && SMALL[23] == 97;
  }

  /** Every divisor from 2 to 100 is even or has a trial divisor as a factor. */
  lemma TrialFactor(d: nat) returns (i: nat)
    requires 1 < d <= 100 && d % 2 == 1
    ensures i < |SMALL| && SMALL[i] <= d && Divides(SMALL[i], d)
  {
    OddBelow101(d);
    if d % 3 == 0 {
      i := 0;
    } else if d % 5 == 0 {
      i := 1;
    } else if d % 7 == 0 {
      i := 2;
    } else {
      i :| 3 <= i < |SMALL| && SMALL[i] == d;
      MultipleMod(1, d);
    }
  }

  /** For an even number base 2 gives an even residue, which is neither 1 nor -1. */
  lemma EvenRejected(n: nat)
    requires n > 2 && n % 2 == 0
    ensures !ProbablePrime(n)
  {
    var d := n - 1;
    assert OddPart(d) == d && Twos(d) == 0;
    SquareAgain(n, d, 2, 0);
    EvenPower(d);
    var x := Pow(2, d);
    DivMod(x, n);
    EvenRest(x, n, x / n, x % n);
    assert BASES[0] == 2 && (PassesRounds(n, |BASES|) ==> StrongProbablePrime(n, d, 0, BASES[0]));
    if IsSmallPrime(n) {
      var i :| 0 <= i < |SMALL| && n == SMALL[i];
      SmallOdd(i);
    }
  }

  lemma EvenPower(d: nat)
    requires d > 0
    ensures Pow(2, d) % 2 == 0
  {
  }

  lemma EvenRest(x: int, n: int, q: int, r: int)
    requires n % 2 == 0 && x % 2 == 0 && x == q * n + r
    ensures r % 2 == 0
  {
    var h := n / 2;
    assert n == 2 * h;
    assert q * n == 2 * (q * h) by { TwiceOut(q, h); }
  }

  lemma TwiceOut(q: int, h: int)
    ensures q * (2 * h) == 2 * (q * h)
  {
  }

  lemma SmallOdd(i: nat)
    requires i < |SMALL|
    ensures SMALL[i] % 2 == 1
  {
  }

  lemma SmallGrow(i: nat, j: nat)
    requires i < |SMALL| && j < |SMALL| && SMALL[j] < SMALL[i]
    ensures j < i
  {
  }

  /** Whatever is accepted has no divisor from 2 to 100 but itself. */
  lemma AcceptedHasNoSmallDivisor(n: nat, d: nat)
    requires n > 1 && ProbablePrime(n) && 1 < d < n && Divides(d, n)
    ensures d > 100
  {
    if d <= 100 {
      if n % 2 == 0 { EvenRejected(n); }
      if d % 2 == 0 {
        DividesTrans(2, d, n);
      } else {
        var j := TrialFactor(d);
        DividesTrans(SMALL[j], d, n);
        if IsSmallPrime(n) {
          var i :| 0 <= i < |SMALL| && SurvivesTrial(n, i) && n == SMALL[i];
          SmallGrow(i, j);
        }
      }
    }
  }

  /** Below 101 * 101 the test accepts the primes, and besides them only 1. */
  lemma ExactBelow10201(n: nat)
    requires n < 10201
    ensures ProbablePrime(n) <==> IsPrime(n) || n == 1
  {
    hide ProbablePrime;
    if IsPrime(n) { PrimesPass(n); }
    if n == 1 { OnePassesToo(); }
    if n == 0 { ZeroRejected(); }
    if n > 1 && ProbablePrime(n) {
      forall d | 2 <= d < n ensures !Divides(d, n) {
        if Divides(d, n) {
          AcceptedHasNoSmallDivisor(n, d);
          var e := n / d;
          DivMod(n, d);
          MulComm(e, d);
          Cofactor(n, d, e);
          AcceptedHasNoSmallDivisor(n, e);
          TooLarge(d, e);
        }
      }
    }
  }

  lemma TooLarge(d: nat, e: nat)
    requires d > 100 && e > 100
    ensures d * e >= 10201
  {
    MulLe(101, d, 101);
    MulLe(101, e, d);
  }

  lemma ZeroRejected()
    ensures !ProbablePrime(0)
  {
  }

  lemma Cofactor(n: nat, d: nat, e: int)
    requires 1 < d < n && n == d * e
    ensures 1 < e < n && Divides(e, n)
  {
    if e <= 0 { MulSign(d, -e); }
    MultipleMod(d, e);
    MulLt(1, d, e);
  }

  // ----- Miller-Rabin -----

  lemma RoundOf(n: nat, a: nat)
    requires n > 97 && ProbablePrime(n) && a in {2, 3, 5, 7, 11, 13, 23}
    ensures StrongProbablePrime(n, OddPart(n - 1), Twos(n - 1), a)
  {
    hide StrongProbablePrime, SurvivesTrial, IsSmallPrime;
    NotSmall(n);
    assert BASES[0] == 2 && BASES[1] == 3 && BASES[2] == 5 && BASES[3] == 7 && BASES[4] == 11 && BASES[5] == 13
        && BASES[6] == 23;
    var k := if a == 2 then 0 else if a == 3 then 1 else if a == 5 then 2 else if a == 7 then 3 else if a == 11 then 4
             else if a == 13 then 5 else 6;
    assert PassesRounds(n, |BASES|) && BASES[k] == a;
  }

  lemma StrongMeans(n: nat, d: nat, r: nat, a: nat)
    requires n > 0 && StrongProbablePrime(n, d, r, a)
    ensures Pow(a, d) % n == 1 || Pow(a, d) % n == n - 1
         || exists i: nat :: i < r && d * Pow(2, i) >= 0 && Pow(a, d * Pow(2, i)) % n == n - 1
  {
    SquareAgain(n, d, a, 0);
    hide Pow;
    if Squared(n, d, a, 0) != 1 && Squared(n, d, a, 0) != n - 1 {
      var i: nat :| (i == 0 || i < r) && Squared(n, d, a, i) == n - 1;
      MulSign(d, Pow(2, i));
      assert Pow(a, d * Pow(2, i)) % n == n - 1;
    }
  }

  /** An accepted number above 97 is a strong probable prime to the bases 2, 3, 5, 7, 11, 13 and 23: with
      n - 1 = d * 2^r and d odd, a^d is 1 modulo n, or some a^(d * 2^i) with i below r is -1. */
  lemma AcceptedIsStrong(n: nat, d: nat, r: nat, a: nat)
    requires n > 97 && ProbablePrime(n) && a in {2, 3, 5, 7, 11, 13, 23}
    requires d % 2 == 1 && n - 1 == d * Pow(2, r)
    ensures Pow(a, d) % n == 1 || Pow(a, d) % n == n - 1
         || exists i: nat :: i < r && d * Pow(2, i) >= 0 && Pow(a, d * Pow(2, i)) % n == n - 1
  {
    hide *;
    OddPartUnique(n - 1, d, r);
    RoundOf(n, a);
    StrongMeans(n, d, r, a);
  }

  lemma NotSmall(n: nat)
    requires n > 97
    ensures !IsSmallPrime(n)
  {
    if IsSmallPrime(n) {
      var i :| 0 <= i < |SMALL| && n == SMALL[i];
      SmallBelow98(i);
    }
  }

  lemma SmallBelow98(i: nat)
    requires i < |SMALL|
    ensures SMALL[i] <= 97
  {
  }

  // ----- the search -----

  datatype SearchError = TooSmall | NoneFound

  function ByteCount(bits: nat): nat {
    (bits + 7) / 8
  }

  /** How many of the first byte's bits are not wanted. */
  function Excess(bits: nat): (e: nat)
    ensures e < 8
  {
    ByteCount(bits) * 8 - bits
  }

  /** The first byte with the bits above `bits` cleared and the top one set. */
  function TopByte(b: Byte, excess: nat): (r: Byte)
    requires excess < 8
    ensures Pow(2, 7 - excess) <= r < Pow(2, 8 - excess)
  {
    SmallPowers();
    OrBound(b, 0x80, 8);
    var full := Or(b, 0x80);
    if excess == 0 then full
    else
      TopBits(full, excess);
      PowMono(2, 8 - excess, 8);
      Or(And(full, 0xff / Pow(2, excess)), Pow(2, 7 - excess))
  }

  lemma SmallPowers()
    ensures Pow(2, 0) == 1 && Pow(2, 1) == 2 && Pow(2, 2) == 4 && Pow(2, 3) == 8 && Pow(2, 4) == 16
    ensures Pow(2, 5) == 32 && Pow(2, 6) == 64 && Pow(2, 7) == 128 && Pow(2, 8) == 256
  {
    assert Pow(2, 1) == 2 && Pow(2, 2) == 4;
    assert Pow(2, 3) == 8 && Pow(2, 4) == 16;
    assert Pow(2, 5) == 32 && Pow(2, 6) == 64;
  }

  lemma TopBits(full: nat, excess: nat)
    requires 0 < excess < 8
    ensures var r := Or(And(full, 0xff / Pow(2, excess)), Pow(2, 7 - excess));
            Pow(2, 7 - excess) <= r < Pow(2, 8 - excess)
  {
    hide Or, And, Pow;
    SmallPowers();
    assert 0xff / Pow(2, excess) == Pow(2, 8 - excess) - 1;
    AndMask(full, 8 - excess);
    PowStrict(2, 7 - excess, 8 - excess);
    OrBound(And(full, Pow(2, 8 - excess) - 1), Pow(2, 7 - excess), 8 - excess);
  }

  /** The number made of the random bytes: first and last byte adjusted. */
  function Adjusted(buf: seq<Byte>, bits: nat): (r: seq<Byte>)
    requires |buf| == ByteCount(bits) && bits >= 16
    ensures |r| == |buf|
  {
    LastByteOdd(buf[|buf| - 1]);
    [TopByte(buf[0], Excess(bits))] + buf[1..|buf| - 1] + [Or(buf[|buf| - 1], 1)]
  }

  lemma LastByteOdd(b: Byte)
    ensures Or(b, 1) < 256 && Or(b, 1) % 2 == 1
  {
    SmallPowers();
    OrBound(b, 1, 8);
  }

  lemma ModTwice(x: nat, p: nat)
    requires p > 0
    ensures (x % (2 * p)) % p == x % p
  {
    DivMod(x, 2 * p);
    var q, r := x / (2 * p), x % (2 * p);
    assert q * (2 * p) == (2 * q) * p by { TwiceOut(q, p); MulAssoc(2, q, p); }
    ModMultiple(r, 2 * q, p);
  }

  /** Setting a bit changes none below it. */
  lemma LowKept(x: nat, w: nat)
    ensures Or(x, Pow(2, w)) % Pow(2, w) == x % Pow(2, w)
  {
    hide Or, Pow, Bit;
    OrBit(x, w);
    ModMultiple(x, 1, Pow(2, w));
  }

  lemma TopByteKeeps(b: Byte, excess: nat)
    requires excess < 8
    ensures TopByte(b, excess) % Pow(2, 7 - excess) == b % Pow(2, 7 - excess)
  {
    hide Or, And, Pow;
    SmallPowers();
    LowKept(b, 7);
    var full, w: nat := Or(b, 0x80), 7 - excess;
    if excess > 0 {
      assert 0xff / Pow(2, excess) == Pow(2, w + 1) - 1 && Pow(2, w + 1) == 2 * Pow(2, w);
      AndMask(full, w + 1);
      LowKept(And(full, Pow(2, w + 1) - 1), w);
      ModTwice(full, Pow(2, w));
      LowBits(full, b, w);
    }
  }

  lemma LowBits(x: nat, y: nat, w: nat)
    requires w < 7 && x % 128 == y % 128
    ensures x % Pow(2, w) == y % Pow(2, w)
  {
    hide Pow;
    SmallPowers();
    ModTwice(x, 64);
    ModTwice(y, 64);
    ModTwice(x, 32);
    ModTwice(y, 32);
    ModTwice(x, 16);
    ModTwice(y, 16);
    ModTwice(x, 8);
    ModTwice(y, 8);
    ModTwice(x, 4);
    ModTwice(y, 4);
    ModTwice(x, 2);
    ModTwice(y, 2);
    ModTwice(x, 1);
    ModTwice(y, 1);
  }

  /** All other bits of a candidate are the random ones. */
  lemma CandidateKeeps(buf: seq<Byte>, bits: nat)
    requires |buf| == (bits + 7) / 8 && bits >= 16
    ensures var r, k := Adjusted(buf, bits), |buf|;
            && r[1..k - 1] == buf[1..k - 1]
            && r[k - 1] == (if buf[k - 1] % 2 == 1 then buf[k - 1] else buf[k - 1] + 1)
            && r[0] % Pow(2, 7 - (8 * k - bits)) == buf[0] % Pow(2, 7 - (8 * k - bits))
  {
    hide TopByte, Pow;
    SmallPowers();
    TopByteKeeps(buf[0], Excess(bits));
    OrBit(buf[|buf| - 1], 0);
  }

  /** A candidate has exactly the bits asked for, and is odd. */
  lemma CandidateShape(buf: seq<Byte>, bits: nat)
    requires |buf| == ByteCount(bits) && bits >= 16
    ensures var n := Os2ip(Adjusted(buf, bits)); Pow(2, bits - 1) <= n < Pow(2, bits) && n % 2 == 1
  {
    hide TopByte, Os2ip, Or, Pow;
    LastByteOdd(buf[|buf| - 1]);
    ShapeOf(Adjusted(buf, bits), bits);
  }

  lemma ShapeOf(s: seq<Byte>, bits: nat)
    requires |s| == ByteCount(bits) && bits >= 16
    requires Pow(2, 7 - Excess(bits)) <= s[0] < Pow(2, 8 - Excess(bits)) && s[|s| - 1] % 2 == 1
    ensures Pow(2, bits - 1) <= Os2ip(s) < Pow(2, bits) && Os2ip(s) % 2 == 1
  {
    hide *;
    Positions(bits);
    TopSplit(s);
    LastParity(s);
    BitsOf(7 - Excess(bits), |s| - 1);
    BitsOf(8 - Excess(bits), |s| - 1);
    TopDecides(Pow(2, 7 - Excess(bits)), s[0], Pow(2, 8 - Excess(bits)), Pow(256, |s| - 1), Os2ip(s[1..]));
  }

  /** The first byte's share of the number, and the rest. */
  lemma TopSplit(s: seq<Byte>)
    requires s != []
    ensures Os2ip(s) == s[0] * Pow(256, |s| - 1) + Os2ip(s[1..]) && Os2ip(s[1..]) < Pow(256, |s| - 1)
  {
    hide Os2ip, Pow;
    assert [s[0]] + s[1..] == s;
    Os2ipConcat([s[0]], s[1..]);
    Os2ipBound(s[1..]);
    OneByte(s[0]);
  }

  lemma LastParity(s: seq<Byte>)
    requires s != []
    ensures Os2ip(s) % 2 == s[|s| - 1] % 2
  {
    var k := |s| - 1;
    assert s[..k] + [s[k]] == s;
    Os2ipSnoc(s[..k], s[k]);
  }

  lemma BitsOf(e: nat, k: nat)
    ensures Pow(2, e + 8 * k) == Pow(2, e) * Pow(256, k)
  {
    hide Pow;
    ByteBits(k);
    PowAdd(2, e, 8 * k);
  }

  lemma Positions(bits: nat)
    requires bits >= 16
    ensures ByteCount(bits) >= 2 && bits == (8 - Excess(bits)) + 8 * (ByteCount(bits) - 1)
  {
  }

  lemma TopDecides(lo: int, top: int, hi: int, p: int, rest: int)
    requires lo <= top < hi && 0 <= rest < p
    ensures lo * p <= top * p + rest < hi * p
  {
    MulLe(lo, top, p);
    MulLe(top + 1, hi, p);
    assert (top + 1) * p == top * p + p;
  }

  lemma OneByte(b: Byte)
    ensures Os2ip([b]) == b
  {
    assert [b][..0] == [];
  }

  ghost predicate Draws(draws: seq<seq<Byte>>, bits: nat) {
    forall i :: 0 <= i < |draws| ==> |draws[i]| == ByteCount(bits)
  }

  /** random_prime, the random bytes of each try given: the first candidate that passes, if any. */
  method RandomPrime(bits: nat, draws: seq<seq<Byte>>) returns (r: Result<BigUint, SearchError>)
    requires Draws(draws, bits)
    ensures bits < 16 ==> r == Err(TooSmall)
    ensures bits >= 16 && r.Ok? ==>
              exists i :: 0 <= i < |draws| && Val(r.value) == Os2ip(Adjusted(draws[i], bits))
                          && ProbablePrime(Val(r.value))
                          && forall j :: 0 <= j < i ==> !ProbablePrime(Os2ip(Adjusted(draws[j], bits)))
    ensures bits >= 16 && r.Err? ==>
              r == Err(NoneFound) && forall j :: 0 <= j < |draws| ==> !ProbablePrime(Os2ip(Adjusted(draws[j], bits)))
    ensures r.Ok? ==> bits > 0 && Found(Val(r.value), bits)
  {
    hide ProbablePrime, Adjusted, Os2ip;
    if bits < 16 { return Err(TooSmall); }
    for t := 0 to |draws|
      invariant forall j :: 0 <= j < t ==> !ProbablePrime(Os2ip(Adjusted(draws[j], bits)))
    {
      var bytes := Adjusted(draws[t], bits);
      var n := FromBeBytes(bytes);
      var yes := IsProbablePrime(n);
      if yes {
        CandidateShape(draws[t], bits);
        FoundIsGood(Val(n), bits);
        return Ok(n);
      }
    }
    return Err(NoneFound);
  }

  /** What a number found by the search is: of exactly that size, odd, and without a proper divisor from 2 to 100. */
  ghost predicate Found(n: nat, bits: nat)
    requires bits > 0
  {
    && Pow(2, bits - 1) <= n < Pow(2, bits) && n % 2 == 1
    && (forall d: nat :: 1 < d < n && Divides(d, n) ==> d > 100)
  }

  lemma FoundIsGood(n: nat, bits: nat)
    requires bits >= 16 && Pow(2, bits - 1) <= n < Pow(2, bits) && n % 2 == 1 && ProbablePrime(n)
    ensures Found(n, bits)
  {
    hide ProbablePrime, Pow;
    AtLeastTwo(bits);
    forall d: nat | 1 < d < n && Divides(d, n) ensures d > 100 {
      AcceptedHasNoSmallDivisor(n, d);
    }
  }

  lemma AtLeastTwo(bits: nat)
    requires bits >= 16
    ensures Pow(2, bits - 1) >= 2
  {
    PowMono(2, 1, bits - 1);
    PowOne(2);
  }
}

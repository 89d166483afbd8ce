/** PKCS#1 v1.5 signatures with SHA-256 (sections 8.2 and 9.2 of RFC 8017), on the bignum paths. */
module Rsa {
  import opened Results
  import opened Arith
  import opened NumberTheory
  import opened Octets
  import opened Limbs
  import opened BigNum
  import opened BigBytes
  import opened BigModular
  import Der

  datatype Crt = Crt(p: BigUint, q: BigUint, dP: BigUint, dQ: BigUint, qInv: BigUint)

  datatype RsaKey = RsaKey(n: BigUint, e: BigUint, d: BigUint, k: nat, crt: Option<Crt>)

  datatype RsaPublicKey = RsaPublicKey(n: BigUint, e: BigUint, k: nat)

  datatype SignError = DigestLength | ModulusTooSmall

  const DIGEST_INFO_PREFIX: seq<Byte> :=
    [0x30, 0x31, 0x30, 0x0d, 0x06, 0x09, 0x60, 0x86, 0x48, 0x01, 0x65, 0x03, 0x04, 0x02, 0x01,
     0x05, 0x00, 0x04, 0x20]

  /** Size in bytes of a modulus. */
  function ModulusBytes(n: BigUint): (k: nat)
    ensures Val(n) < Pow(256, k)
    ensures Val(n) > 0 ==> k > 0 && Pow(256, k - 1) <= Val(n)
  {
    var k := (BitLength(n) + 7) / 8;
    ByteBits(k);
    PowMono(2, BitLength(n), 8 * k);
    if Val(n) > 0 then
      ByteBits(k - 1);
      PowMono(2, 8 * (k - 1), BitLength(n) - 1);
      k
    else k
  }

  // ----- the padded block -----

  function Ones(n: nat): (s: seq<Byte>)
    ensures |s| == n && forall i :: 0 <= i < n ==> s[i] == 0xff
  {
    seq(n, _ => 0xff)
  }

  /** EM = 00 01 FF..FF 00 DigestInfo, with at least eight FF bytes. */
  function PaddedBlock(hash: seq<Byte>, k: nat): (em: seq<Byte>)
    requires |hash| == 32 && k >= 62
    ensures |em| == k
  {
    [0, 1] + Ones(k - 54) + [0] + (DIGEST_INFO_PREFIX + hash)
  }

  /** id-sha256, 2.16.840.1.101.3.4.2.1. */
  function Sha256Id(): seq<Byte> {
    Der.ObjectId([2, 16, 840, 1, 101, 3, 4, 2, 1])
  }

  lemma Sha256IdBytes()
    ensures Sha256Id() == [6, 9, 0x60, 0x86, 0x48, 1, 0x65, 3, 4, 2, 1]
  {
    hide Der.ArcBytes, Der.Base128;
    var arcs: seq<nat> := [2, 16, 840, 1, 101, 3, 4, 2, 1];
    FirstArcs();
    Der.ArcsCons(840, [1, 101, 3, 4, 2, 1]);
    assert arcs[2..] == [840] + [1, 101, 3, 4, 2, 1];
    SmallArcs();
    var content := Der.Base128(96) + Der.ArcBytes(arcs[2..]);
    assert content == [0x60] + ([0x86, 0x48] + [1, 101, 3, 4, 2, 1]);
    assert Der.Tlv(6, content) == [6, 9] + content;
  }

  lemma FirstArcs()
    ensures Der.Base128(96) == [0x60] && Der.Base128(840) == [0x86, 0x48]
  {
    assert Der.Base128Front(6) == [0x86];
  }

  lemma SmallArcs()
    ensures Der.ArcBytes([1, 101, 3, 4, 2, 1]) == [1, 101, 3, 4, 2, 1]
  {
    Der.ArcsCons(1, [101, 3, 4, 2, 1]);
    Der.ArcsCons(101, [3, 4, 2, 1]);
    Der.ArcsCons(3, [4, 2, 1]);
    Der.ArcsCons(4, [2, 1]);
    Der.ArcsCons(2, [1]);
    Der.ArcsCons(1, []);
  }

  /** The DER of a DigestInfo: SHA-256 with NULL parameters, and the digest. */
  function DigestInfo(hash: seq<Byte>): seq<Byte> {
    Der.Tlv(0x30, Der.Tlv(0x30, Sha256Id() + Der.Tlv(0x05, [])) + Der.Tlv(0x04, hash))
  }

  lemma ShortTlv(tag: Byte, v: seq<Byte>)
    requires |v| < 128
    ensures Der.Tlv(tag, v) == [tag, |v|] + v
  {
  }

  lemma PrefixIsDigestInfo(hash: seq<Byte>)
    requires |hash| == 32
    ensures DIGEST_INFO_PREFIX + hash == DigestInfo(hash)
  {
    hide Sha256Id, Der.Tlv;
    Sha256IdBytes();
    var id: seq<Byte> := [6, 9, 0x60, 0x86, 0x48, 1, 0x65, 3, 4, 2, 1];
    ShortTlv(0x05, []);
    var alg := id + ([5, 0] + []);
    ShortTlv(0x30, alg);
    ShortTlv(0x04, hash);
    var inner := ([0x30, |alg|] + alg) + ([4, 32] + hash);
    ShortTlv(0x30, inner);
    assert DIGEST_INFO_PREFIX + hash == [0x30, |inner|] + inner;
  }

  /** The block is 00 01, FF up to the last 52 bytes, 00, and the DigestInfo. */
  lemma BlockLayout(hash: seq<Byte>, k: nat)
    requires |hash| == 32 && k >= 62
    ensures var em := PaddedBlock(hash, k);
            && em[0] == 0 && em[1] == 1 && em[k - 52] == 0 && em[k - 51..] == DigestInfo(hash)
            && forall i :: 2 <= i < k - 52 ==> em[i] == 0xff
  {
    hide DigestInfo;
    PrefixIsDigestInfo(hash);
    assert PaddedBlock(hash, k)[k - 51..] == DIGEST_INFO_PREFIX + hash;
  }

  lemma PaddedBlockBound(hash: seq<Byte>, k: nat)
    requires |hash| == 32 && k >= 62
    ensures Os2ip(PaddedBlock(hash, k)) < Pow(256, k - 1)
  {
    var em := PaddedBlock(hash, k);
    var rest := em[1..];
    assert em == ZeroBytes(1) + rest;
    Os2ipPad(1, rest);
    Os2ipBound(rest);
  }

  /** The signature as a value: EM raised to d modulo n, in k bytes. */
  ghost function SignatureOf(n: nat, d: nat, k: nat, hash: seq<Byte>): seq<Byte>
    requires |hash| == 32 && k >= 62
  {
    I2osp(if n == 0 then 0 else Pow(Os2ip(PaddedBlock(hash, k)), d) % n, k)
  }

  /** What acceptance means: s below n, and s^e modulo n is the padded block. */
  ghost predicate Accepts(n: nat, e: nat, k: nat, hash: seq<Byte>, sig: seq<Byte>)
    requires |hash| == 32
  {
    |sig| == k && k >= 62 && Os2ip(sig) < n
    && Pow(Os2ip(sig), e) % n == Os2ip(PaddedBlock(hash, k))
  }

  // ----- signer and verifier -----

  method SignDigest(key: RsaKey, hash: seq<Byte>) returns (r: Result<seq<Byte>, SignError>)
    ensures |hash| != 32 ==> r == Err(DigestLength)
    ensures |hash| == 32 && key.k < 62 ==> r == Err(ModulusTooSmall)
    ensures |hash| == 32 && key.k >= 62 ==> r == Ok(SignatureOf(Val(key.n), Val(key.d), key.k, hash))
  {
    if |hash| != 32 { return Err(DigestLength); }
    var t := DIGEST_INFO_PREFIX + hash;
    var k := key.k;
    if k < |t| + 11 { return Err(ModulusTooSmall); }
    var em: seq<Byte> := ZeroBytes(k)[1 := 0x01];
    var psLen := k - |t| - 3;
    for i := 0 to psLen
      invariant em == [0, 1] + Ones(i) + ZeroBytes(k - 2 - i)
    {
      em := em[2 + i := 0xff];
    }
    em := em[2 + psLen := 0x00];
    em := em[..3 + psLen] + t;
    assert em == PaddedBlock(hash, k);
    var m := FromBeBytes(em);
    var s := ModPow(m, key.d, key.n);
    var out := ToBeBytesPadded(s, k);
    r := Ok(out);
  }

  method VerifyDigest(key: RsaPublicKey, hash: seq<Byte>, signature: seq<Byte>) returns (ok: bool)
    requires |hash| == 32 && key.k == ModulusBytes(key.n)
    ensures ok <==> Accepts(Val(key.n), Val(key.e), key.k, hash, signature)
  {
    var k := key.k;
    if |signature| != k || k < 11 { return false; }
    var s := FromBeBytes(signature);
    var c := Cmp(s, key.n);
    if c != Less { return false; }
    var m := ModPow(s, key.e, key.n);
    var em := ToBeBytesPadded(m, k);
    ModSmall(Val(m), Pow(256, k));
    Os2ipOfI2osp(Val(m), k);
    ok := ScanBlock(em, hash);
    if k >= 62 && Os2ip(em) == Os2ip(PaddedBlock(hash, k)) {
      Os2ipInjective(em, PaddedBlock(hash, k));
    }
  }

  /** The verifier's scan of the recovered block accepts the padded block and nothing else. */
  method ScanBlock(em: seq<Byte>, hash: seq<Byte>) returns (ok: bool)
    requires |em| >= 11 && |hash| == 32
    ensures ok <==> |em| >= 62 && em == PaddedBlock(hash, |em|)
  {
    if em[0] != 0x00 || em[1] != 0x01 { return false; }
    var i := 2;
    while i < |em| && em[i] == 0xff
      invariant 2 <= i <= |em|
      invariant forall j :: 2 <= j < i ==> em[j] == 0xff
    {
      i := i + 1;
    }
    if |em| >= 62 { StopOfPadding(em, hash, i); }
    if i < 10 { return false; }
    if i >= |em| || em[i] != 0x00 { return false; }
    i := i + 1;
    var t := em[i..];
    if |t| != |DIGEST_INFO_PREFIX| + 32 { return false; }
    assert em == [0, 1] + Ones(i - 3) + [0] + t;
    if t[..|DIGEST_INFO_PREFIX|] != DIGEST_INFO_PREFIX { return false; }
    assert t == t[..|DIGEST_INFO_PREFIX|] + t[|DIGEST_INFO_PREFIX|..];
    ok := t[|DIGEST_INFO_PREFIX|..] == hash;
  }

  lemma StopOfPadding(em: seq<Byte>, hash: seq<Byte>, i: nat)
    requires |em| >= 62 && |hash| == 32 && 2 <= i <= |em|
    requires forall j :: 2 <= j < i ==> em[j] == 0xff
    requires i < |em| ==> em[i] != 0xff
    ensures em == PaddedBlock(hash, |em|) ==> i == |em| - 52 && em[i] == 0 && em[i + 1..] == DIGEST_INFO_PREFIX + hash
  {
    if em == PaddedBlock(hash, |em|) {
      var z := |em| - 52;
      assert em[z] == 0;
      assert forall j :: 2 <= j < z ==> em[j] == 0xff;
      assert em[z + 1..] == DIGEST_INFO_PREFIX + hash;
    }
  }

  // ----- the RSA identity -----

  /** Multiplying an exponent by anything 1 modulo r - 1 changes no residue modulo a prime r. */
  lemma FermatPower(r: nat, m: nat, c: nat)
    requires IsPrime(r)
    ensures c * (r - 1) >= 0
    ensures Pow(m, 1 + c * (r - 1)) % r == m % r
  {
    MulSign(c, r - 1);
    var x := Pow(m, c * (r - 1));
    if Divides(r, m) {
      DividesMul(r, m, x);
    } else {
      Fermat(r, m);
      PowMul(m, r - 1, c);
      assert (r - 1) * c == c * (r - 1);
      ModSmall(1, r);
      PowCong(Pow(m, r - 1), 1, c, r);
      OnePow(c);
      CongMul(m, m, x, 1, r);
    }
  }

  ghost predicate KeyPair(p: nat, q: nat, e: nat, d: nat) {
    IsPrime(p) && IsPrime(q) && p != q && (p - 1) * (q - 1) > 0 && (e * d) % ((p - 1) * (q - 1)) == 1
  }

  /** e and d undo each other modulo p * q, also on multiples of p or q. */
  lemma RsaIdentity(p: nat, q: nat, e: nat, d: nat, m: nat)
    requires KeyPair(p, q, e, d)
    ensures p * q > 0 && e * d >= 0
    ensures Pow(m, e * d) % (p * q) == m % (p * q)
  {
    MulSign(p, q);
    MulSign(e, d);
    var phi := (p - 1) * (q - 1);
    var t := (e * d) / phi;
    DivMod(e * d, phi);
    DivPositive(e * d, phi);
    var x := Pow(m, e * d);
    MulSign(t, q - 1);
    MulSign(t, p - 1);
    MulAssoc(t, p - 1, q - 1);
    FermatPower(q, m, t * (p - 1));
    MulComm(p - 1, q - 1);
    MulAssoc(t, q - 1, p - 1);
    FermatPower(p, m, t * (q - 1));
    CongDiff(x, m, p);
    CongDiff(x, m, q);
    DistinctPrimesCoprime(p, q);
    CoprimeProductDivides(p, q, x - m);
    CongDiff(x, m, p * q);
  }

  lemma RsaInverse(p: nat, q: nat, e: nat, d: nat, m: nat)
    requires KeyPair(p, q, e, d)
    ensures p * q > 0
    ensures m < p * q ==> Pow(Pow(m, d) % (p * q), e) % (p * q) == m
    ensures m < p * q ==> Pow(Pow(m, e) % (p * q), d) % (p * q) == m
  {
    var n := p * q;
    RsaIdentity(p, q, e, d, m);
    if m < n {
      PowModBase(Pow(m, d), e, n);
      PowModBase(Pow(m, e), d, n);
      PowMul(m, d, e);
      PowMul(m, e, d);
      assert d * e == e * d;
      ModSmall(m, n);
    }
  }

  /** The facts every use of a key pair starts from. */
  lemma BlockFits(n: BigUint, k: nat, hash: seq<Byte>)
    requires |hash| == 32 && k == ModulusBytes(n) && k >= 62
    ensures 0 < Val(n) < Pow(256, k) && Os2ip(PaddedBlock(hash, k)) < Val(n)
  {
    hide PaddedBlock, Os2ip, Val, ModulusBytes;
    PaddedBlockBound(hash, k);
    if Val(n) == 0 { ZeroHasNoBytes(n); }
  }

  lemma ZeroHasNoBytes(n: BigUint)
    requires Val(n) == 0
    ensures ModulusBytes(n) == 0
  {
    assert BitLength(n) == 0;
  }

  /** The signature made is accepted. */
  lemma SignatureAccepted(n: nat, k: nat, p: nat, q: nat, e: nat, d: nat, hash: seq<Byte>)
    requires KeyPair(p, q, e, d) && n == p * q && |hash| == 32 && k >= 62
    requires 0 < n < Pow(256, k) && Os2ip(PaddedBlock(hash, k)) < n
    ensures Accepts(n, e, k, hash, SignatureOf(n, d, k, hash))
  {
    var m := Os2ip(PaddedBlock(hash, k));
    RsaInverse(p, q, e, d, m);
    hide PaddedBlock, Os2ip, I2osp, Pow, KeyPair;
    var s := Pow(m, d) % n;
    Os2ipOfI2osp(s, k);
    ModSmall(s, Pow(256, k));
  }

  /** Nothing else is accepted. */
  lemma OnlySignatureAccepted(n: nat, k: nat, p: nat, q: nat, e: nat, d: nat, hash: seq<Byte>, sig: seq<Byte>)
    requires KeyPair(p, q, e, d) && n == p * q && |hash| == 32 && Accepts(n, e, k, hash, sig)
    ensures sig == SignatureOf(n, d, k, hash)
  {
    RsaInverse(p, q, e, d, Os2ip(sig));
    hide PaddedBlock, Os2ip, I2osp, Pow, KeyPair;
    I2ospOfOs2ip(sig);
  }

  /** The verifier accepts one byte string per digest: the signature the signer makes. */
  lemma AcceptsExactlyTheSignature(key: RsaKey, p: nat, q: nat, hash: seq<Byte>, sig: seq<Byte>)
    requires KeyPair(p, q, Val(key.e), Val(key.d)) && Val(key.n) == p * q
    requires key.k == ModulusBytes(key.n) && key.k >= 62 && |hash| == 32
    ensures Val(key.n) > 0
    ensures Accepts(Val(key.n), Val(key.e), key.k, hash, sig)
       <==> sig == SignatureOf(Val(key.n), Val(key.d), key.k, hash)
  {
    BlockFits(key.n, key.k, hash);
    hide *;
    SignatureAccepted(Val(key.n), key.k, p, q, Val(key.e), Val(key.d), hash);
    if Accepts(Val(key.n), Val(key.e), key.k, hash, sig) {
      OnlySignatureAccepted(Val(key.n), key.k, p, q, Val(key.e), Val(key.d), hash, sig);
    }
  }

  /** A signature is accepted for the digest it was made for and for no other. */
  lemma AcceptsOnlyItsDigest(key: RsaKey, p: nat, q: nat, hash: seq<Byte>, other: seq<Byte>)
    requires KeyPair(p, q, Val(key.e), Val(key.d)) && Val(key.n) == p * q
    requires key.k == ModulusBytes(key.n) && key.k >= 62 && |hash| == 32 && |other| == 32
    ensures Accepts(Val(key.n), Val(key.e), key.k, other, SignatureOf(Val(key.n), Val(key.d), key.k, hash))
       <==> other == hash
  {
    var n, e, d, k := Val(key.n), Val(key.e), Val(key.d), key.k;
    AcceptsExactlyTheSignature(key, p, q, hash, SignatureOf(n, d, k, hash));
    hide PaddedBlock, Os2ip, Pow, KeyPair, ModulusBytes, SignatureOf, Val;
    if Accepts(n, e, k, other, SignatureOf(n, d, k, hash)) {
      Os2ipInjective(PaddedBlock(other, k), PaddedBlock(hash, k));
      PaddedBlockEnds(other, k);
      PaddedBlockEnds(hash, k);
    }
  }

  lemma PaddedBlockEnds(hash: seq<Byte>, k: nat)
    requires |hash| == 32 && k >= 62
    ensures PaddedBlock(hash, k)[k - 32..] == hash
  {
  }
}

/** RSA keys in PKCS#1, PKCS#8 and SubjectPublicKeyInfo form, written and read back. */
module KeyCodec {
  import opened Results
  import opened Arith
  import opened NumberTheory
  import opened Octets
  import opened Limbs
  import opened BigNum
  import opened Rsa
  import opened PrimeRecovery
  import opened Der

  /** Size in bytes of an integer. */
  function ByteLen(v: nat): nat {
    if v == 0 then 0 else 1 + ByteLen(v / 256)
  }

  lemma {:induction false} ByteLenBounds(v: nat)
    requires v > 0
    ensures ByteLen(v) > 0 && Pow(256, ByteLen(v) - 1) <= v < Pow(256, ByteLen(v))
    decreases v
  {
    if v >= 256 {
      ByteLenBounds(v / 256);
      DivMod(v, 256);
    } else {
      PowOne(256);
    }
  }

  lemma ModulusBytesIsByteLen(n: BigUint)
    ensures ModulusBytes(n) == ByteLen(Val(n))
  {
    var v, k, l := Val(n), ModulusBytes(n), ByteLen(Val(n));
    if v > 0 {
      ByteLenBounds(v);
      if k < l { PowMono(256, k, l - 1); }
      if l < k { PowMono(256, l, k - 1); }
    }
  }

  // ----- writers, as values -----

  const RSA_OID: seq<Byte> := [0x06, 0x09, 0x2a, 0x86, 0x48, 0x86, 0xf7, 0x0d, 0x01, 0x01, 0x01]

  function AlgorithmId(): seq<Byte> {
    Tlv(0x30, RSA_OID + [0x05, 0x00])
  }

  /** rsaEncryption, 1.2.840.113549.1.1.1, with NULL parameters. */
  lemma AlgorithmIs()
    ensures AlgorithmId() == Tlv(0x30, ObjectId([1, 2, 840, 113549, 1, 1, 1]) + Tlv(0x05, []))
  {
    hide ArcBytes, Base128;
    var arcs: seq<nat> := [1, 2, 840, 113549, 1, 1, 1];
    ArcValues();
    ArcsCons(840, [113549, 1, 1, 1]);
    ArcsCons(113549, [1, 1, 1]);
    ThreeOnes();
    assert arcs[2..] == [840] + [113549, 1, 1, 1] && [113549] + [1, 1, 1] == [113549, 1, 1, 1];
    assert ArcBytes(arcs[2..]) == [0x86, 0x48] + ([0x86, 0xf7, 0x0d] + [1, 1, 1]);
    assert Tlv(0x05, []) == [5, 0];
    var content := Base128(42) + ArcBytes(arcs[2..]);
    assert Tlv(6, content) == [6, 9] + content == RSA_OID;
  }

  lemma ArcValues()
    ensures Base128(42) == [0x2a] && Base128(1) == [1] && Base128(840) == [0x86, 0x48]
    ensures Base128(113549) == [0x86, 0xf7, 0x0d]
  {
    assert Base128Front(6) == [0x86];
    assert Base128Front(887) == [0x86, 0xf7];
  }

  lemma ThreeOnes()
    ensures ArcBytes([1, 1, 1]) == [1, 1, 1]
  {
    hide Base128;
    ArcValues();
    ArcsCons(1, [1, 1]);
    ArcsCons(1, [1]);
    ArcsCons(1, []);
    NoArcs();
    assert [1] + [1, 1] == [1, 1, 1] && [1] + [1] == [1, 1];
  }

  lemma NoArcs()
    ensures ArcBytes([]) == []
  {
  }

  /** The integers p, q, dP, dQ, qInv at the end of an RSAPrivateKey; zeros when unknown. */
  function Tail(crt: Option<Crt>): (t: seq<nat>)
    ensures |t| == 5
  {
    match crt
    case None => [0, 0, 0, 0, 0]
    case Some(c) => [Val(c.p), Val(c.q), Val(c.dP), Val(c.dQ), Val(c.qInv)]
  }

  function Integers(vs: seq<nat>): seq<Byte> {
    if vs == [] then [] else IntegerTlv(vs[0]) + Integers(vs[1..])
  }

  function Pkcs1Der(n: nat, e: nat, d: nat, tail: seq<nat>): seq<Byte> {
    Tlv(0x30, Integers([0, n, e, d] + tail))
  }

  function Pkcs8Der(pkcs1: seq<Byte>): seq<Byte> {
    Tlv(0x30, IntegerTlv(0) + AlgorithmId() + Tlv(0x04, pkcs1))
  }

  function PublicDer(n: nat, e: nat): seq<Byte> {
    Tlv(0x30, Integers([n, e]))
  }

  /** src/crypto.rs wraps a public key in a SubjectPublicKeyInfo. */
  function SpkiDer(pub: seq<Byte>): seq<Byte> {
    Tlv(0x30, AlgorithmId() + Tlv(0x03, [0x00] + pub))
  }

  /** Length bytes as src/dkim.rs writes them: as many as the length needs. */
  function MinimalLength(len: nat): seq<Byte> {
    if len < 128 then [len] else
      var bytes := MinBytes(len);
      [(0x80 + |bytes|) % 256] + bytes
  }

  /** src/dkim.rs wraps a public key in a SubjectPublicKeyInfo. */
  function DkimSpkiDer(pub: seq<Byte>): seq<Byte> {
    var alg: seq<Byte> := [0x30, 0x0d] + RSA_OID + [0x05, 0x00];
    var bitString := [0x03] + MinimalLength(|pub| + 1) + [0x00] + pub;
    [0x30] + MinimalLength(|alg| + |bitString|) + alg + bitString
  }

  /** RSAPrivateKey, RSAPublicKey, PrivateKeyInfo and SubjectPublicKeyInfo, element by element (appendix A.1 of
      RFC 8017, section 2 of RFC 5958, section 4.1 of RFC 5280). */
  lemma KeyForms(n: nat, e: nat, d: nat, c: Crt, pkcs1: seq<Byte>, pub: seq<Byte>)
    ensures Pkcs1Der(n, e, d, Tail(Some(c)))
         == Tlv(0x30, IntegerTlv(0) + IntegerTlv(n) + IntegerTlv(e) + IntegerTlv(d) + IntegerTlv(Val(c.p))
                      + IntegerTlv(Val(c.q)) + IntegerTlv(Val(c.dP)) + IntegerTlv(Val(c.dQ)) + IntegerTlv(Val(c.qInv)))
    ensures PublicDer(n, e) == Tlv(0x30, IntegerTlv(n) + IntegerTlv(e))
    ensures Pkcs8Der(pkcs1) == Tlv(0x30, IntegerTlv(0) + AlgorithmId() + Tlv(0x04, pkcs1))
    ensures SpkiDer(pub) == Tlv(0x30, AlgorithmId() + Tlv(0x03, [0] + pub))
  {
    hide IntegerTlv, Tlv;
    var tail := Tail(Some(c));
    var vs := [0, n, e, d] + tail;
    IntegersOf(vs);
    assert vs == [0, n, e, d, Val(c.p), Val(c.q), Val(c.dP), Val(c.dQ), Val(c.qInv)];
    assert Laid(vs, 1) == IntegerTlv(0) && Laid(vs, 2) == Laid(vs, 1) + IntegerTlv(n);
    assert Laid(vs, 4) == Laid(vs, 2) + IntegerTlv(e) + IntegerTlv(d);
    assert Laid(vs, 6) == Laid(vs, 4) + IntegerTlv(Val(c.p)) + IntegerTlv(Val(c.q));
    assert Laid(vs, 8) == Laid(vs, 6) + IntegerTlv(Val(c.dP)) + IntegerTlv(Val(c.dQ));
    IntegersOf([n, e]);
    assert Laid([n, e], 1) == IntegerTlv(n);
  }

  /** The first k elements, one behind the other. */
  function Laid(vs: seq<nat>, k: nat): seq<Byte>
    requires k <= |vs|
  {
    if k == 0 then [] else Laid(vs, k - 1) + IntegerTlv(vs[k - 1])
  }

  lemma IntegersOf(vs: seq<nat>)
    ensures Integers(vs) == Laid(vs, |vs|)
  {
    hide IntegerTlv, Integers;
    assert vs[0..] == vs;
    for i := 0 to |vs|
      invariant Laid(vs, i) + Integers(vs[i..]) == Integers(vs)
    {
      LaidStep(vs, i);
    }
    NoneLaid();
    assert vs[|vs|..] == [] && Laid(vs, |vs|) + [] == Laid(vs, |vs|);
  }

  lemma NoneLaid()
    ensures Integers([]) == []
  {
  }

  lemma LaidStep(vs: seq<nat>, i: nat)
    requires i < |vs|
    ensures Laid(vs, i) + Integers(vs[i..]) == Laid(vs, i + 1) + Integers(vs[i + 1..])
  {
    hide IntegerTlv, Integers;
    IntegersSplit(vs[i..]);
    assert vs[i..][1..] == vs[i + 1..] && vs[i..][0] == vs[i];
    LaidAssoc(Laid(vs, i), IntegerTlv(vs[i]), Integers(vs[i + 1..]));
  }

  lemma LaidAssoc(a: seq<Byte>, b: seq<Byte>, c: seq<Byte>)
    ensures a + (b + c) == a + b + c
  {
  }

  // ----- the methods that write -----

  method AppendIntegers(ns: seq<BigUint>, prefix: seq<Byte>, ghost vs: seq<nat>) returns (out: seq<Byte>)
    requires |vs| == |ns| && forall i :: 0 <= i < |ns| ==> vs[i] == Val(ns[i])
    ensures out == prefix + Integers(vs)
  {
    hide IntegerTlv;
    out := prefix;
    assert vs[0..] == vs;
    for i := 0 to |ns|
      invariant out + Integers(vs[i..]) == prefix + Integers(vs)
    {
      var t := EncodeDerInteger(ns[i]);
      IntegersSplit(vs[i..]);
      assert vs[i..][1..] == vs[i + 1..];
      assert out + (t + Integers(vs[i + 1..])) == out + t + Integers(vs[i + 1..]);
      out := out + t;
    }
    assert out + [] == out;
  }

  /** The CRT values in use: the key's own, or the recovered ones, none only if recovery fails. */
  ghost predicate CrtKept(key: RsaKey, crt: Option<Crt>) {
    if key.crt.Some? then crt == key.crt else Recovered(crt, Val(key.n), Val(key.e), Val(key.d))
  }

  /** CRT values are those of the key, or recovered, or absent. */
  method EnsureCrt(key: RsaKey) returns (crt: Option<Crt>)
    ensures CrtKept(key, crt)
  {
    if key.crt.Some? { return key.crt; }
    var r := RecoverCrt(key.n, key.e, key.d);
    crt := if r.Ok? then Some(r.value) else None;
  }

  /** Some DER the writer may make of the key: the tail is the one thing the key does not fix. */
  ghost predicate WrittenAs(key: RsaKey, der: seq<Byte>) {
    exists crt :: CrtKept(key, crt) && der == Pkcs1Der(Val(key.n), Val(key.e), Val(key.d), Tail(crt))
  }

  method ToDerPkcs1(key: RsaKey) returns (out: seq<Byte>)
    ensures WrittenAs(key, out)
  {
    var c := EnsureCrt(key);
    var rest := if c.Some? then [c.value.p, c.value.q, c.value.dP, c.value.dQ, c.value.qInv]
                else [Zero(), Zero(), Zero(), Zero(), Zero()];
    var body := AppendIntegers([Zero(), key.n, key.e, key.d] + rest, [],
                               [0, Val(key.n), Val(key.e), Val(key.d)] + Tail(c));
    assert [] + Integers([0, Val(key.n), Val(key.e), Val(key.d)] + Tail(c))
          == Integers([0, Val(key.n), Val(key.e), Val(key.d)] + Tail(c));
    out := Tlv(0x30, body);
    assert CrtKept(key, c) && out == Pkcs1Der(Val(key.n), Val(key.e), Val(key.d), Tail(c));
  }

  method ToDerPkcs8(key: RsaKey) returns (out: seq<Byte>)
    ensures exists pkcs1 :: WrittenAs(key, pkcs1) && out == Pkcs8Der(pkcs1)
  {
    hide WrittenAs;
    var pkcs1 := ToDerPkcs1(key);
    var version := EncodeDerInteger(Zero());
    out := Tlv(0x30, version + Tlv(0x30, RSA_OID + [0x05, 0x00]) + Tlv(0x04, pkcs1));
    assert out == Pkcs8Der(pkcs1);
  }

  // ----- readers, as values -----

  /** `wire` holds p, q, dP, dQ, qInv when all five were there and the primes not zero. */
  datatype KeyParts = KeyParts(n: nat, e: nat, d: nat, k: nat, wire: Option<seq<nat>>)
  datatype PublicParts = PublicParts(n: nat, e: nat, k: nat)

  /** Reads integers one after another, going on from wherever a failed read stopped. */
  function IntegersAt(data: seq<Byte>, pos: nat, count: nat): (vs: seq<Result<nat, DerError>>)
    ensures |vs| == count
    decreases data, count
  {
    if count == 0 then [] else
      var s := IntegerAt(data, pos);
      [s.result] + IntegersAt(data, s.pos, count - 1)
  }

  /** The five CRT integers are all there and the primes are not zero. */
  predicate TailPresent(vs: seq<Result<nat, DerError>>)
    requires |vs| == 8
  {
    vs[3].Ok? && vs[4].Ok? && vs[5].Ok? && vs[6].Ok? && vs[7].Ok? && vs[3].value != 0 && vs[4].value != 0
  }

  /** n, e, d after the version; a wire prime equal to 1 makes the code divide by zero. */
  function KeyOf(vs: seq<Result<nat, DerError>>): Result<KeyParts, DerError>
    requires |vs| == 8
  {
    if vs[0].Err? then Err(vs[0].error)
    else if vs[1].Err? then Err(vs[1].error)
    else if vs[2].Err? then Err(vs[2].error)
    else if ByteLen(vs[0].value) < 64 then Err(DerError.ModulusTooSmall)
    else if TailPresent(vs) && (vs[3].value == 1 || vs[4].value == 1) then Err(DivisionByZero)
    else Ok(KeyParts(vs[0].value, vs[1].value, vs[2].value, ByteLen(vs[0].value), WireTail(vs)))
  }

  function WireTail(vs: seq<Result<nat, DerError>>): (t: Option<seq<nat>>)
    requires |vs| == 8
    ensures t.Some? ==> |t.value| == 5
  {
    if TailPresent(vs) then Some([vs[3].value, vs[4].value, vs[5].value, vs[6].value, vs[7].value]) else None
  }

  /** The CRT integers a written tail is read as. */
  function TailRead(tail: seq<nat>): Option<seq<nat>>
    requires |tail| == 5
  {
    if tail[0] != 0 && tail[1] != 0 then Some(tail) else None
  }

  function AfterVersion(data: seq<Byte>, pos: nat): Result<KeyParts, DerError> {
    KeyOf(IntegersAt(data, pos, 8))
  }

  function ParsePkcs1(der: seq<Byte>): Result<KeyParts, DerError> {
    var s := ValueAt(der, 0, 0x30);
    if s.result.Err? then Err(s.result.error) else
      var version := IntegerAt(s.result.value, 0);
      if version.result.Err? then Err(version.result.error)
      else AfterVersion(s.result.value, version.pos)
  }

  function ParsePrivate(der: seq<Byte>): Result<KeyParts, DerError> {
    var s := ValueAt(der, 0, 0x30);
    if s.result.Err? then Err(s.result.error) else
      var version := IntegerAt(s.result.value, 0);
      if version.result.Err? then Err(version.result.error)
      else AfterAnyVersion(s.result.value, version.pos)
  }

  /** A SEQUENCE after the version means PKCS#8, anything else PKCS#1. */
  function AfterAnyVersion(body: seq<Byte>, pos: nat): Result<KeyParts, DerError> {
    if pos < |body| && body[pos] == 0x30 then Wrapped(body, pos) else AfterVersion(body, pos)
  }

  function Wrapped(body: seq<Byte>, pos: nat): Result<KeyParts, DerError> {
    var alg := HeaderAt(body, pos);
    if alg.result.Err? then Err(alg.result.error) else
      var oct := ValueAt(body, alg.pos + alg.result.value.len, 0x04);
      if oct.result.Err? then Err(oct.result.error) else ParsePkcs1(oct.result.value)
  }

  function ParsePublicKey(der: seq<Byte>): Result<PublicParts, DerError> {
    var s := ValueAt(der, 0, 0x30);
    if s.result.Err? then Err(s.result.error) else
      var n := IntegerAt(s.result.value, 0);
      if n.result.Err? then Err(n.result.error) else
        var e := IntegerAt(s.result.value, n.pos);
        if e.result.Err? then Err(e.result.error)
        else if ByteLen(n.result.value) < 64 then Err(DerError.ModulusTooSmall)
        else Ok(PublicParts(n.result.value, e.result.value, ByteLen(n.result.value)))
  }

  function ParseSpki(der: seq<Byte>): Result<PublicParts, DerError> {
    var s := ValueAt(der, 0, 0x30);
    if s.result.Err? then Err(s.result.error) else
      var alg := ValueAt(s.result.value, 0, 0x30);
      if alg.result.Err? then Err(alg.result.error) else
        var bits := ValueAt(s.result.value, alg.pos, 0x03);
        if bits.result.Err? then Err(bits.result.error)
        else if bits.result.value == [] then Err(EmptyBitString)
        else ParsePublicKey(bits.result.value[1..])
  }

  /** SubjectPublicKeyInfo first, bare RSAPublicKey otherwise. */
  function PublicFromDer(der: seq<Byte>): Result<PublicParts, DerError> {
    var spki := ParseSpki(der);
    if spki.Ok? then spki else ParsePublicKey(der)
  }

  // ----- the methods that read -----

  /** The CRT record of a parsed key: recomputed from coprime wire primes, the wire values, or recovered. */
  ghost predicate CrtOf(crt: Option<Crt>, wire: Option<seq<nat>>, n: nat, e: nat, d: nat) {
    if wire.None? then Recovered(crt, n, e, d) else crt.Some? && WireCrt(crt.value, wire.value, d)
  }

  ghost predicate WireCrt(crt: Crt, wire: seq<nat>, d: nat) {
    |wire| == 5
    && if Gcd(wire[0], wire[1]) == 1 then CrtFor(crt, wire[0] * wire[1], d) else Tail(Some(crt)) == wire
  }

  ghost predicate SameKey(r: Result<RsaKey, DerError>, spec: Result<KeyParts, DerError>) {
    if spec.Ok? then
      && r.Ok? && r.value.k == ModulusBytes(r.value.n) == spec.value.k
      && Val(r.value.n) == spec.value.n && Val(r.value.e) == spec.value.e && Val(r.value.d) == spec.value.d
      && CrtOf(r.value.crt, spec.value.wire, spec.value.n, spec.value.e, spec.value.d)
    else r == Err(spec.error)
  }

  /** The reader stands before value i of a row of integers. */
  ghost predicate Row(reader: DerReader, vs: seq<Result<nat, DerError>>, i: nat)
    reads reader
  {
    i <= |vs| && vs[i..] == IntegersAt(reader.data, reader.pos, |vs| - i)
  }

  method NextInteger(reader: DerReader, ghost vs: seq<Result<nat, DerError>>, ghost i: nat)
    returns (v: Result<BigUint, DerError>)
    requires i < |vs| && Row(reader, vs, i)
    modifies reader
    ensures Row(reader, vs, i + 1)
    ensures if vs[i].Ok? then v.Ok? && Val(v.value) == vs[i].value else v == Err(vs[i].error)
  {
    v := reader.ReadInteger();
    assert vs[i..][1..] == vs[i + 1..];
    assert vs[i..][0] == vs[i];
  }

  method AfterVersionReader(reader: DerReader) returns (r: Result<RsaKey, DerError>)
    modifies reader
    ensures SameKey(r, AfterVersion(reader.data, old(reader.pos)))
  {
    hide WireCrt, CrtFor, Recovered, ByteLen, ModulusBytes, IntegerAt;
    ghost var vs := IntegersAt(reader.data, reader.pos, 8);
    assert vs[0..] == vs;
    var n := NextInteger(reader, vs, 0);
    if n.Err? { return Err(n.error); }
    var e := NextInteger(reader, vs, 1);
    if e.Err? { return Err(e.error); }
    var d := NextInteger(reader, vs, 2);
    if d.Err? { return Err(d.error); }
    var k := ModulusBytes(n.value);
    ModulusBytesIsByteLen(n.value);
    if k < 64 { return Err(DerError.ModulusTooSmall); }
    var crt := ReadCrt(reader, vs, d.value);
    if crt.Err? { return Err(crt.error); }
    var key := RsaKey(n.value, e.value, d.value, k, crt.value);
    var filled := EnsureCrt(key);
    r := Ok(key.(crt := filled));
  }

  /** The optional CRT integers: recomputed from the primes, or the wire values if they are not coprime. */
  method ReadCrt(reader: DerReader, ghost vs: seq<Result<nat, DerError>>, d: BigUint)
    returns (r: Result<Option<Crt>, DerError>)
    requires |vs| == 8 && Row(reader, vs, 3)
    modifies reader
    ensures r == Err(DivisionByZero) <==> TailPresent(vs) && (vs[3].value == 1 || vs[4].value == 1)
    ensures r.Err? ==> r == Err(DivisionByZero)
    ensures r.Ok? ==> (r.value.Some? <==> TailPresent(vs))
    ensures r.Ok? && r.value.Some? ==> WireCrt(r.value.value, WireTail(vs).value, Val(d))
  {
    hide Row, CrtFor, Gcd;
    var p := NextInteger(reader, vs, 3);
    var q := NextInteger(reader, vs, 4);
    var dP := NextInteger(reader, vs, 5);
    var dQ := NextInteger(reader, vs, 6);
    var qInv := NextInteger(reader, vs, 7);
    if p.Ok? && q.Ok? && dP.Ok? && dQ.Ok? && qInv.Ok? && !IsZero(p.value) && !IsZero(q.value) {
      if Val(p.value) == 1 || Val(q.value) == 1 { return Err(DivisionByZero); }
      var c := CrtFromPrimes(p.value, q.value, d);
      return Ok(Some(if c.Ok? then c.value else Crt(p.value, q.value, dP.value, dQ.value, qInv.value)));
    }
    return Ok(None);
  }

  ghost predicate SamePublic(r: Result<RsaPublicKey, DerError>, spec: Result<PublicParts, DerError>) {
    if spec.Ok? then
      r.Ok? && PublicParts(Val(r.value.n), Val(r.value.e), r.value.k) == spec.value
      && r.value.k == ModulusBytes(r.value.n)
    else r == Err(spec.error)
  }

  method ParseRsaPublicKey(der: seq<Byte>) returns (r: Result<RsaPublicKey, DerError>)
    ensures SamePublic(r, ParsePublicKey(der))
  {
    var top := new DerReader(der);
    var bytes := top.ExpectTag(0x30);
    if bytes.Err? { return Err(bytes.error); }
    var s := new DerReader(bytes.value);
    var n := s.ReadInteger();
    if n.Err? { return Err(n.error); }
    var e := s.ReadInteger();
    if e.Err? { return Err(e.error); }
    var k := ModulusBytes(n.value);
    ModulusBytesIsByteLen(n.value);
    if k < 64 { return Err(DerError.ModulusTooSmall); }
    r := Ok(RsaPublicKey(n.value, e.value, k));
  }

  method ParseSpkiRsa(der: seq<Byte>) returns (r: Result<RsaPublicKey, DerError>)
    ensures SamePublic(r, ParseSpki(der))
  {
    var top := new DerReader(der);
    var bytes := top.ExpectTag(0x30);
    if bytes.Err? { return Err(bytes.error); }
    var s := new DerReader(bytes.value);
    var alg := s.ExpectTag(0x30);
    if alg.Err? { return Err(alg.error); }
    var bits := s.ExpectTag(0x03);
    if bits.Err? { return Err(bits.error); }
    if bits.value == [] { return Err(EmptyBitString); }
    r := ParseRsaPublicKey(bits.value[1..]);
  }

  /** RsaPublicKey::from_der. */
  method ReadPublicKey(der: seq<Byte>) returns (r: Result<RsaPublicKey, DerError>)
    ensures SamePublic(r, PublicFromDer(der))
  {
    r := ParseSpkiRsa(der);
    if r.Err? {
      r := ParseRsaPublicKey(der);
    }
  }

  method ParsePkcs1Key(der: seq<Byte>) returns (r: Result<RsaKey, DerError>)
    ensures SameKey(r, ParsePkcs1(der))
  {
    var top := new DerReader(der);
    var bytes := top.ExpectTag(0x30);
    if bytes.Err? { return Err(bytes.error); }
    var s := new DerReader(bytes.value);
    var version := s.ReadInteger();
    if version.Err? { return Err(version.error); }
    r := AfterVersionReader(s);
  }

  method ParsePrivateKey(der: seq<Byte>) returns (r: Result<RsaKey, DerError>)
    ensures SameKey(r, ParsePrivate(der))
  {
    var top := new DerReader(der);
    var bytes := top.ExpectTag(0x30);
    if bytes.Err? { return Err(bytes.error); }
    var s := new DerReader(bytes.value);
    var version := s.ReadInteger();
    if version.Err? { return Err(version.error); }
    if s.pos < |s.data| && s.data[s.pos] == 0x30 {
      r := WrappedReader(s);
    } else {
      r := AfterVersionReader(s);
    }
  }

  method WrappedReader(s: DerReader) returns (r: Result<RsaKey, DerError>)
    modifies s
    ensures SameKey(r, Wrapped(s.data, old(s.pos)))
  {
    hide HeaderAt, ValueAt, ParsePkcs1;
    var alg := s.SkipValue();
    if alg.Err? { return Err(alg.error); }
    var inner := s.ExpectTag(0x04);
    if inner.Err? { return Err(inner.error); }
    r := ParsePkcs1Key(inner.value);
  }

  // ----- round trips -----

  /** The first of a row of written integers, and what stands after it. */
  lemma ReadFirst(data: seq<Byte>, pos: nat, v: nat, rest: seq<Byte>)
    requires Holds(data, pos, IntegerTlv(v) + rest) && |IntegerTlv(v)| < 0x100_0000
    ensures IntegerAt(data, pos) == Step(Ok(v), pos + |IntegerTlv(v)|)
    ensures pos < |data| && data[pos] == 0x02
    ensures Holds(data, pos + |IntegerTlv(v)|, rest)
  {
    HoldsParts(data, pos, IntegerTlv(v), rest);
    ReadIntegerTlv(data, pos, v);
  }

  lemma IntegersStep(data: seq<Byte>, pos: nat, v: nat, next: nat, count: nat)
    requires IntegerAt(data, pos) == Step(Ok(v), next)
    ensures IntegersAt(data, pos, count + 1) == [Ok(v)] + IntegersAt(data, next, count)
  {
    hide IntegerAt;
  }

  /** A written row of integers is read back in order. */
  lemma {:induction false} ReadIntegers(data: seq<Byte>, pos: nat, vs: seq<nat>)
    requires Holds(data, pos, Integers(vs)) && |Integers(vs)| < 0x100_0000
    ensures IntegersAt(data, pos, |vs|) == Oks(vs)
    decreases |vs|
  {
    hide Integers, IntegerTlv, IntegerAt, Holds, IntegersAt, Oks;
    if vs == [] {
      NoIntegers(data, pos);
    } else {
      IntegersSplit(vs);
      var next := pos + |IntegerTlv(vs[0])|;
      ReadFirst(data, pos, vs[0], Integers(vs[1..]));
      IntegersStep(data, pos, vs[0], next, |vs| - 1);
      ReadIntegers(data, next, vs[1..]);
      OksStep(vs);
    }
  }

  lemma NoIntegers(data: seq<Byte>, pos: nat)
    ensures IntegersAt(data, pos, 0) == Oks([])
  {
  }

  lemma IntegersSplit(vs: seq<nat>)
    requires vs != []
    ensures Integers(vs) == IntegerTlv(vs[0]) + Integers(vs[1..])
  {
    hide IntegerTlv;
  }

  lemma OksStep(vs: seq<nat>)
    requires vs != []
    ensures Oks(vs) == [Ok(vs[0])] + Oks(vs[1..])
  {
  }

  ghost function Oks(vs: seq<nat>): seq<Result<nat, DerError>> {
    seq(|vs|, i requires 0 <= i < |vs| => Ok(vs[i]))
  }

  lemma WholeTlv(tag: Byte, v: seq<Byte>)
    requires |v| < 0x100_0000
    ensures ValueAt(Tlv(tag, v), 0, tag) == Step(Ok(v), |Tlv(tag, v)|)
  {
    assert Tlv(tag, v)[0..|Tlv(tag, v)|] == Tlv(tag, v);
    ReadTlv(Tlv(tag, v), 0, tag, v);
  }

  /** What written integers come back as: too small a modulus and a prime of 1 are refused. */
  function ReadKey(n: nat, e: nat, d: nat, tail: seq<nat>): Result<KeyParts, DerError>
    requires |tail| == 5
  {
    if ByteLen(n) < 64 then Err(DerError.ModulusTooSmall)
    else if tail[0] != 0 && tail[1] != 0 && (tail[0] == 1 || tail[1] == 1) then Err(DivisionByZero)
    else Ok(KeyParts(n, e, d, ByteLen(n), TailRead(tail)))
  }

  /** The body of a PKCS#1 key, read from its first integer on. */
  lemma Pkcs1Body(n: nat, e: nat, d: nat, tail: seq<nat>)
    requires |tail| == 5 && |Integers([0, n, e, d] + tail)| < 0x100_0000
    ensures var body := Integers([0, n, e, d] + tail);
            var version := IntegerAt(body, 0);
            version.result.Ok? && version.pos < |body| && body[version.pos] == 0x02
            && AfterVersion(body, version.pos) == ReadKey(n, e, d, tail)
  {
    hide IntegerTlv, IntegerAt, KeyOf, Oks, HeaderAt;
    var body := Integers([0, n, e, d] + tail);
    assert body[0..|body|] == body;
    var vs := [n, e, d] + tail;
    assert ([0, n, e, d] + tail)[1..] == vs;
    ReadFirst(body, 0, 0, Integers(vs));
    ReadFirst(body, |IntegerTlv(0)|, n, Integers(vs[1..]));
    ReadIntegers(body, |IntegerTlv(0)|, vs);
    KeyOfWritten(n, e, d, tail);
  }

  lemma KeyOfWritten(n: nat, e: nat, d: nat, tail: seq<nat>)
    requires |tail| == 5
    ensures KeyOf(Oks([n, e, d] + tail)) == ReadKey(n, e, d, tail)
  {
    var vs := [n, e, d] + tail;
    assert vs[3] == tail[0] && vs[4] == tail[1];
    assert [vs[3], vs[4], vs[5], vs[6], vs[7]] == tail;
  }

  /** Writing a private key as PKCS#1 and parsing it gives the same n, e, d and k, or one of the two refusals. */
  lemma Pkcs1RoundTrip(n: nat, e: nat, d: nat, tail: seq<nat>)
    requires |tail| == 5 && |Integers([0, n, e, d] + tail)| < 0x100_0000
    ensures ParsePkcs1(Pkcs1Der(n, e, d, tail))
         == if ByteLen(n) < 64 then Err(DerError.ModulusTooSmall)
            else if tail[0] != 0 && tail[1] != 0 && (tail[0] == 1 || tail[1] == 1) then Err(DivisionByZero)
            else Ok(KeyParts(n, e, d, ByteLen(n), if tail[0] != 0 && tail[1] != 0 then Some(tail) else None))
    ensures ParsePrivate(Pkcs1Der(n, e, d, tail)) == ParsePkcs1(Pkcs1Der(n, e, d, tail))
  {
    WholeTlv(0x30, Integers([0, n, e, d] + tail));
    Pkcs1Body(n, e, d, tail);
  }

  /** Whatever CRT values the writer put in, its bytes read back as the key. */
  lemma WrittenReadsBack(key: RsaKey, der: seq<Byte>)
    requires WrittenAs(key, der) && ByteLen(Val(key.n)) >= 64 && |der| < 0x100_0000
    requires key.crt.Some? && Val(key.crt.value.p) != 0 && Val(key.crt.value.q) != 0 ==>
               Val(key.crt.value.p) != 1 && Val(key.crt.value.q) != 1
    ensures exists crt :: CrtKept(key, crt)
              && ParsePrivate(der) == Ok(KeyParts(Val(key.n), Val(key.e), Val(key.d), ByteLen(Val(key.n)),
                    TailRead(Tail(crt))))
  {
    hide Integers, ParsePrivate, ByteLen, MinimalLength, CrtKept, Tail;
    var crt :| CrtKept(key, crt) && der == Pkcs1Der(Val(key.n), Val(key.e), Val(key.d), Tail(crt));
    KeptPrimes(key, crt);
    Pkcs1RoundTrip(Val(key.n), Val(key.e), Val(key.d), Tail(crt));
  }

  lemma KeptPrimes(key: RsaKey, crt: Option<Crt>)
    requires CrtKept(key, crt)
    requires key.crt.Some? && Val(key.crt.value.p) != 0 && Val(key.crt.value.q) != 0 ==>
               Val(key.crt.value.p) != 1 && Val(key.crt.value.q) != 1
    ensures Tail(crt)[0] != 0 && Tail(crt)[1] != 0 ==> Tail(crt)[0] != 1 && Tail(crt)[1] != 1
  {
    hide WitnessBelow, SplitsBadly, Val;
    if key.crt.None? {
      var e, d := Val(key.e), Val(key.d);
      var r :| RecoveryResult(r, Val(key.n), e * d, d) && crt == if r.Ok? then Some(r.value) else None;
    }
  }

  /** The same through PKCS#8. */
  lemma Pkcs8RoundTrip(n: nat, e: nat, d: nat, tail: seq<nat>)
    requires |tail| == 5
    requires |IntegerTlv(0) + AlgorithmId() + Tlv(0x04, Pkcs1Der(n, e, d, tail))| < 0x100_0000
    ensures ParsePrivate(Pkcs8Der(Pkcs1Der(n, e, d, tail))) == ParsePkcs1(Pkcs1Der(n, e, d, tail))
  {
    var pkcs1 := Pkcs1Der(n, e, d, tail);
    WholeTlv(0x30, IntegerTlv(0) + AlgorithmId() + Tlv(0x04, pkcs1));
    WrappedBody(pkcs1);
    Pkcs1RoundTrip(n, e, d, tail);
  }

  lemma WrappedBody(pkcs1: seq<Byte>)
    requires |IntegerTlv(0) + AlgorithmId() + Tlv(0x04, pkcs1)| < 0x100_0000
    ensures var body := IntegerTlv(0) + AlgorithmId() + Tlv(0x04, pkcs1);
            IntegerAt(body, 0).result.Ok? && AfterAnyVersion(body, IntegerAt(body, 0).pos) == ParsePkcs1(pkcs1)
  {
    hide ParsePkcs1, AfterAnyVersion, AlgorithmId, IntegerAt;
    AlgorithmIdIs();
    var v, a, o := IntegerTlv(0), AlgorithmId(), Tlv(0x04, pkcs1);
    var body := v + a + o;
    assert body[0..|body|] == body;
    HoldsParts(body, 0, v + a, o);
    HoldsParts(body, 0, v, a);
    ReadIntegerTlv(body, 0, 0);
    WrappedParts(body, |v|, RSA_OID + [0x05, 0x00], pkcs1);
  }

  lemma WrappedParts(body: seq<Byte>, pos: nat, alg: seq<Byte>, pkcs1: seq<Byte>)
    requires Holds(body, pos, Tlv(0x30, alg)) && Holds(body, pos + |Tlv(0x30, alg)|, Tlv(0x04, pkcs1))
    requires |alg| < 0x100_0000 && |pkcs1| < 0x100_0000
    ensures AfterAnyVersion(body, pos) == ParsePkcs1(pkcs1)
  {
    ReadTlv(body, pos, 0x30, alg);
    var next := pos + |Tlv(0x30, alg)|;
    ReadTlv(body, next, 0x04, pkcs1);
    WrappedIs(body, pos, next, pkcs1);
  }

  lemma WrappedIs(body: seq<Byte>, pos: nat, next: nat, inner: seq<Byte>)
    requires pos < |body| && body[pos] == 0x30 && HeaderAt(body, pos).result.Ok?
    requires HeaderAt(body, pos).pos + HeaderAt(body, pos).result.value.len == next
    requires ValueAt(body, next, 0x04).result == Ok(inner)
    ensures AfterAnyVersion(body, pos) == ParsePkcs1(inner)
  {
    hide HeaderAt, ValueAt, ParsePkcs1;
  }

  lemma PublicRoundTrip(n: nat, e: nat)
    requires |Integers([n, e])| < 0x100_0000
    ensures ParsePublicKey(PublicDer(n, e))
         == if ByteLen(n) < 64 then Err(DerError.ModulusTooSmall) else Ok(PublicParts(n, e, ByteLen(n)))
    ensures PublicFromDer(PublicDer(n, e)) == ParsePublicKey(PublicDer(n, e))
  {
    PublicKeyRoundTrip(n, e);
    assert ParseSpki(PublicDer(n, e)).Err?;
  }

  lemma PublicKeyRoundTrip(n: nat, e: nat)
    requires |Integers([n, e])| < 0x100_0000
    ensures ParsePublicKey(PublicDer(n, e))
         == if ByteLen(n) < 64 then Err(DerError.ModulusTooSmall) else Ok(PublicParts(n, e, ByteLen(n)))
    ensures ValueAt(PublicDer(n, e), 0, 0x30).result == Ok(Integers([n, e]))
    ensures Integers([n, e])[0] == 0x02
  {
    hide IntegerTlv, IntegerAt, Holds, Tlv;
    var body := Integers([n, e]);
    WholeTlv(0x30, body);
    assert body[0..|body|] == body;
    assert [n, e][1..] == [e] && [e][1..] == [];
    ReadFirst(body, 0, n, Integers([e]));
    ReadFirst(body, |IntegerTlv(n)|, e, []);
  }

  lemma SpkiRoundTrip(n: nat, e: nat)
    requires ByteLen(n) >= 64
    requires |AlgorithmId() + Tlv(0x03, [0x00] + PublicDer(n, e))| < 0x100_0000
    ensures PublicFromDer(SpkiDer(PublicDer(n, e))) == Ok(PublicParts(n, e, ByteLen(n)))
  {
    hide *;
    var pub := PublicDer(n, e);
    var a, b := AlgorithmId(), Tlv(0x03, [0x00] + pub);
    AlgorithmIdIs();
    SpkiIs(pub);
    PublicDerSize(n, e);
    var body := a + b;
    WholeTlv(0x30, body);
    WholeAt(body);
    HoldsParts(body, 0, a, b);
    ReadTlv(body, 0, 0x30, RSA_OID + [0x05, 0x00]);
    ReadTlv(body, |a|, 0x03, [0x00] + pub);
    PublicRoundTrip(n, e);
    SpkiRead(SpkiDer(pub), body, |a|, pub);
    SpkiWins(SpkiDer(pub));
  }

  lemma PublicDerSize(n: nat, e: nat)
    ensures |Integers([n, e])| <= |PublicDer(n, e)|
  {
    hide Integers;
  }

  lemma AlgorithmIdIs()
    ensures AlgorithmId() == Tlv(0x30, RSA_OID + [0x05, 0x00]) && |RSA_OID + [0x05, 0x00]| == 13
  {
    hide Tlv;
  }

  lemma SpkiIs(pub: seq<Byte>)
    ensures SpkiDer(pub) == Tlv(0x30, AlgorithmId() + Tlv(0x03, [0x00] + pub))
    ensures |pub| + 1 <= |AlgorithmId() + Tlv(0x03, [0x00] + pub)|
  {
  }

  lemma WholeAt(s: seq<Byte>)
    ensures Holds(s, 0, s)
  {
    assert s[0..|s|] == s;
  }

  lemma SpkiRead(der: seq<Byte>, body: seq<Byte>, pos: nat, inner: seq<Byte>)
    requires ValueAt(der, 0, 0x30).result == Ok(body)
    requires ValueAt(body, 0, 0x30).result.Ok? && ValueAt(body, 0, 0x30).pos == pos
    requires ValueAt(body, pos, 0x03).result == Ok([0x00] + inner)
    ensures ParseSpki(der) == ParsePublicKey(inner)
  {
    hide ValueAt, ParsePublicKey;
    assert ([0x00] + inner)[1..] == inner;
  }

  lemma SpkiWins(der: seq<Byte>)
    ensures ParseSpki(der).Ok? ==> PublicFromDer(der) == ParseSpki(der)
  {
    hide ParseSpki;
  }

  // ----- the two SubjectPublicKeyInfo writers -----

  lemma LengthsAgree(len: nat)
    requires len < 0x100_0000
    ensures LengthBytes(len) == MinimalLength(len)
  {
    if 0x80 <= len {
      LengthBytesValue(len);
      MinBytesLength(len, |LengthBytes(len)| - 1);
      Os2ipInjective(LengthBytes(len)[1..], MinBytes(len));
      assert LengthBytes(len) == [LengthBytes(len)[0]] + LengthBytes(len)[1..];
    }
  }

  lemma MinBytesLength(v: nat, k: nat)
    requires v > 0 && 1 <= k <= 3
    requires (k == 1 && v < 256) || (k == 2 && 256 <= v < 65536) || (k == 3 && 65536 <= v < 0x100_0000)
    ensures |MinBytes(v)| == k
  {
    if k == 3 { MinBytesLength(v / 256, 2); }
  }

  /** The BIT STRING as the second writer builds it. */
  function DkimBitString(pub: seq<Byte>): seq<Byte> {
    [0x03] + MinimalLength(|pub| + 1) + [0x00] + pub
  }

  /** Both writers, as tag, length and content. */
  lemma WritersAre(pub: seq<Byte>)
    ensures |AlgorithmId()| == 15
    ensures SpkiDer(pub) == [0x30] + LengthBytes(|AlgorithmId() + Tlv(0x03, [0x00] + pub)|)
                          + (AlgorithmId() + Tlv(0x03, [0x00] + pub))
    ensures DkimSpkiDer(pub) == [0x30] + MinimalLength(|AlgorithmId()| + |DkimBitString(pub)|)
                              + (AlgorithmId() + DkimBitString(pub))
  {
    var alg: seq<Byte> := [0x30, 0x0d] + RSA_OID + [0x05, 0x00];
    assert AlgorithmId() == alg;
    hide MinimalLength, LengthBytes;
    assert alg + DkimBitString(pub) == alg + DkimBitString(pub);
  }

  lemma SameBitString(pub: seq<Byte>)
    requires |pub| + 1 < 0x100_0000
    ensures Tlv(0x03, [0x00] + pub) == DkimBitString(pub)
  {
    LengthsAgree(|pub| + 1);
    hide MinimalLength, LengthBytes;
    assert |[0x00] + pub| == |pub| + 1;
    var l := MinimalLength(|pub| + 1);
    assert [0x03] + l + ([0x00] + pub) == [0x03] + l + [0x00] + pub;
  }

  /** Both writers emit the same bytes exactly when the content fits three length bytes. */
  lemma SpkiWritersAgree(pub: seq<Byte>)
    requires |pub| < 0x8000_0000_0000_0000
    ensures |AlgorithmId() + Tlv(0x03, [0x00] + pub)| < 0x100_0000 <==> SpkiDer(pub) == DkimSpkiDer(pub)
  {
    hide *;
    WritersAre(pub);
    TlvSize(0x03, [0x00] + pub);
    DkimBitStringSize(pub);
    if |AlgorithmId() + Tlv(0x03, [0x00] + pub)| < 0x100_0000 {
      SameBitString(pub);
      LengthsAgree(|AlgorithmId() + DkimBitString(pub)|);
    } else {
      if |pub| + 1 < 0x100_0000 {
        SameBitString(pub);
      } else {
        LongLength(|pub| + 1);
      }
      LongLength(|AlgorithmId()| + |DkimBitString(pub)|);
      SecondByte(pub);
      LengthIsLong(|AlgorithmId() + Tlv(0x03, [0x00] + pub)|);
    }
  }

  lemma TlvSize(tag: Byte, v: seq<Byte>)
    ensures |v| + 2 <= |Tlv(tag, v)| <= |v| + 5
  {
  }

  lemma DkimBitStringSize(pub: seq<Byte>)
    requires |pub| < 0x8000_0000_0000_0000
    ensures |pub| + 1 < |DkimBitString(pub)|
    ensures |pub| + 1 >= 0x100_0000 ==> |DkimBitString(pub)| <= |pub| + 11
  {
    if |pub| + 1 >= 0x100_0000 { LongLength(|pub| + 1); }
    hide MinimalLength;
  }

  lemma LengthIsLong(len: nat)
    requires len >= 0x100_0000
    ensures LengthBytes(len)[0] == 0x83
  {
  }

  lemma SecondByte(pub: seq<Byte>)
    requires MinimalLength(|AlgorithmId()| + |DkimBitString(pub)|) != []
    ensures SpkiDer(pub)[1] == LengthBytes(|AlgorithmId() + Tlv(0x03, [0x00] + pub)|)[0]
    ensures |DkimSpkiDer(pub)| > 1
    ensures DkimSpkiDer(pub)[1] == MinimalLength(|AlgorithmId()| + |DkimBitString(pub)|)[0]
  {
    WritersAre(pub);
    hide MinimalLength, LengthBytes, AlgorithmId, Tlv, DkimBitString, SpkiDer, DkimSpkiDer;
  }

  /** From 2^24 on the three-byte form and the minimal form start differently. */
  lemma LongLength(len: nat)
    requires 0x100_0000 <= len < 0x1_0000_0000_0000_0000
    ensures LengthBytes(len)[0] == 0x83 && |MinimalLength(len)| >= 2
    ensures MinimalLength(len)[0] != 0x83 && |MinimalLength(len)| <= 9
  {
    var m := MinBytes(len);
    Os2ipBound(m);
    Os2ipLower(m);
    assert Pow(256, 1) == 256 && Pow(256, 2) == 65536 && Pow(256, 3) == 0x100_0000 && Pow(256, 4) == 0x1_0000_0000;
    PowAdd(256, 4, 4);
    if |m| <= 3 { PowMono(256, |m|, 3); }
    if |m| >= 9 { PowMono(256, 8, |m| - 1); }
  }
}

/** Signing, publishing the key and verifying, end to end. */
module DkimPass {
  import opened Results
  import opened Octets
  import opened Text
  import opened DkimText
  import opened Dkim
  import opened DkimAgreement
  import opened Limbs
  import opened Der
  import opened Rsa
  import opened KeyCodec
  import Base64

  /** dns_txt_record: the published key. */
  function TxtRecord(n: nat, e: nat): string {
    "v=DKIM1" + ";" + Tag("k", "rsa") + ";" + Tag("p", Base64.Encoded(DkimSpkiDer(PublicDer(n, e))))
  }

  lemma TxtRecordForm(n: nat, e: nat)
    ensures TxtRecord(n, e) == "v=DKIM1; k=rsa; p=" + Base64.Encoded(DkimSpkiDer(PublicDer(n, e)))
  {
    hide Base64.Encoded, DkimSpkiDer, PublicDer;
    assert "v=DKIM1" + ";" + (" " + "k" + "=" + "rsa") + ";" + (" " + "p" + "=") == "v=DKIM1; k=rsa; p=";
    var b := Base64.Encoded(DkimSpkiDer(PublicDer(n, e)));
    assert Tag("p", b) == (" " + "p" + "=") + b;
  }

  lemma {:induction false} WithoutSpacePlain(s: string)
    requires Plain(s)
    ensures WithoutSpace(s) == s
    decreases |s|
  {
    if s == [] {
    } else {
      WithoutSpacePlain(s[1..]);
    }
  }

  /** One part of a key record: the value if the key is p, otherwise on to the next part. */
  lemma KeyPart(part: string, k: string, v: string, rest: seq<string>)
    requires KeyText(k) && Plain(v) && Trim(part) == k + "=" + v
    ensures KeyValue([part] + rest) == if k == "p" then Some(v) else KeyValue(rest)
  {
    KeyAndValue(k, v);
    PlainTrimmed(k);
    WithoutSpacePlain(v);
    KeyValueStep(part, rest);
    hide KeyValue, Trim, Find, WithoutSpace, Plain;
  }

  lemma KeyValueStep(part: string, rest: seq<string>)
    ensures var p := Trim(part); var eq := Find(p, '=');
            KeyValue([part] + rest) == if eq < |p| && LowerAscii(Trim(p[..eq])) == "p"
                  then Some(WithoutSpace(p[eq + 1..]))
                                       else KeyValue(rest)
  {
    hide Trim, Find, WithoutSpace, LowerAscii;
    assert ([part] + rest)[0] == part && ([part] + rest)[1..] == rest;
  }

  lemma VersionPart()
    ensures Trim("v=DKIM1") == "v" + "=" + "DKIM1" && ';' !in "v=DKIM1" && OneLine("v=DKIM1")
  {
    var v := "v=DKIM1";
    assert !IsSpace(v[0]) && !IsSpace(v[6]);
    assert Trimmed(v);
    assert "v" + "=" + "DKIM1" == v;
    hide Trim, Trimmed, IsSpace;
    TrimOfTrimmed(v);
  }

  lemma RecordTexts()
    ensures Plain("DKIM1") && Plain("rsa") && KeyText("v") && KeyText("k") && KeyText("p")
  {
    assert Plain("DKIM1");
    assert Plain("rsa");
    assert Plain("v") && Plain("k") && Plain("p");
    hide Plain;
    assert LowerAscii("v") == "v";
    assert LowerAscii("k") == "k";
    assert LowerAscii("p") == "p";
  }

  lemma RecordJoined(b: string)
    ensures "v=DKIM1" + ";" + Tag("k", "rsa") + ";" + Tag("p", b)
          == Join(["v=DKIM1", Tag("k", "rsa"), Tag("p", b)], ";")
  {
    hide Tag;
    var t := ["v=DKIM1", Tag("k", "rsa"), Tag("p", b)];
    JoinStep(t, ";");
    JoinStep(t[1..], ";");
    JoinStep(t[2..], ";");
    assert t[1..][1..] == t[2..];
    ConcatAssoc("v=DKIM1" + ";", Tag("k", "rsa") + ";", Tag("p", b));
    ConcatAssoc("v=DKIM1" + ";", Tag("k", "rsa"), ";");
  }

  /** The key text comes back out of the record. */
  lemma RecordRead(b: string)
    requires Plain(b)
    ensures ExtractKey("v=DKIM1" + ";" + Tag("k", "rsa") + ";" + Tag("p", b)) == Some(b)
  {
    hide *;
    var t := ["v=DKIM1", Tag("k", "rsa"), Tag("p", b)];
    VersionPart();
    RecordTexts();
    KeyTextPlain("k");
    KeyTextPlain("p");
    TagOneLine("k", "rsa");
    TagOneLine("p", b);
    RecordJoined(b);
    JoinedOneLine(t);
    UnfoldedOneLine(Join(t, ";"));
    SplitJoin(t, ';');
    TagTrimmed("k", "rsa");
    TagTrimmed("p", b);
    KeyPart(t[0], "v", "DKIM1", t[1..]);
    assert [t[0]] + t[1..] == t;
    KeyPart(t[1], "k", "rsa", t[2..]);
    assert [t[1]] + t[2..] == t[1..];
    KeyPart(t[2], "p", b, []);
    assert [t[2]] + [] == t[2..];
    ExtractIs(Join(t, ";"));
  }

  lemma KeyTextPlain(k: string)
    requires KeyText(k)
    ensures Plain(k)
  {
  }

  lemma ExtractIs(txt: string)
    ensures ExtractKey(txt) == KeyValue(Split(WithoutLineEnds(txt), ';'))
  {
    hide KeyValue, Split, WithoutLineEnds;
  }

  /** The published record yields the key. */
  lemma PublishedKey(n: nat, e: nat)
    requires ByteLen(n) >= 64 && |AlgorithmId() + Tlv(0x03, [0x00] + PublicDer(n, e))| < 0x100_0000
    ensures var p := ExtractKey(TxtRecord(n, e));
            p.Some? && p.value != [] && PublicFromDer(Base64.Decoded(p.value, 0, 0))
                  == Ok(PublicParts(n, e, ByteLen(n)))
  {
    hide *;
    var der := DkimSpkiDer(PublicDer(n, e));
    SpkiIs(PublicDer(n, e));
    SpkiWritersAgree(PublicDer(n, e));
    SpkiRoundTrip(n, e);
    Base64Plain(der);
    Base64.RoundTrip(der);
    RecordRead(Base64.Encoded(der));
    RecordIs(n, e);
    if Base64.Encoded(der) == [] {
      NothingDecoded();
      SpkiNotEmpty(PublicDer(n, e));
      assert false;
    }
  }

  lemma RecordIs(n: nat, e: nat)
    ensures TxtRecord(n, e)
         == "v=DKIM1" + ";" + Tag("k", "rsa") + ";" + Tag("p", Base64.Encoded(DkimSpkiDer(PublicDer(n, e))))
  {
    hide Tag, Base64.Encoded, DkimSpkiDer, PublicDer;
  }

  lemma NothingDecoded()
    ensures Base64.Decoded([], 0, 0) == []
  {
  }

  lemma SpkiNotEmpty(pub: seq<Byte>)
    ensures DkimSpkiDer(pub) != []
  {
    hide MinimalLength;
  }

  /** The checks before the key all pass. */
  lemma NoEarlyStatus(headers: seq<string>, body: string, d: string, s: string, names: seq<string>, b: string,
        sha: string -> Digest)
    requires HeaderNames(names) && names != [] && d != [] && s != []
    requires PlainValues(d, s, Join(names, ":"), BodyHash(body, sha), b)
    requires forall i :: 0 <= i < |names| ==> |names[i]| <= 10
    ensures var field := SignatureField(d, s, Join(names, ":"), BodyHash(body, sha), b);
            EarlyStatus([field] + headers, body, field, sha) == None
  {
    var h, bh := Join(names, ":"), BodyHash(body, sha);
    TagsOfField(d, s, h, bh, b);
    VerifierText(headers, body, d, s, names, bh, b);
    NamesRead(names);
    AlgorithmLower();
    hide SignatureField, ParsedTags, VerifyInputs, RelaxedBody, RelaxedHeader, LastFields, TrimCrlf, LowerNames,
          Split, Join,
         LowerAscii, HeaderNames, Plain, Base64.Encoded, WithoutSpace;
    WithoutSpacePlain(bh);
  }

  lemma AlgorithmLower()
    ensures LowerAscii("rsa-sha256") == "rsa-sha256"
  {
  }

  /** A key that signs, and whose public half fits the record. */
  ghost predicate SigningKey(key: RsaKey, p: nat, q: nat)
    ensures SigningKey(key, p, q) ==> key.k >= 62
  {
    && KeyPair(p, q, Val(key.e), Val(key.d)) && Val(key.n) == p * q
    && key.k == ModulusBytes(key.n) && key.k >= 64
    && |AlgorithmId() + Tlv(0x03, [0x00] + PublicDer(Val(key.n), Val(key.e)))| < 0x100_0000
  }

  /** The key check on a signature made over one text and seen with another: pass exactly when the digests agree. */
  lemma KeyVerdict(signed: string, seen: string, key: RsaKey, p: nat, q: nat, sha: string -> Digest)
    requires SigningKey(key, p, q)
    ensures var b := Base64.Encoded(SignatureOf(Val(key.n), Val(key.d), key.k, sha(signed)));
            KeyStatus(seen, b, Some(TxtRecord(Val(key.n), Val(key.e))), sha) == if sha(seen) == sha(signed) then Pass
                  else Fail
  {
    hide ExtractKey, PublicFromDer, Accepts, WithoutSpace, Base64.Decoded, Base64.Encoded, SignatureOf, TxtRecord,
          Plain, KeyPair,
         AlgorithmId, Tlv, PublicDer, ModulusBytes, ByteLen;
    var sig := SignatureOf(Val(key.n), Val(key.d), key.k, sha(signed));
    ModulusBytesIsByteLen(key.n);
    PublishedKey(Val(key.n), Val(key.e));
    AcceptsOnlyItsDigest(key, p, q, sha(signed), sha(seen));
    Base64Plain(sig);
    WithoutSpacePlain(Base64.Encoded(sig));
    Base64.RoundTrip(sig);
  }

  /** The field the signer emits for a message and a key. */
  ghost function Emitted(raw: string, d: string, s: string, key: RsaKey, sha: string -> Digest): string
    requires key.k >= 62
  {
    Unsigned(raw, d, s, sha)
    + Base64.Encoded(SignatureOf(Val(key.n), Val(key.d), key.k, sha(SignInputs(raw, d, s, sha).header)))
  }

  /** With the key published under its selector, any signed message verifies as pass exactly when the header text the
      verifier puts together has the digest of the one the signer hashed, and as fail otherwise. */
  lemma SignedMessageVerdict(raw: string, d: string, s: string, key: RsaKey, p: nat, q: nat, sha: string -> Digest,
                             lookup: string -> Option<string>)
    requires Signable(raw, d, s) && Listed(raw) != [] && SigningKey(key, p, q)
    requires lookup(KeyName(s, d)) == Some(TxtRecord(Val(key.n), Val(key.e)))
    ensures var field := Emitted(raw, d, s, key, sha);
            var out := SplitText(Prepended(field, raw));
            && Fields(out.0) == [field] + Fields(SplitText(raw).0)
            && FieldNamed(field, "dkim-signature")
            && Verified(Fields(out.0), out.1, field, lookup, sha)
               == if sha(VerifyInputs(Fields(out.0), out.1, field).header) == sha(SignInputs(raw, d, s, sha).header)
                  then Pass else Fail
  {
    var text := SignInputs(raw, d, s, sha).header;
    var sig := SignatureOf(Val(key.n), Val(key.d), key.k, sha(text));
    var b := Base64.Encoded(sig);
    Base64Plain(sig);
    EmittedField(raw, d, s, b, sha);
    EmittedIs(raw, d, s, key, sha);
    ListedNames(raw);
    NonEmptyNames(raw, d, s);
    hide *;
    var headers, body, names := Fields(SplitText(raw).0), SplitText(raw).1, Listed(raw);
    var h, bh := Join(names, ":"), BodyHash(body, sha);
    var field := SignatureField(d, s, h, bh, b);
    FieldParts(d, s, h, bh, b);
    FieldBearsOtherName(field, "");
    StartsAt(raw, d, s);
    PrependedParts(field, raw);
    NoEarlyStatus(headers, body, d, s, names, b, sha);
    TagsOfField(d, s, h, bh, b);
    KeyVerdict(text, VerifyInputs([field] + headers, body, field).header, key, p, q, sha);
    VerifiedIs([field] + headers, body, field, lookup, sha);
  }

  lemma FieldCallsFor(d: string, s: string, h: string, bh: string, b: string, body: string)
    requires PlainValues(d, s, h, bh, b) && d != [] && s != []
    ensures var tags := ParsedTags(SignatureField(d, s, h, bh, b));
            Complete(tags) && CalledFor(tags, body) == RelaxedBody(body) && tags["bh"] == bh
  {
    hide SignatureField, ParsedTags, RelaxedBody, SimpleBody, LowerAscii, BodyRelaxed, PlainValues;
    TagsOfField(d, s, h, bh, b);
    AlgorithmLower();
    WholeBodyRelaxed(ParsedTags(SignatureField(d, s, h, bh, b)));
    assert body[..|body|] == body;
  }

  /** The emitted field calls for the relaxed form of the whole body and carries its hash. */
  lemma EmittedCallsFor(raw: string, d: string, s: string, key: RsaKey, sha: string -> Digest, body: string)
    requires Signable(raw, d, s) && key.k >= 62
    ensures var tags := ParsedTags(Emitted(raw, d, s, key, sha));
            && Complete(tags) && CalledFor(tags, body) == RelaxedBody(body)
            && "bh" in tags && WithoutSpace(tags["bh"]) == Base64.Encoded(sha(RelaxedBody(SplitText(raw).1)))
  {
    NonEmptyNames(raw, d, s);
    hide *;
    var sig := SignatureOf(Val(key.n), Val(key.d), key.k, sha(SignInputs(raw, d, s, sha).header));
    var b := Base64.Encoded(sig);
    Base64Plain(sig);
    EmittedField(raw, d, s, b, sha);
    EmittedIs(raw, d, s, key, sha);
    PlainBodyHash(raw, sha);
    FieldCallsFor(d, s, Join(Listed(raw), ":"), BodyHash(SplitText(raw).1, sha), b, body);
    HasBodyHash(ParsedTags(Emitted(raw, d, s, key, sha)));
  }

  lemma HasBodyHash(tags: map<string, string>)
    requires Complete(tags)
    ensures "bh" in tags
  {
    hide LowerAscii;
  }

  lemma PlainBodyHash(raw: string, sha: string -> Digest)
    ensures var bh := BodyHash(SplitText(raw).1, sha);
            bh == Base64.Encoded(sha(RelaxedBody(SplitText(raw).1))) && WithoutSpace(bh) == bh
  {
    hide SplitText, RelaxedBody, Base64.Encoded, WithoutSpace;
    Base64Plain(sha(RelaxedBody(SplitText(raw).1)));
    WithoutSpacePlain(BodyHash(SplitText(raw).1, sha));
  }

  lemma WholeBodyRelaxed(tags: map<string, string>)
    requires "c" in tags && tags["c"] == "relaxed/relaxed"
    ensures BodyRelaxed(tags)
  {
    var c := "relaxed/relaxed";
    assert c[7] == '/' && '/' !in c[..7] && c[8..] == "relaxed";
    assert LowerAscii("relaxed") == "relaxed";
  }

  /** Different digests have different encodings. */
  lemma EncodingsDiffer(a: seq<Byte>, b: seq<Byte>)
    ensures Base64.Encoded(a) == Base64.Encoded(b) ==> a == b
  {
    hide Base64.Encoded, Base64.Decoded;
    Base64.RoundTrip(a);
    Base64.RoundTrip(b);
  }

  /** A body replaced on the way by one of another digest: the signer's field fails on it, whatever header fields it
      arrives with and whatever key is published. */
  lemma ReplacedBodyFails(raw: string, d: string, s: string, key: RsaKey, sha: string -> Digest, received: string,
                          lookup: string -> Option<string>)
    requires Signable(raw, d, s) && key.k >= 62
    requires sha(RelaxedBody(SplitText(received).1)) != sha(RelaxedBody(SplitText(raw).1))
    ensures Verified(Fields(SplitText(received).0), SplitText(received).1, Emitted(raw, d, s, key, sha), lookup, sha)
         == Fail
  {
    hide Emitted, Verified, RelaxedBody, SplitText, Fields, ParsedTags, CalledFor, WithoutSpace, Complete,
         Base64.Encoded, Signable, KeyRejects, SignedText, ListedIn, RecordOf;
    var headers, body, field := Fields(SplitText(received).0), SplitText(received).1, Emitted(raw, d, s, key, sha);
    EmittedCallsFor(raw, d, s, key, sha, body);
    EncodingsDiffer(sha(RelaxedBody(body)), sha(RelaxedBody(SplitText(raw).1)));
    VerdictMeans(headers, body, field, lookup, sha);
  }

  /** One field never passes over two bodies with different digests of what its tags call for. */
  lemma PassFixesTheBody(field: string, headers: seq<string>, body: string, lookup: string -> Option<string>,
                         headers': seq<string>, body': string, lookup': string -> Option<string>, sha: string -> Digest)
    requires Verified(headers, body, field, lookup, sha) == Pass
    requires Verified(headers', body', field, lookup', sha) == Pass
    ensures sha(CalledFor(ParsedTags(field), body)) == sha(CalledFor(ParsedTags(field), body'))
  {
    hide Verified, ParsedTags, CalledFor, WithoutSpace, Complete, Base64.Encoded, KeyAccepts, SignedText, ListedIn,
         RecordOf;
    VerdictMeans(headers, body, field, lookup, sha);
    VerdictMeans(headers', body', field, lookup', sha);
    EncodingsDiffer(sha(CalledFor(ParsedTags(field), body)), sha(CalledFor(ParsedTags(field), body')));
  }

  lemma EmittedIs(raw: string, d: string, s: string, key: RsaKey, sha: string -> Digest)
    requires key.k >= 62
    ensures Emitted(raw, d, s, key, sha)
         == Unsigned(raw, d, s, sha)
            + Base64.Encoded(SignatureOf(Val(key.n), Val(key.d), key.k, sha(SignInputs(raw, d, s, sha).header)))
  {
    hide Unsigned, SignInputs, SignatureOf, Base64.Encoded;
  }

  /** Every listed name agrees between its first and its last field. */
  predicate SameInstances(raw: string) {
    forall i :: 0 <= i < |Listed(raw)| ==> SameInstance(Fields(SplitText(raw).0), Listed(raw)[i])
  }

  /** A message whose first and last instances agree passes. */
  lemma SignedMessagePasses(raw: string, d: string, s: string, key: RsaKey, p: nat, q: nat, sha: string -> Digest,
                            lookup: string -> Option<string>)
    requires Signable(raw, d, s) && Listed(raw) != [] && SameInstances(raw) && SigningKey(key, p, q)
    requires lookup(KeyName(s, d)) == Some(TxtRecord(Val(key.n), Val(key.e)))
    ensures var field := Emitted(raw, d, s, key, sha);
            var out := SplitText(Prepended(field, raw));
            Verified(Fields(out.0), out.1, field, lookup, sha) == Pass
  {
    SigningBlock(key, p, q);
    Instances(raw);
    var b := Base64.Encoded(SignatureOf(Val(key.n), Val(key.d), key.k, sha(SignInputs(raw, d, s, sha).header)));
    Base64Plain(SignatureOf(Val(key.n), Val(key.d), key.k, sha(SignInputs(raw, d, s, sha).header)));
    EmittedIs(raw, d, s, key, sha);
    hide *;
    SignedMessageVerdict(raw, d, s, key, p, q, sha, lookup);
    HashesAgree(raw, d, s, b, sha);
  }

  lemma SigningBlock(key: RsaKey, p: nat, q: nat)
    requires SigningKey(key, p, q)
    ensures key.k >= 62
  {
  }

  lemma Instances(raw: string)
    requires SameInstances(raw)
    ensures forall i :: 0 <= i < |Listed(raw)| ==> SameInstance(Fields(SplitText(raw).0), Listed(raw)[i])
  {
    hide Fields, SplitText, SameInstance, Listed;
  }

  lemma NonEmptyNames(raw: string, d: string, s: string)
    requires Signable(raw, d, s)
    ensures d != [] && s != []
  {
  }

  lemma VerifiedIs(headers: seq<string>, body: string, field: string, lookup: string -> Option<string>,
        sha: string -> Digest)
    requires EarlyStatus(headers, body, field, sha) == None
    ensures var tags := ParsedTags(field);
            Verified(headers, body, field, lookup, sha)
            == KeyStatus(VerifyInputs(headers, body, field).header, TagOr(tags, "b", ""),
                         lookup(KeyName(TagOr(tags, "s", ""), TagOr(tags, "d", ""))), sha)
  {
    hide EarlyStatus, ParsedTags, KeyStatus, VerifyInputs, TagOr, KeyName;
  }
}

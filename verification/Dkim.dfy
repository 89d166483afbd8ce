/** DKIM signing and verification (RFC 6376), relaxed/relaxed with rsa-sha256. */
module Dkim {
  import opened Results
  import opened Octets
  import opened Text
  import opened DkimText
  import opened Limbs
  import opened Rsa
  import opened KeyCodec
  import Base64

  type Digest = s: seq<Byte> | |s| == 32 witness ZeroBytes(32)

  const SIGN_HEADERS: seq<string> := ["from", "to", "subject", "date", "message-id"]
  const MAX_USIZE: nat := 0xFFFF_FFFF_FFFF_FFFF

  /** What goes into the two hashes. */
  datatype Inputs = Inputs(body: string, header: string)

  // ----- finding header fields -----

  predicate FieldNamed(field: string, name: string) {
    var colon := Find(field, ':');
    colon < |field| && LowerAscii(Trim(field[..colon])) == LowerAscii(name)
  }

  function FirstNamed(headers: seq<string>, name: string): (f: Option<string>)
    ensures f.Some? ==> f.value in headers && FieldNamed(f.value, name)
  {
    if headers == [] then None
    else if FieldNamed(headers[0], name) then Some(headers[0])
    else FirstNamed(headers[1..], name)
  }

  function LastNamed(headers: seq<string>, name: string): Option<string> {
    if headers == [] then None
    else if FieldNamed(headers[|headers| - 1], name) then Some(headers[|headers| - 1])
    else LastNamed(headers[..|headers| - 1], name)
  }

  method FindHeader(headers: seq<string>, name: string) returns (f: Option<string>)
    ensures f == FirstNamed(headers, name)
  {
    assert headers[0..] == headers;
    for i := 0 to |headers|
      invariant FirstNamed(headers[i..], name) == FirstNamed(headers, name)
    {
      assert headers[i..][1..] == headers[i + 1..];
      if FieldNamed(headers[i], name) { return Some(headers[i]); }
    }
    f := None;
  }

  // ----- the signer -----

  /** The names the signer lists, and the text of their first instances. */
  function Present(headers: seq<string>, names: seq<string>): seq<string> {
    if names == [] then []
    else (if FirstNamed(headers, names[0]).Some? then [names[0]] else []) + Present(headers, names[1..])
  }

  function SignedFields(headers: seq<string>, names: seq<string>): string {
    if names == [] then []
    else
      var f := FirstNamed(headers, names[0]);
      (if f.Some? then RelaxedHeader(f.value) else []) + SignedFields(headers, names[1..])
  }

  /** Only these five fields are ever signed, in this order. */
  lemma {:induction false} PresentAmong(headers: seq<string>, name: string)
    ensures name in Present(headers, SIGN_HEADERS) <==>
              name in ["from", "to", "subject", "date", "message-id"] && FirstNamed(headers, name).Some?
  {
    hide FirstNamed;
    PresentIn(headers, SIGN_HEADERS, name);
  }

  lemma {:induction false} PresentIn(headers: seq<string>, names: seq<string>, name: string)
    ensures name in Present(headers, names) <==> name in names && FirstNamed(headers, name).Some?
    decreases |names|
  {
    hide FirstNamed;
    if names == [] {
    } else {
      PresentIn(headers, names[1..], name);
      assert names == [names[0]] + names[1..];
    }
  }

  const SIGNATURE_NAME: string := "DKIM-Signature"

  function Tag(key: string, value: string): string {
    " " + key + "=" + value
  }

  function TagTexts(tags: seq<(string, string)>): (r: seq<string>)
    ensures |r| == |tags|
  {
    if tags == [] then [] else [Tag(tags[0].0, tags[0].1)] + TagTexts(tags[1..])
  }

  function SignatureTags(d: string, s: string, h: string, bh: string, b: string): seq<(string, string)> {
    [("v", "1"), ("a", "rsa-sha256"), ("c", "relaxed/relaxed"), ("d", d), ("s", s), ("h", h), ("bh", bh), ("b", b)]
  }

  /** "DKIM-Signature: v=1; a=rsa-sha256; c=relaxed/relaxed; d=..; s=..; h=..; bh=..; b=.." */
  function SignatureField(d: string, s: string, h: string, bh: string, b: string): string {
    SIGNATURE_NAME + ":" + Join(TagTexts(SignatureTags(d, s, h, bh, b)), ";")
  }

  function BodyHash(body: string, sha: string -> Digest): string {
    Base64.Encoded(sha(RelaxedBody(body)))
  }

  /** The signature field with an empty b=, before any signature. */
  function Unsigned(raw: string, d: string, s: string, sha: string -> Digest): string {
    var headers, body := Fields(SplitText(raw).0), SplitText(raw).1;
    SignatureField(d, s, Join(Present(headers, SIGN_HEADERS), ":"), BodyHash(body, sha), "")
  }

  /** What sign hashes. */
  function SignInputs(raw: string, d: string, s: string, sha: string -> Digest): Inputs {
    var headers, body := Fields(SplitText(raw).0), SplitText(raw).1;
    Inputs(RelaxedBody(body),
           SignedFields(headers, SIGN_HEADERS) + TrimCrlf(RelaxedHeader(Unsigned(raw, d, s, sha))))
  }

  method Sign(raw: string, d: string, s: string, key: RsaKey, sha: string -> Digest) returns (r: Option<string>)
    ensures r.Some? <==> Present(Fields(SplitText(raw).0), SIGN_HEADERS) != [] && key.k >= 62
    ensures r.Some? ==>
              r.value == Unsigned(raw, d, s, sha)
                       + Base64.Encoded(SignatureOf(Val(key.n), Val(key.d), key.k,
                             sha(SignInputs(raw, d, s, sha).header)))
  {
    hide Fields, RelaxedHeader, RelaxedBody, SignatureField, TrimCrlf, FirstNamed;
    var headers, body := SplitMessage(raw);
    var bodyCanon := CanonicalizeBodyRelaxed(body);
    var bh := Base64.Encode(sha(bodyCanon));
    var hList: seq<string>, signedCanon: string := [], [];
    var names := SIGN_HEADERS;
    assert names[0..] == names;
    for i := 0 to |names|
      invariant hList + Present(headers, names[i..]) == Present(headers, names)
      invariant signedCanon + SignedFields(headers, names[i..]) == SignedFields(headers, names)
    {
      hList, signedCanon := CollectField(headers, names, i, hList, signedCanon);
    }
    assert hList + [] == hList && signedCanon + [] == signedCanon;
    if hList == [] { return None; }
    var dkimForHash := SignatureField(d, s, Join(hList, ":"), bh, "");
    var dkimCanon := CanonicalizeHeaderRelaxed(dkimForHash);
    var toSign := signedCanon + TrimCrlf(dkimCanon);
    var sig := SignDigest(key, sha(toSign));
    if sig.Err? { return None; }
    var b := Base64.Encode(sig.value);
    r := Some(dkimForHash + b);
  }

  /** One round of the signer's loop over names. */
  method CollectField(headers: seq<string>, names: seq<string>, i: nat, hList: seq<string>, signedCanon: string)
      returns (hList': seq<string>, signedCanon': string)
    requires i < |names|
    ensures hList' + Present(headers, names[i + 1..]) == hList + Present(headers, names[i..])
    ensures signedCanon' + SignedFields(headers, names[i + 1..]) == signedCanon + SignedFields(headers, names[i..])
  {
    hide *;
    hList', signedCanon' := hList, signedCanon;
    PresentStep(headers, names, i);
    SignedStep(headers, names, i);
    var field := FindHeader(headers, names[i]);
    if field.Some? {
      ConcatAssoc(hList, [names[i]], Present(headers, names[i + 1..]));
      hList' := hList + [names[i]];
      var canon := CanonicalizeHeaderRelaxed(field.value);
      ConcatAssoc(signedCanon, canon, SignedFields(headers, names[i + 1..]));
      signedCanon' := signedCanon + canon;
    }
  }

  lemma PresentStep(headers: seq<string>, names: seq<string>, i: nat)
    requires i < |names|
    ensures Present(headers, names[i..])
         == if FirstNamed(headers, names[i]).Some? then [names[i]] + Present(headers, names[i + 1..])
            else Present(headers, names[i + 1..])
  {
    hide FirstNamed;
    assert names[i..][1..] == names[i + 1..];
  }

  lemma SignedStep(headers: seq<string>, names: seq<string>, i: nat)
    requires i < |names|
    ensures var f := FirstNamed(headers, names[i]);
            SignedFields(headers, names[i..])
            == if f.Some? then RelaxedHeader(f.value) + SignedFields(headers, names[i + 1..])
               else SignedFields(headers, names[i + 1..])
  {
    hide FirstNamed, RelaxedHeader;
    assert names[i..][1..] == names[i + 1..];
  }

  /** sign_and_prepend: the field, CRLF, the message. */
  method SignAndPrepend(raw: string, d: string, s: string, key: RsaKey, sha: string -> Digest)
    returns (r: Option<string>)
    ensures r.Some? <==> Present(Fields(SplitText(raw).0), SIGN_HEADERS) != [] && key.k >= 62
    ensures r.Some? ==>
              var sig := SignatureOf(Val(key.n), Val(key.d), key.k, sha(SignInputs(raw, d, s, sha).header));
              r.value == Prepended(Unsigned(raw, d, s, sha) + Base64.Encoded(sig), raw)
  {
    hide Fields, SplitText, Present, Unsigned, SignInputs;
    var field := Sign(raw, d, s, key, sha);
    if field.None? { return None; }
    var out := field.value;
    if !EndsWithCrlf(field.value) { out := out + CRLF; }
    r := Some(out + raw);
  }

  function Prepended(field: string, raw: string): string {
    (if EndsWithCrlf(field) then field else field + CRLF) + raw
  }

  // ----- tags -----

  function TagValue(field: string): string {
    var colon := Find(field, ':');
    if colon < |field| then field[colon + 1..] else field
  }

  /** Key and value of one part of a tag list. */
  function TagOf(part: string): Option<(string, string)> {
    var p := Trim(part);
    var eq := Find(p, '=');
    if p == [] || eq == |p| then None else Some((LowerAscii(Trim(p[..eq])), Trim(p[eq + 1..])))
  }

  function WithTag(tags: map<string, string>, part: string): map<string, string> {
    var t := TagOf(part);
    if t.None? then tags else tags[t.value.0 := t.value.1]
  }

  function TagsFrom(parts: seq<string>, tags: map<string, string>): map<string, string>
    decreases |parts|
  {
    if parts == [] then tags else TagsFrom(parts[1..], WithTag(tags, parts[0]))
  }

  function ParsedTags(field: string): map<string, string> {
    TagsFrom(Split(Unfolded(TagValue(field)), ';'), map[])
  }

  method ParseDkimTags(field: string) returns (tags: map<string, string>)
    ensures tags == ParsedTags(field)
  {
    hide TagOf;
    var unfolded := Unfold(TagValue(field));
    tags := map[];
    var parts := Split(unfolded, ';');
    assert parts[0..] == parts;
    for i := 0 to |parts|
      invariant TagsFrom(parts[i..], tags) == TagsFrom(parts, map[])
    {
      assert parts[i..][1..] == parts[i + 1..];
      var t := TagOf(parts[i]);
      if t.Some? { tags := tags[t.value.0 := t.value.1]; }
    }
  }

  function WithoutLineEnds(s: string): string {
    if s == [] then [] else (if s[0] == '\r' || s[0] == '\n' then [] else [s[0]]) + WithoutLineEnds(s[1..])
  }

  /** A part of the tag list with the value of b= removed; None for an empty part. */
  function EmptiedPart(part: string): Option<string> {
    var p := Trim(part);
    var eq := Find(p, '=');
    if p == [] then None
    else if eq < |p| && LowerAscii(Trim(p[..eq])) == "b" then Some("b=")
    else Some(p)
  }

  function EmptiedParts(parts: seq<string>): seq<string> {
    if parts == [] then []
    else (if EmptiedPart(parts[0]).Some? then [EmptiedPart(parts[0]).value] else []) + EmptiedParts(parts[1..])
  }

  function EmptyB(field: string): string {
    var colon := Find(field, ':');
    var name := if colon < |field| then field[..colon] else SIGNATURE_NAME;
    Trim(name) + ": " + Join(EmptiedParts(Split(WithoutLineEnds(TagValue(field)), ';')), "; ")
  }

  method RemoveLineEnds(value: string) returns (out: string)
    ensures out == WithoutLineEnds(value)
  {
    out := [];
    assert value[0..] == value;
    for i := 0 to |value|
      invariant out + WithoutLineEnds(value[i..]) == WithoutLineEnds(value)
    {
      LineEndStep(value, i);
      if value[i] != '\r' && value[i] != '\n' {
        ConcatAssoc(out, [value[i]], WithoutLineEnds(value[i + 1..]));
        out := out + [value[i]];
      }
    }
    assert out + [] == out;
  }

  lemma LineEndStep(s: string, i: nat)
    requires i < |s|
    ensures WithoutLineEnds(s[i..])
         == if s[i] == '\r' || s[i] == '\n' then WithoutLineEnds(s[i + 1..]) else [s[i]] + WithoutLineEnds(s[i + 1..])
  {
    assert s[i..][1..] == s[i + 1..];
  }

  method EmptyParts(split: seq<string>) returns (parts: seq<string>)
    ensures parts == EmptiedParts(split)
  {
    hide EmptiedPart;
    parts := [];
    assert split[0..] == split;
    for i := 0 to |split|
      invariant parts + EmptiedParts(split[i..]) == EmptiedParts(split)
    {
      EmptiedStep(split, i);
      var p := EmptiedPart(split[i]);
      if p.Some? {
        ConcatAssoc(parts, [p.value], EmptiedParts(split[i + 1..]));
        parts := parts + [p.value];
      }
    }
    assert parts + [] == parts;
  }

  lemma EmptiedStep(parts: seq<string>, i: nat)
    requires i < |parts|
    ensures var p := EmptiedPart(parts[i]);
            EmptiedParts(parts[i..])
            == if p.Some? then [p.value] + EmptiedParts(parts[i + 1..]) else EmptiedParts(parts[i + 1..])
  {
    hide EmptiedPart;
    assert parts[i..][1..] == parts[i + 1..];
  }

  method EmptyBTag(field: string) returns (out: string)
    ensures out == EmptyB(field)
  {
    hide EmptiedParts, WithoutLineEnds, Trim, Split, Join, TagValue;
    var colon := Find(field, ':');
    var name := if colon < |field| then field[..colon] else SIGNATURE_NAME;
    var unfolded := RemoveLineEnds(TagValue(field));
    var parts := EmptyParts(Split(unfolded, ';'));
    out := Trim(name) + ": " + Join(parts, "; ");
  }

  ghost predicate HasTag(part: string, key: string) {
    TagOf(part).Some? && TagOf(part).value.0 == key
  }

  /** A key is in the tags exactly when some part bears it, and its value is that of the last such part. */
  lemma {:induction false} LastTagWins(parts: seq<string>, tags: map<string, string>, key: string)
    ensures key in TagsFrom(parts, tags) <==>
              key in tags || exists i :: 0 <= i < |parts| && HasTag(parts[i], key)
    ensures forall i :: 0 <= i < |parts| && HasTag(parts[i], key)
                        && (forall j :: i < j < |parts| ==> !HasTag(parts[j], key)) ==>
              TagsFrom(parts, tags)[key] == TagOf(parts[i]).value.1
    ensures key in tags && (forall i :: 0 <= i < |parts| ==> !HasTag(parts[i], key)) ==>
              TagsFrom(parts, tags)[key] == tags[key]
    decreases |parts|
  {
    hide TagOf;
    if parts == [] {
    } else {
      LastTagWins(parts[1..], WithTag(tags, parts[0]), key);
    }
  }

  // ----- the verifier -----

  function TagOr(tags: map<string, string>, key: string, default: string): string {
    if key in tags then tags[key] else default
  }

  function Relaxed(mode: string): bool {
    LowerAscii(mode) == "relaxed"
  }

  /** Modes for header and body in a c= value. */
  function SplitCanon(c: string): (string, string) {
    var i := Find(c, '/');
    if i < |c| then (c[..i], c[i + 1..]) else (c, "simple")
  }

  function LowerNames(parts: seq<string>): seq<string> {
    if parts == [] then []
    else
      var n := LowerAscii(Trim(parts[0]));
      (if n == [] then [] else [n]) + LowerNames(parts[1..])
  }

  /** The last field below end of that name whose index is not used. */
  function LastUnused(headers: seq<string>, used: set<nat>, name: string, end: nat): (i: Option<nat>)
    requires end <= |headers|
    ensures i.Some? ==> i.value < end
  {
    if end == 0 then None
    else if end - 1 !in used && FieldNamed(headers[end - 1], name) then Some(end - 1)
    else LastUnused(headers, used, name, end - 1)
  }

  /** The field found bears the name and is not used; no field behind it is both. */
  lemma {:induction false} LastUnusedIs(headers: seq<string>, used: set<nat>, name: string, end: nat)
    requires end <= |headers|
    ensures var i := LastUnused(headers, used, name, end);
            && (i.Some? ==> i.value !in used && FieldNamed(headers[i.value], name))
            && forall k: nat :: (if i.Some? then i.value < k else true) && k < end && k !in used ==>
                 !FieldNamed(headers[k], name)
    decreases end
  {
    hide FieldNamed;
    if end > 0 && !(end - 1 !in used && FieldNamed(headers[end - 1], name)) {
      LastUnusedIs(headers, used, name, end - 1);
    }
  }

  function HeaderForm(field: string, relaxed: bool): string {
    if relaxed then RelaxedHeader(field) else SimpleHeader(field)
  }

  /** The fields the names of h= select, each the last unused one of its name. */
  function Selected(headers: seq<string>, names: seq<string>, used: set<nat>, relaxed: bool): string
    decreases |names|
  {
    if names == [] then []
    else
      var i := LastUnused(headers, used, names[0], |headers|);
      if i.None? then Selected(headers, names[1..], used, relaxed)
      else HeaderForm(headers[i.value], relaxed) + Selected(headers, names[1..], used + {i.value}, relaxed)
  }

  /** A name listed twice selects the last field of that name, and then the last but one. */
  lemma ListedTwice(headers: seq<string>, name: string, i: nat, j: nat, relaxed: bool)
    requires j < i < |headers| && FieldNamed(headers[i], name) && FieldNamed(headers[j], name)
    requires forall k: nat :: j < k < |headers| && k != i ==> !FieldNamed(headers[k], name)
    ensures Selected(headers, [name, name], {}, relaxed)
         == HeaderForm(headers[i], relaxed) + HeaderForm(headers[j], relaxed)
  {
    hide FieldNamed, HeaderForm, LastUnused;
    LastUnusedIs(headers, {}, name, |headers|);
    LastUnusedIs(headers, {i}, name, |headers|);
    var names := [name, name];
    assert names[0..] == names && names[1..] == [name] && names[2..] == [];
    SelectedStep(headers, names, 0, {}, relaxed);
    SelectedStep(headers, names, 1, {i}, relaxed);
    assert {} + {i} == {i};
    assert Selected(headers, [], {i} + {j}, relaxed) == [];
    assert HeaderForm(headers[j], relaxed) + [] == HeaderForm(headers[j], relaxed);
  }

  /** Scans upwards from the last field for one that is not used. */
  method FindLast(headers: seq<string>, used: array<bool>, ghost taken: set<nat>, name: string)
    returns (at: Option<nat>)
    requires used.Length == |headers| && forall i :: 0 <= i < |headers| ==> (used[i] <==> i in taken)
    ensures at == LastUnused(headers, taken, name, |headers|)
  {
    hide FieldNamed;
    var i := |headers|;
    while i > 0
      invariant 0 <= i <= |headers|
      invariant LastUnused(headers, taken, name, i) == LastUnused(headers, taken, name, |headers|)
    {
      i := i - 1;
      if used[i] { continue; }
      if FieldNamed(headers[i], name) { return Some(i); }
    }
    at := None;
  }

  lemma SelectedStep(headers: seq<string>, names: seq<string>, j: nat, used: set<nat>, relaxed: bool)
    requires j < |names|
    ensures var i := LastUnused(headers, used, names[j], |headers|);
            Selected(headers, names[j..], used, relaxed)
            == if i.None? then Selected(headers, names[j + 1..], used, relaxed)
               else HeaderForm(headers[i.value], relaxed) + Selected(headers, names[j + 1..], used + {i.value}, relaxed)
  {
    hide LastUnused, HeaderForm;
    assert names[j..][1..] == names[j + 1..];
  }

  method SelectFields(headers: seq<string>, names: seq<string>, relaxed: bool) returns (out: string)
    ensures out == Selected(headers, names, {}, relaxed)
  {
    hide LastUnused, HeaderForm;
    var used := new bool[|headers|](_ => false);
    ghost var taken: set<nat> := {};
    out := [];
    assert names[0..] == names;
    for j := 0 to |names|
      invariant forall i :: 0 <= i < |headers| ==> (used[i] <==> i in taken)
      invariant out + Selected(headers, names[j..], taken, relaxed) == Selected(headers, names, {}, relaxed)
    {
      SelectedStep(headers, names, j, taken, relaxed);
      var at := FindLast(headers, used, taken, names[j]);
      if at.Some? {
        used[at.value] := true;
        var canon := CanonicalForm(headers[at.value], relaxed);
        taken := taken + {at.value};
        ConcatAssoc(out, canon, Selected(headers, names[j + 1..], taken, relaxed));
        out := out + canon;
      }
    }
    assert out + [] == out;
  }

  method CanonicalForm(field: string, relaxed: bool) returns (out: string)
    ensures out == HeaderForm(field, relaxed)
  {
    if relaxed {
      out := CanonicalizeHeaderRelaxed(field);
    } else {
      out := CanonicalizeHeaderSimple(field);
    }
  }

  function BodyForHash(tags: map<string, string>, body: string): string {
    if "l" in tags then
      var n := ParseUnsigned(tags["l"], MAX_USIZE);
      if n.Some? && n.value < |body| then body[..n.value] else body
    else body
  }

  function Modes(tags: map<string, string>): (string, string) {
    SplitCanon(TagOr(tags, "c", "simple/simple"))
  }

  /** What verify_one hashes for a field. */
  function VerifyInputs(headers: seq<string>, body: string, field: string): Inputs {
    var tags := ParsedTags(field);
    var hdrRelaxed := Relaxed(Modes(tags).0);
    var text := BodyForHash(tags, body);
    Inputs(if Relaxed(Modes(tags).1) then RelaxedBody(text) else SimpleBody(text),
           Selected(headers, LowerNames(Split(TagOr(tags, "h", ""), ':')), {}, hdrRelaxed)
           + TrimCrlf(HeaderForm(EmptyB(field), hdrRelaxed)))
  }

  function WithoutSpace(s: string): string {
    if s == [] then [] else (if IsSpace(s[0]) then [] else [s[0]]) + WithoutSpace(s[1..])
  }

  lemma WithoutSpaceStep(c: char, s: string)
    ensures WithoutSpace([c] + s) == (if IsSpace(c) then [] else [c]) + WithoutSpace(s)
  {
    hide IsSpace;
    assert ([c] + s)[1..] == s;
  }

  lemma WithoutSpaceNone()
    ensures WithoutSpace([]) == []
  {
  }

  /** White space comes out, wherever it stands, and nothing else does. */
  lemma {:induction false} SpaceComesOut(a: string, c: char, b: string)
    ensures WithoutSpace(a + [c] + b) == WithoutSpace(a) + (if IsSpace(c) then [] else [c]) + WithoutSpace(b)
    decreases |a|
  {
    hide IsSpace, WithoutSpace;
    WithoutSpaceStep(c, b);
    if a == [] {
      assert a + [c] + b == [c] + b;
      WithoutSpaceNone();
    } else {
      assert a == [a[0]] + a[1..] && a + [c] + b == [a[0]] + (a[1..] + [c] + b);
      WithoutSpaceStep(a[0], a[1..]);
      WithoutSpaceStep(a[0], a[1..] + [c] + b);
      SpaceComesOut(a[1..], c, b);
    }
  }

  /** The p= value of a key record, without white space. */
  function KeyValue(parts: seq<string>): Option<string> {
    if parts == [] then None
    else
      var p := Trim(parts[0]);
      var eq := Find(p, '=');
      if eq < |p| && LowerAscii(Trim(p[..eq])) == "p" then Some(WithoutSpace(p[eq + 1..])) else KeyValue(parts[1..])
  }

  function ExtractKey(txt: string): Option<string> {
    KeyValue(Split(WithoutLineEnds(txt), ';'))
  }

  function KeyName(s: string, d: string): string {
    TrimDots(s) + "._domainkey." + TrimDots(d)
  }

  datatype Status = NoSignature | Pass | Fail | TempError | PermError

  /** The checks before any key is fetched; None means the signature has to be checked. */
  function EarlyStatus(headers: seq<string>, body: string, field: string, sha: string -> Digest): Option<Status> {
    var tags := ParsedTags(field);
    if TagOr(tags, "d", "") == [] || TagOr(tags, "s", "") == [] then Some(PermError)
    else if LowerAscii(TagOr(tags, "a", "rsa-sha256")) != "rsa-sha256" then Some(PermError)
    else if "bh" !in tags || "b" !in tags then Some(PermError)
    else if Base64.Encoded(sha(VerifyInputs(headers, body, field).body)) != WithoutSpace(tags["bh"]) then Some(Fail)
    else if LowerNames(Split(TagOr(tags, "h", ""), ':')) == [] then Some(PermError)
    else None
  }

  /** The checks of the key and the signature. */
  ghost function KeyStatus(header: string, b: string, txt: Option<string>, sha: string -> Digest): Status {
    hide ExtractKey, PublicFromDer, Accepts, WithoutSpace, Base64.Decoded;
    if txt.None? then TempError
    else
      var p := ExtractKey(txt.value);
      if p.None? then PermError
      else if p.value == [] then Fail
      else
        var key := PublicFromDer(Base64.Decoded(p.value, 0, 0));
        if key.Err? then PermError
        else if Accepts(key.value.n, key.value.e, key.value.k, sha(header), Base64.Decoded(WithoutSpace(b), 0, 0))
              then Pass
        else Fail
  }

  ghost function Verified(headers: seq<string>, body: string, field: string, lookup: string -> Option<string>,
                          sha: string -> Digest): Status {
    var early := EarlyStatus(headers, body, field, sha);
    if early.Some? then early.value
    else
      var tags := ParsedTags(field);
      KeyStatus(VerifyInputs(headers, body, field).header, TagOr(tags, "b", ""),
                lookup(KeyName(TagOr(tags, "s", ""), TagOr(tags, "d", ""))), sha)
  }

  // ----- what the verdicts mean -----

  /** The body mode of c=, the part behind its first slash, is relaxed. */
  ghost predicate BodyRelaxed(tags: map<string, string>) {
    "c" in tags && exists k: nat :: k < |tags["c"]| && tags["c"][k] == '/' && '/' !in tags["c"][..k]
                                    && LowerAscii(tags["c"][k + 1..]) == "relaxed"
  }

  /** The header mode of c=, the part before its first slash, is relaxed. */
  ghost predicate HeaderRelaxed(tags: map<string, string>) {
    "c" in tags && (LowerAscii(tags["c"]) == "relaxed" ||
                    exists k: nat :: k < |tags["c"]| && tags["c"][k] == '/' && '/' !in tags["c"][..k]
                                     && LowerAscii(tags["c"][..k]) == "relaxed")
  }

  /** The body the tags call for: the first l= characters of it if l= is a number, in the body mode of c=. */
  ghost function CalledFor(tags: map<string, string>, body: string): string {
    var limit := if "l" in tags then ParseUnsigned(tags["l"], 0xFFFF_FFFF_FFFF_FFFF) else None;
    var text := if limit.Some? then body[..Min(limit.value, |body|)] else body;
    if BodyRelaxed(tags) then RelaxedBody(text) else SimpleBody(text)
  }

  function Min(a: nat, b: nat): nat {
    if a <= b then a else b
  }

  /** The tags name a domain, a selector and both hashes, and no other algorithm than rsa-sha256. */
  predicate Complete(tags: map<string, string>) {
    && "d" in tags && tags["d"] != [] && "s" in tags && tags["s"] != [] && "bh" in tags && "b" in tags
    && ("a" in tags ==> LowerAscii(tags["a"]) == "rsa-sha256")
  }

  /** bh= is the base64 of the digest of the body called for. */
  ghost predicate BodyMatches(tags: map<string, string>, body: string, sha: string -> Digest) {
    "bh" in tags && WithoutSpace(tags["bh"]) == Base64.Encoded(sha(CalledFor(tags, body)))
  }

  /** The names of h=. */
  function ListedIn(tags: map<string, string>): seq<string> {
    if "h" in tags then LowerNames(Split(tags["h"], ':')) else []
  }

  /** The fields h= lists, then the signature field with its b= emptied, in the header mode of c=. */
  ghost function SignedText(headers: seq<string>, field: string): string {
    var tags := ParsedTags(field);
    var relaxed := HeaderRelaxed(tags);
    Selected(headers, ListedIn(tags), {}, relaxed) + TrimCrlf(HeaderForm(EmptyB(field), relaxed))
  }

  /** The key record of the selector in the domain. */
  function RecordOf(tags: map<string, string>, lookup: string -> Option<string>): Option<string>
    requires Complete(tags)
  {
    lookup(TrimDots(tags["s"]) + "._domainkey." + TrimDots(tags["d"]))
  }

  /** The record holds a key, and the key accepts b= as the signature of the text. */
  ghost predicate KeyAccepts(record: string, text: string, b: string, sha: string -> Digest) {
    hide ExtractKey, PublicFromDer, Accepts, WithoutSpace, Base64.Decoded;
    var p := ExtractKey(record);
    p.Some? && p.value != [] &&
    var key := PublicFromDer(Base64.Decoded(p.value, 0, 0));
    key.Ok? && Accepts(key.value.n, key.value.e, key.value.k, sha(text), Base64.Decoded(WithoutSpace(b), 0, 0))
  }

  /** The record withdraws the key, or holds one that does not accept b=. */
  ghost predicate KeyRejects(record: string, text: string, b: string, sha: string -> Digest) {
    hide ExtractKey, PublicFromDer, Accepts, WithoutSpace, Base64.Decoded;
    var p := ExtractKey(record);
    p.Some? &&
    (p.value == [] ||
     var key := PublicFromDer(Base64.Decoded(p.value, 0, 0));
     key.Ok? && !Accepts(key.value.n, key.value.e, key.value.k, sha(text), Base64.Decoded(WithoutSpace(b), 0, 0)))
  }

  ghost predicate Passes(headers: seq<string>, body: string, field: string, lookup: string -> Option<string>,
                         sha: string -> Digest)
  {
    var tags := ParsedTags(field);
    && Complete(tags) && BodyMatches(tags, body, sha) && ListedIn(tags) != []
    && RecordOf(tags, lookup).Some?
    && KeyAccepts(RecordOf(tags, lookup).value, SignedText(headers, field), tags["b"], sha)
  }

  ghost predicate Fails(headers: seq<string>, body: string, field: string, lookup: string -> Option<string>,
                        sha: string -> Digest)
  {
    var tags := ParsedTags(field);
    && Complete(tags)
    && (!BodyMatches(tags, body, sha) ||
        (ListedIn(tags) != [] && RecordOf(tags, lookup).Some?
         && KeyRejects(RecordOf(tags, lookup).value, SignedText(headers, field), tags["b"], sha)))
  }

  lemma CanonModes(c: string)
    ensures var (h, b) := SplitCanon(c);
            && (LowerAscii(b) == "relaxed" <==>
                exists k: nat :: k < |c| && c[k] == '/' && '/' !in c[..k] && LowerAscii(c[k + 1..]) == "relaxed")
            && (LowerAscii(h) == "relaxed" <==>
                LowerAscii(c) == "relaxed" ||
                exists k: nat :: k < |c| && c[k] == '/' && '/' !in c[..k] && LowerAscii(c[..k]) == "relaxed")
  {
    var i := Find(c, '/');
    forall k: nat | k < |c| && c[k] == '/' && '/' !in c[..k] ensures k == i {
      FindUnique(c, '/', k);
    }
    if i < |c| {
      SlashSurvives(c, i);
    } else {
      assert LowerAscii("simple")[0] == 's';
    }
  }

  /** A text with a slash in it is not relaxed. */
  lemma SlashSurvives(c: string, i: nat)
    requires i < |c| && c[i] == '/'
    ensures LowerAscii(c) != "relaxed"
  {
    assert LowerAscii(c)[i] == '/';
  }

  lemma ModesMean(tags: map<string, string>)
    ensures Relaxed(Modes(tags).0) <==> HeaderRelaxed(tags)
    ensures Relaxed(Modes(tags).1) <==> BodyRelaxed(tags)
  {
    CanonModes(TagOr(tags, "c", "simple/simple"));
    SimpleModes();
    hide SplitCanon, LowerAscii;
  }

  lemma RelaxedHalves(a: string, b: string)
    requires '/' !in a
    ensures SplitCanon(a + "/" + b) == (a, b)
  {
    var c := a + "/" + b;
    assert c == a + ("/" + b);
    FindAfter(a, '/', "/" + b);
    assert c[..|a|] == a && c[|a| + 1..] == b;
  }

  lemma SimpleModes()
    ensures !Relaxed(SplitCanon("simple/simple").0) && !Relaxed(SplitCanon("simple/simple").1)
  {
    RelaxedHalves("simple", "simple");
    assert "simple/simple" == "simple" + "/" + "simple";
    hide SplitCanon;
    assert LowerAscii("simple")[0] == 's';
  }

  lemma InputsMean(headers: seq<string>, body: string, field: string)
    ensures var tags := ParsedTags(field); var inputs := VerifyInputs(headers, body, field);
            && inputs.body == CalledFor(tags, body)
            && inputs.header == SignedText(headers, field)
            && ListedIn(tags) == LowerNames(Split(TagOr(tags, "h", ""), ':'))
  {
    ModesMean(ParsedTags(field));
    NoNamesListed();
    hide ParsedTags, RelaxedBody, SimpleBody, Selected, EmptyB, LowerNames, Split, TrimCrlf, Modes, HeaderForm, Relaxed,
         HeaderRelaxed, BodyRelaxed;
    assert body[..|body|] == body;
  }

  lemma NoNamesListed()
    ensures LowerNames(Split([], ':')) == []
  {
    assert Split([], ':') == [[]];
    assert Trim([]) == [] && LowerAscii([]) == [];
    assert LowerNames([[]]) == [] + LowerNames([[]][1..]);
  }

  /** A field passes exactly when its tags are complete, its body hash is that of the body called for, and the key
      published for it accepts its signature on the text called for; it fails exactly when one of the last two is
      wrong. */
  lemma VerdictMeans(headers: seq<string>, body: string, field: string, lookup: string -> Option<string>,
        sha: string -> Digest)
    ensures Verified(headers, body, field, lookup, sha) == Pass <==> Passes(headers, body, field, lookup, sha)
    ensures Verified(headers, body, field, lookup, sha) == Fail <==> Fails(headers, body, field, lookup, sha)
  {
    InputsMean(headers, body, field);
    AlgorithmDefault();
    hide ParsedTags, VerifyInputs, CalledFor, SignedText, WithoutSpace, LowerNames, Split, LowerAscii, TrimDots,
         Base64.Encoded, Base64.Decoded, ExtractKey, PublicFromDer, Accepts, ListedIn;
  }

  lemma AlgorithmDefault()
    ensures LowerAscii("rsa-sha256") == "rsa-sha256"
  {
  }

  /** verify_one. */
  method VerifyOne(headers: seq<string>, body: string, field: string, lookup: string -> Option<string>,
        sha: string -> Digest)
      returns (status: Status)
    ensures status == Verified(headers, body, field, lookup, sha)
    ensures status == Pass <==> Passes(headers, body, field, lookup, sha)
    ensures status == Fail <==> Fails(headers, body, field, lookup, sha)
  {
    VerdictMeans(headers, body, field, lookup, sha);
    hide Passes, Fails;
    hide ParsedTags, RelaxedHeader, SimpleHeader, RelaxedBody, SimpleBody, Selected, EmptyB, KeyStatus, LowerNames,
         Split, TrimCrlf, BodyForHash, SplitCanon, LowerAscii, WithoutSpace, Base64.Encoded, TrimDots;
    var tags := ParseDkimTags(field);
    var domain, selector := TagOr(tags, "d", ""), TagOr(tags, "s", "");
    if domain == [] || selector == [] { return PermError; }
    if LowerAscii(TagOr(tags, "a", "rsa-sha256")) != "rsa-sha256" { return PermError; }
    var (hdrMode, bodyMode) := SplitCanon(TagOr(tags, "c", "simple/simple"));
    if "bh" !in tags { return PermError; }
    if "b" !in tags { return PermError; }
    var bodyForHash := BodyForHash(tags, body);
    var bodyCanon: string;
    if Relaxed(bodyMode) {
      bodyCanon := CanonicalizeBodyRelaxed(bodyForHash);
    } else {
      bodyCanon := CanonicalizeBodySimple(bodyForHash);
    }
    var bhCalc := Base64.Encode(sha(bodyCanon));
    if bhCalc != WithoutSpace(tags["bh"]) { return Fail; }
    var names := LowerNames(Split(TagOr(tags, "h", ""), ':'));
    if names == [] { return PermError; }
    var signedCanon := SelectFields(headers, names, Relaxed(hdrMode));
    var dkimForHash := EmptyBTag(field);
    var dkimCanon := CanonicalForm(dkimForHash, Relaxed(hdrMode));
    signedCanon := signedCanon + TrimCrlf(dkimCanon);
    status := CheckKey(signedCanon, tags["b"], lookup(KeyName(selector, domain)), sha);
  }

  /** The key record, the key in it, and the signature. */
  method CheckKey(header: string, b: string, txt: Option<string>, sha: string -> Digest) returns (status: Status)
    ensures status == KeyStatus(header, b, txt, sha)
  {
    hide ExtractKey, PublicFromDer, Accepts, WithoutSpace, Base64.Decoded;
    if txt.None? { return TempError; }
    var p := ExtractKey(txt.value);
    if p.None? { return PermError; }
    if p.value == [] { return Fail; }
    var keyDer := Base64.Decode(p.value);
    var key := ReadPublicKey(keyDer);
    if key.Err? { return PermError; }
    var signature := Base64.Decode(WithoutSpace(b));
    var ok := VerifyDigest(key.value, sha(header), signature);
    status := if ok then Pass else Fail;
  }

  /** Which fields verify looks at. */
  function SignatureFields(headers: seq<string>): seq<string> {
    if headers == [] then []
    else (if FieldNamed(headers[0], "dkim-signature") then [headers[0]] else []) + SignatureFields(headers[1..])
  }

  /** verify: one status per DKIM-Signature field, in order; a single NoSignature when there is no such field. */
  method Verify(raw: string, lookup: string -> Option<string>, sha: string -> Digest) returns (statuses: seq<Status>)
    ensures var headers, body := Fields(SplitText(raw).0), SplitText(raw).1;
            var fields := SignatureFields(headers);
            if fields == [] then statuses == [NoSignature]
            else |statuses| == |fields|
                 && forall i :: 0 <= i < |fields| ==>
                      statuses[i] == Verified(headers, body, fields[i], lookup, sha)
                      && (statuses[i] == Pass <==> Passes(headers, body, fields[i], lookup, sha))
                      && (statuses[i] == Fail <==> Fails(headers, body, fields[i], lookup, sha))
  {
    hide *;
    var headers, body := SplitMessage(raw);
    var fields := DkimFields(headers);
    if fields == [] { return [NoSignature]; }
    statuses := [];
    for i := 0 to |fields|
      invariant |statuses| == i
      invariant forall j :: 0 <= j < i ==>
                  statuses[j] == Verified(headers, body, fields[j], lookup, sha)
                  && (statuses[j] == Pass <==> Passes(headers, body, fields[j], lookup, sha))
                  && (statuses[j] == Fail <==> Fails(headers, body, fields[j], lookup, sha))
    {
      var status := VerifyOne(headers, body, fields[i], lookup, sha);
      statuses := statuses + [status];
    }
  }

  method DkimFields(headers: seq<string>) returns (fields: seq<string>)
    ensures fields == SignatureFields(headers)
  {
    hide FieldNamed;
    fields := [];
    assert headers[0..] == headers;
    for i := 0 to |headers|
      invariant fields + SignatureFields(headers[i..]) == SignatureFields(headers)
    {
      assert headers[i..][1..] == headers[i + 1..];
      if FieldNamed(headers[i], "dkim-signature") { fields := fields + [headers[i]]; }
    }
    assert fields + [] == fields;
  }
}

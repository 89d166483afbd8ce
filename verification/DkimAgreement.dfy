/** What the DKIM verifier hashes for a signed message, against what the signer hashed. */
module DkimAgreement {
  import opened Results
  import opened Octets
  import opened Text
  import opened DkimText
  import opened Dkim
  import Base64

  // ----- the prepended field becomes the first field -----

  predicate OneLine(s: string) {
    forall i :: 0 <= i < |s| ==> s[i] != '\r' && s[i] != '\n'
  }

  /** A message starts with a byte that neither continues the field before it nor ends the header. */
  predicate StartsField(s: string) {
    s != [] && !IsWsp(s[0]) && s[0] != '\r' && s[0] != '\n'
  }

  lemma {:induction false} FindTextShifted(front: string, s: string, pat: string)
    requires pat != []
    requires forall i :: 0 <= i < |front| ==> !(pat <= (front + s)[i..])
    ensures ShiftedBy(front, s, pat)
    decreases |front|
  {
    if front == [] {
      assert front + s == s;
    } else {
      assert (front + s)[0..] == front + s;
      assert (front + s)[1..] == front[1..] + s;
      forall i | 0 <= i < |front| - 1 ensures !(pat <= (front[1..] + s)[i..]) {
        assert (front[1..] + s)[i..] == (front + s)[i + 1..];
      }
      FindTextShifted(front[1..], s, pat);
    }
  }

  /** Neither separator starts inside a one-line field and its CRLF. */
  lemma NoSeparatorInFront(field: string, raw: string)
    requires OneLine(field) && StartsField(raw)
    ensures forall i :: 0 <= i < |field + CRLF| ==> !("\r\n\r\n" <= (field + CRLF + raw)[i..])
    ensures forall i :: 0 <= i < |field + CRLF| ==> !("\n\n" <= (field + CRLF + raw)[i..])
  {
    var s := field + CRLF + raw;
    forall i | 0 <= i < |field + CRLF|
      ensures !("\r\n\r\n" <= s[i..]) && !("\n\n" <= s[i..])
    {
      var t := s[i..];
      assert t[0] == s[i];
      if i < |field| {
        assert s[i] == field[i];
      } else if i == |field| {
        assert s[i] == '\r' && |t| >= 3 && t[2] == s[i + 2] == raw[0];
      } else {
        assert s[i] == '\n' && |t| >= 2 && t[1] == s[i + 1] == raw[0];
      }
    }
  }

  lemma SplitTextParts(raw: string)
    requires StartsField(raw)
    ensures StartsField(SplitText(raw).0) && SplitText(raw).0 <= raw
  {
  }

  /** Header and body of the prepended message. */
  lemma PrependedSplit(field: string, raw: string)
    requires OneLine(field) && StartsField(raw)
    ensures SplitText(field + CRLF + raw) == (field + CRLF + SplitText(raw).0, SplitText(raw).1)
  {
    hide *;
    var front := field + CRLF;
    NoSeparatorInFront(field, raw);
    FindTextShifted(front, raw, "\r\n\r\n");
    FindTextShifted(front, raw, "\n\n");
    SplitShifted(front, raw);
  }

  lemma SplitShifted(front: string, raw: string)
    requires ShiftedBy(front, raw, "\r\n\r\n") && ShiftedBy(front, raw, "\n\n")
    ensures SplitText(front + raw) == (front + SplitText(raw).0, SplitText(raw).1)
  {
    var crlf, lf := FindText(raw, "\r\n\r\n"), FindText(raw, "\n\n");
    hide FindText;
    if crlf.Some? {
      CutShifted(front, raw, crlf.value);
      CutShifted(front, raw, crlf.value + 4);
    } else if lf.Some? {
      CutShifted(front, raw, lf.value);
      CutShifted(front, raw, lf.value + 2);
    }
  }

  predicate ShiftedBy(front: string, s: string, pat: string) {
    var k := FindText(s, pat);
    FindText(front + s, pat) == if k.Some? then Some(|front| + k.value) else None
  }

  lemma CutShifted(front: string, s: string, k: nat)
    requires k <= |s|
    ensures (front + s)[..|front| + k] == front + s[..k] && (front + s)[|front| + k..] == s[k..]
  {
  }

  lemma SplitHead(head: string, s: string)
    requires '\n' !in head
    ensures Split(head + "\n" + s, '\n') == [head] + Split(s, '\n')
  {
    var t := head + "\n" + s;
    assert t == head + ("\n" + s);
    FindAfter(head, '\n', "\n" + s);
    assert t[..|head|] == head && t[|head| + 1..] == s;
  }

  lemma FirstLineOf(s: string)
    requires StartsField(s)
    ensures var line := StripCr(Split(s, '\n')[0]); line != [] && !Continues(line)
  {
    var i := Find(s, '\n');
    assert i > 0;
    assert Split(s, '\n')[0] == s[..i];
  }

  /** The prepended field is the first field, and the others are those of the message. */
  lemma PrependedFields(field: string, header: string)
    requires OneLine(field) && field != [] && StartsField(header)
    ensures Fields(field + CRLF + header) == [field] + Fields(header)
  {
    hide *;
    var lines := Split(header, '\n');
    FieldWithCr(field, header);
    SplitHead(field + "\r", header);
    FirstLineOf(header);
    FieldsOf(header);
    FieldsOf(field + CRLF + header);
    FieldsStep([field + "\r"] + lines, []);
    assert ([field + "\r"] + lines)[1..] == lines;
    FieldsStep(lines, field);
    FieldsStep(lines, []);
  }

  lemma FieldWithCr(field: string, header: string)
    requires OneLine(field)
    ensures field + CRLF + header == (field + "\r") + "\n" + header
    ensures '\n' !in field + "\r" && StripCr(field + "\r") == field
    ensures field != [] ==> StripCr(field + "\r") != []
  {
  }

  lemma FieldsOf(header: string)
    ensures Fields(header) == FieldsFrom(Split(header, '\n'), [])
  {
  }

  /** A line that starts a field ends the one before it. */
  lemma FieldsStep(lines: seq<string>, cur: string)
    requires lines != [] && StripCr(lines[0]) != [] && (cur == [] || !Continues(StripCr(lines[0])))
    ensures FieldsFrom(lines, cur) == (if cur == [] then [] else [cur]) + FieldsFrom(lines[1..], StripCr(lines[0]))
  {
  }

  // ----- the tags of the signature field -----

  /** No white space and no semicolon. */
  predicate Plain(s: string) {
    forall i :: 0 <= i < |s| ==> !IsSpace(s[i]) && s[i] != ';'
  }

  predicate KeyText(k: string) {
    k != [] && Plain(k) && '=' !in k && LowerAscii(k) == k
  }

  lemma PlainTrimmed(s: string)
    requires Plain(s)
    ensures Trim(s) == s && Trimmed(s)
  {
    TrimOfTrimmed(s);
  }

  lemma TagRead(k: string, v: string)
    requires KeyText(k) && Plain(v)
    ensures Trim(Tag(k, v)) == k + "=" + v
    ensures TagOf(Tag(k, v)) == Some((k, v))
    ensures EmptiedPart(Tag(k, v)) == Some(if k == "b" then "b=" else k + "=" + v)
  {
    hide Trim, Find, LowerAscii, Plain, Tag;
    TagTrimmed(k, v);
    KeyAndValue(k, v);
    PlainTrimmed(k);
    PlainTrimmed(v);
  }

  lemma TagTrimmed(k: string, v: string)
    requires KeyText(k) && Plain(v)
    ensures Trim(Tag(k, v)) == k + "=" + v
  {
    hide LowerAscii;
    var p := k + "=" + v;
    assert Tag(k, v) == [' '] + p;
    assert p[0] == k[0] && p[|p| - 1] == (if v == [] then '=' else v[|v| - 1]);
    assert Trimmed(p);
    hide Trim, Trimmed;
    TrimLeadingSpace(p);
  }

  lemma KeyAndValue(k: string, v: string)
    requires '=' !in k
    ensures var p := k + "=" + v; Find(p, '=') == |k| < |p| && p[..|k|] == k && p[|k| + 1..] == v
  {
    var p := k + "=" + v;
    assert p == k + ("=" + v);
    FindAfter(k, '=', "=" + v);
  }

  lemma TagOneLine(k: string, v: string)
    requires Plain(k) && Plain(v)
    ensures ';' !in Tag(k, v) && OneLine(Tag(k, v))
  {
  }

  /** Tags the signer may write. */
  predicate PlainTags(tags: seq<(string, string)>) {
    forall i :: 0 <= i < |tags| ==> KeyText(tags[i].0) && Plain(tags[i].1)
  }

  lemma {:induction false} TextsOneLine(tags: seq<(string, string)>)
    requires PlainTags(tags)
    ensures forall i :: 0 <= i < |tags| ==> ';' !in TagTexts(tags)[i] && OneLine(TagTexts(tags)[i])
    decreases |tags|
  {
    hide Tag, OneLine, Plain, LowerAscii;
    if tags == [] {
    } else {
      TagOneLine(tags[0].0, tags[0].1);
      TextsOneLine(tags[1..]);
    }
  }

  function Inserted(tags: seq<(string, string)>, m: map<string, string>): map<string, string>
    decreases |tags|
  {
    if tags == [] then m else Inserted(tags[1..], m[tags[0].0 := tags[0].1])
  }

  lemma TagsStep(parts: seq<string>, tags: map<string, string>, k: string, v: string)
    requires parts != [] && TagOf(parts[0]) == Some((k, v))
    ensures TagsFrom(parts, tags) == TagsFrom(parts[1..], tags[k := v])
  {
    hide TagOf;
  }

  lemma TextsCons(tags: seq<(string, string)>)
    requires tags != []
    ensures TagTexts(tags)[0] == Tag(tags[0].0, tags[0].1) && TagTexts(tags)[1..] == TagTexts(tags[1..])
  {
    hide Tag;
  }

  lemma PlainTagsSplit(tags: seq<(string, string)>)
    requires PlainTags(tags) && tags != []
    ensures KeyText(tags[0].0) && Plain(tags[0].1) && PlainTags(tags[1..])
  {
    hide KeyText, Plain;
  }

  /** Reading the texts of tags inserts the tags. */
  lemma {:induction false} TextsRead(tags: seq<(string, string)>, m: map<string, string>)
    requires PlainTags(tags)
    ensures TagsFrom(TagTexts(tags), m) == Inserted(tags, m)
    decreases |tags|
  {
    hide Tag, TagOf, Plain, KeyText, PlainTags, TagsFrom, EmptiedPart, Trim;
    if tags == [] {
      NothingRead(m);
    } else {
      PlainTagsSplit(tags);
      TextsCons(tags);
      TagRead(tags[0].0, tags[0].1);
      TagsStep(TagTexts(tags), m, tags[0].0, tags[0].1);
      TextsRead(tags[1..], m[tags[0].0 := tags[0].1]);
    }
  }

  lemma NothingRead(m: map<string, string>)
    ensures TagsFrom([], m) == m
  {
  }

  predicate DistinctKeys(tags: seq<(string, string)>) {
    forall i, j :: 0 <= i < j < |tags| ==> tags[i].0 != tags[j].0
  }

  lemma {:induction false} InsertedLookup(tags: seq<(string, string)>, m: map<string, string>)
    requires DistinctKeys(tags)
    ensures var r := Inserted(tags, m);
            (forall i :: 0 <= i < |tags| ==> tags[i].0 in r && r[tags[i].0] == tags[i].1)
            && (forall k :: (forall i :: 0 <= i < |tags| ==> tags[i].0 != k) ==>
                  (k in r <==> k in m) && (k in m ==> r[k] == m[k]))
    decreases |tags|
  {
    if tags == [] {
    } else {
      var first, rest := tags[0], tags[1..];
      var m' := m[first.0 := first.1];
      InsertedLookup(rest, m');
      var r := Inserted(rest, m');
      assert forall i :: 0 <= i < |rest| ==> rest[i] == tags[i + 1];
      assert first.0 in r && r[first.0] == first.1;
      forall k | forall i :: 0 <= i < |tags| ==> tags[i].0 != k
        ensures (k in r <==> k in m) && (k in m ==> r[k] == m[k])
      {
        assert tags[0].0 != k;
        assert forall i :: 0 <= i < |rest| ==> rest[i].0 != k;
      }
    }
  }

  /** The values the signer puts into its field. */
  predicate PlainValues(d: string, s: string, h: string, bh: string, b: string) {
    Plain(d) && Plain(s) && Plain(h) && Plain(bh) && Plain(b)
  }

  lemma SignatureTagsPlain(d: string, s: string, h: string, bh: string, b: string)
    requires PlainValues(d, s, h, bh, b)
    ensures PlainTags(SignatureTags(d, s, h, bh, b))
  {
    assert KeyText("v") && KeyText("a") && KeyText("c") && KeyText("d") && KeyText("s") && KeyText("h");
    assert KeyText("bh") && KeyText("b");
    assert Plain("1") && Plain("rsa-sha256") && Plain("relaxed/relaxed");
    hide KeyText, Plain;
  }

  lemma SignatureKeysDistinct(d: string, s: string, h: string, bh: string, b: string)
    ensures DistinctKeys(SignatureTags(d, s, h, bh, b))
    ensures var t := SignatureTags(d, s, h, bh, b); forall i :: 0 <= i < |t| ==> t[i].0 != "l"
  {
  }

  // ----- the tag list as a whole -----

  lemma {:induction false} JoinedOneLine(parts: seq<string>)
    requires forall i :: 0 <= i < |parts| ==> OneLine(parts[i])
    ensures OneLine(Join(parts, ";"))
    decreases |parts|
  {
    if |parts| > 1 {
      JoinedOneLine(parts[1..]);
    }
  }

  lemma {:induction false} UnfoldedOneLine(s: string)
    requires OneLine(s)
    ensures Unfolded(s) == s && WithoutLineEnds(s) == s
    decreases |s|
  {
    if s == [] {
    } else {
      UnfoldedOneLine(s[1..]);
    }
  }

  lemma NameRead(value: string)
    requires OneLine(value)
    ensures var f := SIGNATURE_NAME + ":" + value;
            Find(f, ':') == |SIGNATURE_NAME| < |f| && f[..|SIGNATURE_NAME|] == SIGNATURE_NAME
            && TagValue(f) == value && OneLine(f)
  {
    var f := SIGNATURE_NAME + ":" + value;
    assert f == SIGNATURE_NAME + (":" + value);
    assert ':' !in SIGNATURE_NAME;
    FindAfter(SIGNATURE_NAME, ':', ":" + value);
  }

  lemma FieldIs(d: string, s: string, h: string, bh: string, b: string)
    ensures SignatureField(d, s, h, bh, b)
         == SIGNATURE_NAME + ":" + Join(TagTexts(SignatureTags(d, s, h, bh, b)), ";")
  {
    hide TagTexts, Join;
  }

  /** The signature field splits into its tags, under either unfolding. */
  lemma FieldParts(d: string, s: string, h: string, bh: string, b: string)
    requires PlainValues(d, s, h, bh, b)
    ensures var f := SignatureField(d, s, h, bh, b); var t := TagTexts(SignatureTags(d, s, h, bh, b));
            Split(Unfolded(TagValue(f)), ';') == t && Split(WithoutLineEnds(TagValue(f)), ';') == t
            && Find(f, ':') == |SIGNATURE_NAME| < |f| && f[..|SIGNATURE_NAME|] == SIGNATURE_NAME && OneLine(f)
  {
    SignatureTagsPlain(d, s, h, bh, b);
    FieldIs(d, s, h, bh, b);
    hide *;
    var tags := SignatureTags(d, s, h, bh, b);
    TextsOneLine(tags);
    var t := TagTexts(tags);
    EightTags(d, s, h, bh, b);
    JoinedOneLine(t);
    NameRead(Join(t, ";"));
    UnfoldedOneLine(Join(t, ";"));
    SplitJoin(t, ';');
  }

  lemma EightTags(d: string, s: string, h: string, bh: string, b: string)
    ensures |SignatureTags(d, s, h, bh, b)| == 8
  {
  }

  /** The tags the verifier reads from a signer's field. */
  lemma TagsOfField(d: string, s: string, h: string, bh: string, b: string)
    requires PlainValues(d, s, h, bh, b)
    ensures var t := ParsedTags(SignatureField(d, s, h, bh, b));
            && TagOr(t, "a", "") == "rsa-sha256" && TagOr(t, "c", "") == "relaxed/relaxed"
            && TagOr(t, "d", "") == d && TagOr(t, "s", "") == s && TagOr(t, "h", "") == h
            && "a" in t && "c" in t && "d" in t && "s" in t && "h" in t
            && "bh" in t && t["bh"] == bh && "b" in t && t["b"] == b && "l" !in t
  {
    hide *;
    var tags := SignatureTags(d, s, h, bh, b);
    FieldParts(d, s, h, bh, b);
    SignatureTagsPlain(d, s, h, bh, b);
    SignatureKeysDistinct(d, s, h, bh, b);
    ParsedIs(SignatureField(d, s, h, bh, b));
    TextsRead(tags, map[]);
    InsertedLookup(tags, map[]);
    TagLookups(d, s, h, bh, b, Inserted(tags, map[]));
  }

  lemma ParsedIs(field: string)
    ensures ParsedTags(field) == TagsFrom(Split(Unfolded(TagValue(field)), ';'), map[])
  {
    hide Split, Unfolded, TagValue, TagsFrom;
  }

  lemma TagLookups(d: string, s: string, h: string, bh: string, b: string, t: map<string, string>)
    requires var tags := SignatureTags(d, s, h, bh, b);
             forall i :: 0 <= i < |tags| ==> tags[i].0 in t && t[tags[i].0] == tags[i].1
    requires "l" !in t
    ensures TagOr(t, "a", "") == "rsa-sha256" && TagOr(t, "c", "") == "relaxed/relaxed"
            && TagOr(t, "d", "") == d && TagOr(t, "s", "") == s && TagOr(t, "h", "") == h
            && "a" in t && "c" in t && "d" in t && "s" in t && "h" in t
            && "bh" in t && t["bh"] == bh && "b" in t && t["b"] == b && "l" !in t
  {
    var tags := SignatureTags(d, s, h, bh, b);
    assert tags[1].0 in t && tags[2].0 in t && tags[3].0 in t && tags[4].0 in t && tags[5].0 in t;
    assert tags[6].0 in t && tags[7].0 in t;
  }

  // ----- emptying b= -----

  function BareTexts(tags: seq<(string, string)>): (r: seq<string>)
    ensures |r| == |tags|
  {
    if tags == [] then [] else [tags[0].0 + "=" + tags[0].1] + BareTexts(tags[1..])
  }

  lemma JoinStep(parts: seq<string>, sep: string)
    requires parts != []
    ensures Join(parts, sep) == if |parts| == 1 then parts[0] else parts[0] + sep + Join(parts[1..], sep)
  {
  }

  lemma TextsStep(tags: seq<(string, string)>)
    requires tags != []
    ensures TagTexts(tags)[0] == " " + (tags[0].0 + "=" + tags[0].1) && TagTexts(tags)[1..] == TagTexts(tags[1..])
    ensures BareTexts(tags)[0] == tags[0].0 + "=" + tags[0].1 && BareTexts(tags)[1..] == BareTexts(tags[1..])
  {
    hide *;
    TextsCons(tags);
    BareCons(tags);
    TagIs(tags[0].0, tags[0].1);
  }

  lemma BareCons(tags: seq<(string, string)>)
    requires tags != []
    ensures BareTexts(tags)[0] == tags[0].0 + "=" + tags[0].1 && BareTexts(tags)[1..] == BareTexts(tags[1..])
  {
  }

  lemma TagIs(k: string, v: string)
    ensures Tag(k, v) == " " + (k + "=" + v)
  {
  }

  lemma Respaced(first: string, j: string)
    ensures " " + (first + "; " + j) == (" " + first) + ";" + (" " + j)
  {
  }

  /** Tag texts joined tightly are bare texts joined with spaces, behind one space. */
  lemma {:induction false} SpacedJoin(tags: seq<(string, string)>)
    requires tags != []
    ensures " " + Join(BareTexts(tags), "; ") == Join(TagTexts(tags), ";")
    decreases |tags|
  {
    hide *;
    var more := tags[1..];
    TextsStep(tags);
    JoinStep(BareTexts(tags), "; ");
    JoinStep(TagTexts(tags), ";");
    if more == [] {
    } else {
      SpacedJoin(more);
      Respaced(BareTexts(tags)[0], Join(BareTexts(more), "; "));
    }
  }

  function Emptied(tags: seq<(string, string)>): (r: seq<(string, string)>)
    ensures |r| == |tags|
  {
    if tags == [] then [] else [if tags[0].0 == "b" then ("b", "") else tags[0]] + Emptied(tags[1..])
  }

  lemma EmptiedStep(parts: seq<string>)
    requires parts != [] && EmptiedPart(parts[0]).Some?
    ensures EmptiedParts(parts) == [EmptiedPart(parts[0]).value] + EmptiedParts(parts[1..])
  {
    hide EmptiedPart;
  }

  lemma BareEmptied(tags: seq<(string, string)>)
    requires tags != []
    ensures BareTexts(Emptied(tags))
         == [if tags[0].0 == "b" then "b=" else tags[0].0 + "=" + tags[0].1] + BareTexts(Emptied(tags[1..]))
    ensures TagTexts(tags)[0] == Tag(tags[0].0, tags[0].1) && TagTexts(tags)[1..] == TagTexts(tags[1..])
  {
    hide Tag;
    assert Emptied(tags)[1..] == Emptied(tags[1..]);
    assert "b" + "=" + "" == "b=";
  }

  lemma NothingEmptied()
    ensures EmptiedParts(TagTexts([])) == BareTexts(Emptied([]))
  {
  }

  lemma {:induction false} PartsEmptied(tags: seq<(string, string)>)
    requires PlainTags(tags)
    ensures EmptiedParts(TagTexts(tags)) == BareTexts(Emptied(tags))
    decreases |tags|
  {
    hide Tag, EmptiedPart, EmptiedParts, Plain, KeyText, TagTexts, BareTexts, Emptied, TagOf, Trim;
    if tags == [] {
      NothingEmptied();
    } else {
      TagRead(tags[0].0, tags[0].1);
      BareEmptied(tags);
      EmptiedStep(TagTexts(tags));
      PartsEmptied(tags[1..]);
    }
  }

  lemma EmptiedTags(d: string, s: string, h: string, bh: string, b: string)
    ensures Emptied(SignatureTags(d, s, h, bh, b)) == SignatureTags(d, s, h, bh, "")
  {
    var t := SignatureTags(d, s, h, bh, b);
    EmptiedEach(t);
    SignatureKeysDistinct(d, s, h, bh, b);
    assert forall i :: 0 <= i < 7 ==> t[i].0 != t[7].0;
  }

  lemma {:induction false} EmptiedEach(tags: seq<(string, string)>)
    ensures forall i :: 0 <= i < |tags| ==> Emptied(tags)[i] == if tags[i].0 == "b" then ("b", "") else tags[i]
    decreases |tags|
  {
    if tags == [] {
    } else {
      EmptiedEach(tags[1..]);
    }
  }

  lemma NameTrimmed()
    ensures Trim(SIGNATURE_NAME) == SIGNATURE_NAME
  {
    TrimOfTrimmed(SIGNATURE_NAME);
  }

  /** Emptying b= of the emitted field gives back, byte for byte, the field the signer hashed. */
  lemma EmptiedIsUnsigned(d: string, s: string, h: string, bh: string, b: string)
    requires PlainValues(d, s, h, bh, b)
    ensures EmptyB(SignatureField(d, s, h, bh, b)) == SignatureField(d, s, h, bh, "")
  {
    hide *;
    var tags, bare := SignatureTags(d, s, h, bh, b), SignatureTags(d, s, h, bh, "");
    FieldParts(d, s, h, bh, b);
    SignatureTagsPlain(d, s, h, bh, b);
    EmptyBIs(SignatureField(d, s, h, bh, b));
    PartsEmptied(tags);
    EmptiedTags(d, s, h, bh, b);
    EightTags(d, s, h, bh, "");
    SpacedJoin(bare);
    NameTrimmed();
    FieldIs(d, s, h, bh, "");
    SpaceBehindColon(Join(BareTexts(bare), "; "));
  }

  lemma SpaceBehindColon(j: string)
    ensures SIGNATURE_NAME + ": " + j == SIGNATURE_NAME + ":" + (" " + j)
  {
  }

  lemma EmptyBIs(field: string)
    requires Find(field, ':') < |field|
    ensures EmptyB(field) == Trim(field[..Find(field, ':')]) + ": "
                           + Join(EmptiedParts(Split(WithoutLineEnds(TagValue(field)), ';')), "; ")
  {
    hide Trim, Join, EmptiedParts, Split, WithoutLineEnds, TagValue, Find;
  }

  lemma {:induction false} JoinAppend(parts: seq<string>, last: string, extra: string)
    ensures Join(parts + [last + extra], ";") == Join(parts + [last], ";") + extra
    decreases |parts|
  {
    if parts == [] {
      assert parts + [last + extra] == [last + extra] && parts + [last] == [last];
    } else {
      JoinAppend(parts[1..], last, extra);
      assert (parts + [last + extra])[1..] == parts[1..] + [last + extra];
      assert (parts + [last])[1..] == parts[1..] + [last];
      assert parts[0] + ";" + (Join(parts[1..] + [last], ";") + extra) == parts[0] + ";"
            + Join(parts[1..] + [last], ";") + extra;
    }
  }

  lemma {:induction false} TextsSnoc(tags: seq<(string, string)>, t: (string, string))
    ensures TagTexts(tags + [t]) == TagTexts(tags) + [Tag(t.0, t.1)]
    decreases |tags|
  {
    hide Tag;
    if tags == [] {
      assert tags + [t] == [t];
      assert TagTexts([t]) == [Tag(t.0, t.1)] + TagTexts([]);
    } else {
      TextsSnoc(tags[1..], t);
      assert (tags + [t])[1..] == tags[1..] + [t];
    }
  }

  /** Appending the signature to the hashed field fills in b=. */
  lemma Filled(d: string, s: string, h: string, bh: string, b: string)
    ensures SignatureField(d, s, h, bh, "") + b == SignatureField(d, s, h, bh, b)
  {
    var front := SignatureTags(d, s, h, bh, b)[..7];
    assert SignatureTags(d, s, h, bh, "") == front + [("b", "")];
    assert SignatureTags(d, s, h, bh, b) == front + [("b", b)];
    assert Tag("b", b) == Tag("b", "") + b;
    TextsSnoc(front, ("b", ""));
    TextsSnoc(front, ("b", b));
    FieldIs(d, s, h, bh, "");
    FieldIs(d, s, h, bh, b);
    hide *;
    JoinAppend(TagTexts(front), Tag("b", ""), b);
    var j := Join(TagTexts(front) + [Tag("b", "")], ";");
    assert SIGNATURE_NAME + ":" + (j + b) == SIGNATURE_NAME + ":" + j + b;
  }

  // ----- the names of h= -----

  predicate HeaderName(n: string) {
    n != [] && Plain(n) && ':' !in n && LowerAscii(n) == n
  }

  predicate HeaderNames(names: seq<string>) {
    && (forall i :: 0 <= i < |names| ==> HeaderName(names[i]))
    && (forall i, j :: 0 <= i < j < |names| ==> names[i] != names[j])
  }

  lemma SignHeadersAreNames()
    ensures HeaderNames(SIGN_HEADERS)
    ensures forall i :: 0 <= i < |SIGN_HEADERS| ==> |SIGN_HEADERS[i]| <= 10
  {
    assert HeaderName("from") && HeaderName("to") && HeaderName("subject") && HeaderName("date")
          && HeaderName("message-id");
    hide HeaderName;
  }

  lemma PresentCons(headers: seq<string>, names: seq<string>)
    requires names != []
    ensures var found := FirstNamed(headers, names[0]).Some?; var rest := Present(headers, names[1..]);
            Present(headers, names) == if found then [names[0]] + rest else rest
  {
    hide FirstNamed;
  }

  lemma SignedCons(headers: seq<string>, names: seq<string>)
    requires names != []
    ensures var f := FirstNamed(headers, names[0]); var rest := SignedFields(headers, names[1..]);
            SignedFields(headers, names) == if f.Some? then RelaxedHeader(f.value) + rest else rest
  {
    hide FirstNamed, RelaxedHeader;
  }

  lemma {:induction false} PresentListed(headers: seq<string>, names: seq<string>)
    ensures var p := Present(headers, names);
            forall i :: 0 <= i < |p| ==> p[i] in names && FirstNamed(headers, p[i]).Some?
    decreases |names|
  {
    hide FirstNamed, Present;
    if names == [] {
      NonePresent(headers);
    } else {
      PresentListed(headers, names[1..]);
      PresentCons(headers, names);
    }
  }

  lemma {:induction false} PresentSigned(headers: seq<string>, names: seq<string>)
    ensures SignedFields(headers, Present(headers, names)) == SignedFields(headers, names)
    decreases |names|
  {
    hide FirstNamed, RelaxedHeader, Present, SignedFields;
    if names == [] {
      NonePresent(headers);
    } else {
      PresentSigned(headers, names[1..]);
      PresentCons(headers, names);
      SignedCons(headers, names);
      if FirstNamed(headers, names[0]).Some? {
        SignedCons(headers, Present(headers, names));
        assert Present(headers, names)[1..] == Present(headers, names[1..]);
      }
    }
  }

  /** A first name joined to other names that all differ from it. */
  lemma NamesCons(name: string, names: seq<string>)
    requires HeaderName(name) && HeaderNames(names) && forall i :: 0 <= i < |names| ==> names[i] != name
    ensures HeaderNames([name] + names)
  {
    hide HeaderName;
    var all := [name] + names;
    forall i | 0 <= i < |all| ensures HeaderName(all[i]) {
      if i > 0 { assert all[i] == names[i - 1]; }
    }
    forall i, j | 0 <= i < j < |all| ensures all[i] != all[j] {
      assert all[j] == names[j - 1];
      if i > 0 { assert all[i] == names[i - 1]; }
    }
  }

  lemma NamesSplit(names: seq<string>)
    requires HeaderNames(names) && names != []
    ensures HeaderName(names[0]) && HeaderNames(names[1..]) && names[0] !in names[1..]
  {
    hide HeaderName;
  }

  /** The listed names are header names. */
  lemma {:induction false} PresentNames(headers: seq<string>, names: seq<string>)
    requires HeaderNames(names)
    ensures HeaderNames(Present(headers, names))
    decreases |names|
  {
    hide *;
    if names == [] {
      NonePresent(headers);
    } else {
      var p' := Present(headers, names[1..]);
      NamesSplit(names);
      PresentNames(headers, names[1..]);
      PresentCons(headers, names);
      PresentListed(headers, names[1..]);
      forall i | 0 <= i < |p'| ensures p'[i] != names[0] {
        assert p'[i] in names[1..];
      }
      NamesCons(names[0], p');
    }
  }

  lemma NonePresent(headers: seq<string>)
    ensures Present(headers, []) == [] && HeaderNames([]) && SignedFields(headers, []) == []
  {
  }

  lemma {:induction false} JoinedNames(names: seq<string>)
    requires HeaderNames(names)
    ensures Plain(Join(names, ":"))
    decreases |names|
  {
    if |names| > 1 {
      assert HeaderNames(names[1..]);
      JoinedNames(names[1..]);
    }
  }

  lemma {:induction false} LowerNamesSame(names: seq<string>)
    requires forall i :: 0 <= i < |names| ==> HeaderName(names[i])
    ensures LowerNames(names) == names
    decreases |names|
  {
    hide HeaderName, LowerNames;
    if names == [] {
      NoNames();
    } else {
      LowerNamesCons(names);
      LowerNamesSame(names[1..]);
      assert [names[0]] + names[1..] == names;
    }
  }

  lemma NoNames()
    ensures LowerNames([]) == []
  {
  }

  lemma LowerNamesCons(names: seq<string>)
    requires names != [] && HeaderName(names[0])
    ensures LowerNames(names) == [names[0]] + LowerNames(names[1..])
  {
    PlainTrimmed(names[0]);
    hide Trim, Plain, LowerAscii;
  }

  /** The names the verifier reads back from h=. */
  lemma NamesRead(names: seq<string>)
    requires HeaderNames(names) && names != []
    ensures LowerNames(Split(Join(names, ":"), ':')) == names
  {
    hide Plain, LowerAscii, LowerNames, Join, Split;
    LowerNamesSame(names);
    SplitJoin(names, ':');
  }

  // ----- first and last instances -----

  lemma {:induction false} FirstAndLast(headers: seq<string>, name: string)
    ensures FirstNamed(headers, name).Some? <==> exists i :: 0 <= i < |headers| && FieldNamed(headers[i], name)
    ensures LastNamed(headers, name).Some? <==> exists i :: 0 <= i < |headers| && FieldNamed(headers[i], name)
  {
    FirstSome(headers, name);
    LastSome(headers, name);
  }

  lemma {:induction false} FirstSome(headers: seq<string>, name: string)
    ensures FirstNamed(headers, name).Some? <==> exists i :: 0 <= i < |headers| && FieldNamed(headers[i], name)
    ensures FirstNamed(headers, name).Some? ==>
              exists i :: 0 <= i < |headers| && FieldNamed(headers[i], name) && headers[i]
                    == FirstNamed(headers, name).value
    decreases |headers|
  {
    hide FieldNamed;
    if headers != [] && !FieldNamed(headers[0], name) {
      var rest := headers[1..];
      FirstSome(rest, name);
      assert forall i :: 0 <= i < |rest| ==> rest[i] == headers[i + 1];
      assert forall i :: 0 < i < |headers| ==> headers[i] == rest[i - 1];
    }
  }

  lemma {:induction false} LastSome(headers: seq<string>, name: string)
    ensures LastNamed(headers, name).Some? <==> exists i :: 0 <= i < |headers| && FieldNamed(headers[i], name)
    ensures LastNamed(headers, name).Some? ==>
              exists i :: 0 <= i < |headers| && FieldNamed(headers[i], name) && headers[i]
                    == LastNamed(headers, name).value
    decreases |headers|
  {
    hide FieldNamed;
    if headers != [] && !FieldNamed(headers[|headers| - 1], name) {
      var rest := headers[..|headers| - 1];
      LastSome(rest, name);
      assert forall i :: 0 <= i < |rest| ==> rest[i] == headers[i];
    }
  }

  /** A field in front does not change the last instance of another name. */
  lemma {:induction false} LastBehind(field: string, headers: seq<string>, name: string)
    requires !FieldNamed(field, name)
    ensures LastNamed([field] + headers, name) == LastNamed(headers, name)
    decreases |headers|
  {
    hide FieldNamed;
    var all := [field] + headers;
    if headers == [] {
      assert all[..|all| - 1] == [];
    } else {
      assert all[..|all| - 1] == [field] + headers[..|headers| - 1];
      LastBehind(field, headers[..|headers| - 1], name);
    }
  }

  /** Fields already used bear other names, so the last unused instance is the last instance. */
  lemma {:induction false} UnusedIsLast(headers: seq<string>, used: set<nat>, name: string, end: nat)
    requires end <= |headers|
    requires forall i :: i in used && i < |headers| ==> !FieldNamed(headers[i], name)
    ensures var at := LastUnused(headers, used, name, end);
            LastNamed(headers[..end], name) == (if at.Some? then Some(headers[at.value]) else None)
            && (at.Some? ==> FieldNamed(headers[at.value], name))
    decreases end
  {
    hide FieldNamed;
    if end == 0 {
    } else {
      assert headers[..end][..end - 1] == headers[..end - 1];
      UnusedIsLast(headers, used, name, end - 1);
    }
  }

  function LastFields(headers: seq<string>, names: seq<string>): string {
    if names == [] then []
    else
      var f := LastNamed(headers, names[0]);
      (if f.Some? then RelaxedHeader(f.value) else []) + LastFields(headers, names[1..])
  }

  lemma OneNameEach(field: string, a: string, b: string)
    requires HeaderName(a) && HeaderName(b) && FieldNamed(field, a) && FieldNamed(field, b)
    ensures a == b
  {
  }

  /** What the verifier's search selects is the last instance of every name. */
  lemma {:induction false} SelectedLast(headers: seq<string>, names: seq<string>, used: set<nat>)
    requires HeaderNames(names)
    requires forall i, j :: i in used && i < |headers| && 0 <= j < |names| ==> !FieldNamed(headers[i], names[j])
    ensures Selected(headers, names, used, true) == LastFields(headers, names)
    decreases |names|
  {
    hide FieldNamed, HeaderName, RelaxedHeader;
    if names == [] {
    } else {
      var rest := names[1..];
      UnusedIsLast(headers, used, names[0], |headers|);
      assert headers[..|headers|] == headers;
      var at := LastUnused(headers, used, names[0], |headers|);
      if at.Some? {
        forall j | 0 <= j < |rest| ensures !FieldNamed(headers[at.value], rest[j]) {
          assert rest[j] == names[j + 1] && names[0] != names[j + 1];
          if FieldNamed(headers[at.value], rest[j]) { OneNameEach(headers[at.value], names[0], names[j + 1]); }
        }
        SelectedLast(headers, rest, used + {at.value});
      } else {
        SelectedLast(headers, rest, used);
      }
    }
  }

  /** For a name in the list, the canonical forms of the first and the last instance agree. */
  predicate SameInstance(headers: seq<string>, name: string) {
    var first, last := FirstNamed(headers, name), LastNamed(headers, name);
    first.Some? && last.Some? ==> RelaxedHeader(first.value) == RelaxedHeader(last.value)
  }

  // ----- canonical header fields are single lines -----

  predicate LineLike(s: string) {
    s != [] && s[|s| - 1] == '\n' && forall i :: 0 <= i < |s| - 1 ==> s[i] != '\n'
  }

  lemma LinesApart(a: string, b: string, x: string, y: string)
    requires LineLike(a) && LineLike(b) && a + x == b + y
    ensures a == b && x == y
  {
    FindUnique(a + x, '\n', |a| - 1);
    FindUnique(b + y, '\n', |b| - 1);
    assert (a + x)[..|a|] == a && (b + y)[..|b|] == b;
    assert (a + x)[|a|..] == x && (b + y)[|b|..] == y;
  }

  lemma {:induction false} UnfoldedNoLf(s: string)
    ensures '\n' !in Unfolded(s)
    decreases |s|
  {
    if s == [] {
    } else if s[0] == '\r' && |s| > 1 && s[1] == '\n' {
      UnfoldedNoLf(s[2..]);
    } else {
      UnfoldedNoLf(s[1..]);
    }
  }

  lemma {:induction false} TrimStartLower(s: string)
    ensures TrimStart(LowerAscii(s)) == LowerAscii(TrimStart(s))
    decreases |s|
  {
    if s == [] {
      assert LowerAscii(s) == s;
    } else {
      LowerHead(s);
      TrimStartStep(s);
      TrimStartStep(LowerAscii(s));
      hide TrimStart, LowerAscii, IsSpace;
      TrimStartLower(s[1..]);
    }
  }

  lemma LowerHead(s: string)
    requires s != []
    ensures var t := LowerAscii(s);
            |t| == |s| && t[1..] == LowerAscii(s[1..]) && t[..|s| - 1] == LowerAscii(s[..|s| - 1])
            && (IsSpace(t[0]) <==> IsSpace(s[0])) && (IsSpace(t[|s| - 1]) <==> IsSpace(s[|s| - 1]))
  {
  }

  lemma TrimStartStep(s: string)
    requires s != []
    ensures TrimStart(s) == if IsSpace(s[0]) then TrimStart(s[1..]) else s
  {
  }

  lemma TrimEndStep(s: string)
    requires s != []
    ensures TrimEnd(s) == if IsSpace(s[|s| - 1]) then TrimEnd(s[..|s| - 1]) else s
  {
  }

  lemma {:induction false} TrimEndLower(s: string)
    ensures TrimEnd(LowerAscii(s)) == LowerAscii(TrimEnd(s))
    decreases |s|
  {
    if s == [] {
      assert LowerAscii(s) == s;
    } else {
      LowerHead(s);
      TrimEndStep(s);
      TrimEndStep(LowerAscii(s));
      hide TrimEnd, LowerAscii, IsSpace;
      TrimEndLower(s[..|s| - 1]);
    }
  }

  lemma HeaderLineLike(field: string, name: string)
    requires FieldNamed(field, name) && HeaderName(name)
    ensures LineLike(RelaxedHeader(field))
  {
    TrimStartLower(NameOf(field));
    TrimEndLower(TrimStart(NameOf(field)));
    assert Trim(LowerAscii(NameOf(field))) == name;
    var u := Unfolded(ValueOf(field));
    UnfoldedNoLf(ValueOf(field));
    CollapsedKeepsLf(u, false);
    hide *;
    FormIsLine(name, TrimWspStart(TrimWspEnd(Collapsed(u, false))), Collapsed(u, false));
    RelaxedIs(field);
  }

  lemma RelaxedIs(field: string)
    ensures RelaxedHeader(field) == Trim(LowerAscii(NameOf(field))) + ":"
                                  + TrimWspStart(TrimWspEnd(Collapsed(Unfolded(ValueOf(field)), false))) + "\r\n"
  {
    hide Trim, LowerAscii, NameOf, TrimWspStart, TrimWspEnd, Collapsed, Unfolded, ValueOf;
  }

  lemma FormIsLine(name: string, value: string, collapsed: string)
    requires HeaderName(name) && '\n' !in collapsed && value == TrimWspStart(TrimWspEnd(collapsed))
    ensures LineLike(name + ":" + value + "\r\n")
  {
    NameHasNoLf(name);
    var trimmed := TrimWspEnd(collapsed);
    hide HeaderName, TrimWspStart, TrimWspEnd;
    assert '\n' !in trimmed;
    assert '\n' !in value;
    OneLf(name, value);
  }

  lemma NameHasNoLf(name: string)
    requires HeaderName(name)
    ensures '\n' !in name
  {
    hide LowerAscii;
  }

  lemma OneLf(name: string, value: string)
    requires '\n' !in name && '\n' !in value
    ensures LineLike(name + ":" + value + "\r\n")
  {
    var s := name + ":" + value + "\r\n";
    assert forall i :: 0 <= i < |s| - 1 ==> s[i] != '\n';
  }

  /** The signer's and the verifier's field texts are equal exactly when every listed name agrees. */
  lemma {:induction false} FieldTextsEqual(headers: seq<string>, names: seq<string>)
    requires HeaderNames(names)
    requires forall i :: 0 <= i < |names| ==> FirstNamed(headers, names[i]).Some?
    ensures SignedFields(headers, names) == LastFields(headers, names)
       <==> forall i :: 0 <= i < |names| ==> SameInstance(headers, names[i])
    decreases |names|
  {
    hide FirstNamed, LastNamed, HeaderName, RelaxedHeader, FieldNamed, LineLike;
    if names == [] {
    } else {
      var rest := names[1..];
      FieldTextsEqual(headers, rest);
      FirstAndLast(headers, names[0]);
      var first, last := FirstNamed(headers, names[0]), LastNamed(headers, names[0]);
      LastIsNamed(headers, names[0]);
      HeaderLineLike(first.value, names[0]);
      HeaderLineLike(last.value, names[0]);
      var a, b := RelaxedHeader(first.value), RelaxedHeader(last.value);
      if a + SignedFields(headers, rest) == b + LastFields(headers, rest) {
        LinesApart(a, b, SignedFields(headers, rest), LastFields(headers, rest));
      }
      assert forall i :: 0 <= i < |rest| ==> rest[i] == names[i + 1];
      assert forall i :: 0 < i < |names| ==> names[i] == rest[i - 1];
    }
  }

  lemma LastIsNamed(headers: seq<string>, name: string)
    ensures FirstNamed(headers, name).Some? ==> FieldNamed(FirstNamed(headers, name).value, name)
    ensures LastNamed(headers, name).Some? ==> FieldNamed(LastNamed(headers, name).value, name)
  {
    FirstSome(headers, name);
    LastSome(headers, name);
    hide FieldNamed, FirstNamed, LastNamed;
  }

  // ----- the agreement -----

  lemma CharPlain(c: char)
    requires Base64.InAlphabet(c)
    ensures !IsSpace(c) && c != ';'
  {
    if c != '=' {
      var v: Base64.Sextet :| c == Base64.CharOf(v);
      Base64.PositionOfChar(v);
    }
  }

  lemma Base64Plain(s: seq<Byte>)
    ensures Plain(Base64.Encoded(s))
  {
    Base64.EncodedCharacters(s);
    var e := Base64.Encoded(s);
    hide Base64.Encoded, Base64.InAlphabet, IsSpace;
    forall i | 0 <= i < |e| ensures !IsSpace(e[i]) && e[i] != ';' {
      CharPlain(e[i]);
    }
  }

  predicate Ascii(s: string) {
    forall i :: 0 <= i < |s| ==> s[i] < 128 as char
  }

  /** An ASCII message that starts with a field, and a domain and selector without white space or semicolon. */
  predicate Signable(raw: string, d: string, s: string) {
    && Ascii(raw) && Ascii(d) && Ascii(s) && StartsField(raw)
    && Plain(d) && Plain(s) && d != [] && s != []
  }

  /** The header names listed for a message. */
  function Listed(raw: string): seq<string> {
    Present(Fields(SplitText(raw).0), SIGN_HEADERS)
  }

  lemma ListedNames(raw: string)
    ensures HeaderNames(Listed(raw))
    ensures forall i :: 0 <= i < |Listed(raw)| ==>
              FirstNamed(Fields(SplitText(raw).0), Listed(raw)[i]).Some? && |Listed(raw)[i]| <= 10
  {
    SignHeadersAreNames();
    var headers := Fields(SplitText(raw).0);
    hide Fields, SplitText, FirstNamed, Present, HeaderNames, FieldNamed;
    PresentNames(headers, SIGN_HEADERS);
    PresentListed(headers, SIGN_HEADERS);
    forall i | 0 <= i < |Listed(raw)| ensures |Listed(raw)[i]| <= 10 {
      var j :| 0 <= j < |SIGN_HEADERS| && SIGN_HEADERS[j] == Listed(raw)[i];
    }
  }

  /** The emitted field as a signature field, all of its values plain. */
  lemma EmittedField(raw: string, d: string, s: string, b: string, sha: string -> Digest)
    requires Signable(raw, d, s) && Plain(b)
    ensures var h, bh := Join(Listed(raw), ":"), BodyHash(SplitText(raw).1, sha);
            && PlainValues(d, s, h, bh, b)
            && Unsigned(raw, d, s, sha) == SignatureField(d, s, h, bh, "")
            && Unsigned(raw, d, s, sha) + b == SignatureField(d, s, h, bh, b)
  {
    ListedNames(raw);
    hide Fields, SplitText, SignatureField, Present, Join, RelaxedBody, Plain, HeaderNames, FirstNamed, FieldNamed;
    JoinedNames(Listed(raw));
    Base64Plain(sha(RelaxedBody(SplitText(raw).1)));
    Filled(d, s, Join(Listed(raw), ":"), BodyHash(SplitText(raw).1, sha), b);
  }

  /** The signature field does not bear a signed name. */
  lemma FieldBearsOtherName(field: string, name: string)
    requires Find(field, ':') == |SIGNATURE_NAME| < |field| && field[..|SIGNATURE_NAME|] == SIGNATURE_NAME
    ensures |name| <= 10 ==> !FieldNamed(field, name)
    ensures FieldNamed(field, "dkim-signature")
  {
    NameTrimmed();
    LowerSignature();
    hide Trim, Find, LowerAscii;
  }

  lemma LowerSignature()
    ensures LowerAscii(SIGNATURE_NAME) == LowerAscii("dkim-signature")
  {
    var a, b := LowerAscii(SIGNATURE_NAME), LowerAscii("dkim-signature");
    forall i | 0 <= i < 14 ensures a[i] == b[i] {
    }
  }

  lemma {:induction false} LastFieldsBehind(field: string, headers: seq<string>, names: seq<string>)
    requires forall i :: 0 <= i < |names| ==> !FieldNamed(field, names[i])
    ensures LastFields([field] + headers, names) == LastFields(headers, names)
    decreases |names|
  {
    hide FieldNamed, LastNamed, RelaxedHeader;
    if names == [] {
    } else {
      LastBehind(field, headers, names[0]);
      LastFieldsBehind(field, headers, names[1..]);
    }
  }

  /** The prepended message as the verifier splits it. */
  lemma PrependedParts(field: string, raw: string)
    requires OneLine(field) && field != [] && StartsField(raw)
    ensures var out := Prepended(field, raw);
            Fields(SplitText(out).0) == [field] + Fields(SplitText(raw).0) && SplitText(out).1 == SplitText(raw).1
  {
    assert field[|field| - 1] != '\n';
    assert |field| >= 2 ==> field[|field| - 2..][1] == field[|field| - 1];
    assert !EndsWithCrlf(field);
    assert Prepended(field, raw) == field + CRLF + raw;
    hide Fields, SplitText, OneLine, StartsField;
    PrependedSplit(field, raw);
    SplitTextParts(raw);
    PrependedFields(field, SplitText(raw).0);
  }

  /** The header text the verifier hashes, for a signer's field. */
  lemma VerifierText(headers: seq<string>, body: string, d: string, s: string, names: seq<string>, bh: string,
        b: string)
    requires HeaderNames(names) && names != [] && PlainValues(d, s, Join(names, ":"), bh, b)
    requires forall i :: 0 <= i < |names| ==> |names[i]| <= 10
    ensures var field := SignatureField(d, s, Join(names, ":"), bh, b);
            VerifyInputs([field] + headers, body, field)
            == Inputs(RelaxedBody(body),
                      LastFields(headers, names)
                      + TrimCrlf(RelaxedHeader(SignatureField(d, s, Join(names, ":"), bh, ""))))
  {
    var h := Join(names, ":");
    var field := SignatureField(d, s, h, bh, b);
    TagsOfField(d, s, h, bh, b);
    RelaxedModes();
    hide SignatureField, ParsedTags, RelaxedBody, SimpleBody, RelaxedHeader, TrimCrlf, Selected, LastFields, EmptyB,
         LowerNames, Split, Join, HeaderNames, PlainValues, FieldNamed, SplitCanon, LowerAscii, Find, OneLine;
    NamesRead(names);
    EmptiedIsUnsigned(d, s, h, bh, b);
    FieldParts(d, s, h, bh, b);
    forall i | 0 <= i < |names| ensures !FieldNamed(field, names[i]) {
      FieldBearsOtherName(field, names[i]);
    }
    SelectedLast([field] + headers, names, {});
    LastFieldsBehind(field, headers, names);
  }

  lemma RelaxedModes()
    ensures SplitCanon("relaxed/relaxed") == ("relaxed", "relaxed") && Relaxed("relaxed")
  {
    RelaxedHalves("relaxed", "relaxed");
    assert "relaxed/relaxed" == "relaxed" + "/" + "relaxed";
    hide SplitCanon;
    assert LowerAscii("relaxed") == "relaxed";
  }

  /** Signer and verifier hash the same body; they hash the same header text exactly when, for every listed name,
      the first and the last field of that name have the same canonical form. */
  lemma HashesAgree(raw: string, d: string, s: string, b: string, sha: string -> Digest)
    requires Signable(raw, d, s) && Listed(raw) != [] && Plain(b)
    ensures var field, headers := Unsigned(raw, d, s, sha) + b, Fields(SplitText(raw).0);
            var out := SplitText(Prepended(field, raw));
            var signed, verified := SignInputs(raw, d, s, sha), VerifyInputs(Fields(out.0), out.1, field);
            && Fields(out.0) == [field] + headers
            && verified.body == signed.body
            && (verified.header == signed.header
                <==> forall i :: 0 <= i < |Listed(raw)| ==> SameInstance(headers, Listed(raw)[i]))
  {
    var headers, body, names := Fields(SplitText(raw).0), SplitText(raw).1, Listed(raw);
    var h, bh := Join(names, ":"), BodyHash(body, sha);
    var field := Unsigned(raw, d, s, sha) + b;
    EmittedField(raw, d, s, b, sha);
    ListedNames(raw);
    SignInputsAre(raw, d, s, sha);
    hide *;
    FieldParts(d, s, h, bh, b);
    StartsAt(raw, d, s);
    PrependedParts(field, raw);
    VerifierText(headers, body, d, s, names, bh, b);
    FieldTextsEqual(headers, names);
    CancelTail(LastFields(headers, names), SignedFields(headers, names),
          TrimCrlf(RelaxedHeader(SignatureField(d, s, h, bh, ""))));
  }

  lemma StartsAt(raw: string, d: string, s: string)
    requires Signable(raw, d, s)
    ensures StartsField(raw)
  {
  }

  lemma SignInputsAre(raw: string, d: string, s: string, sha: string -> Digest)
    ensures SignInputs(raw, d, s, sha)
         == Inputs(RelaxedBody(SplitText(raw).1),
                   SignedFields(Fields(SplitText(raw).0), Listed(raw))
                         + TrimCrlf(RelaxedHeader(Unsigned(raw, d, s, sha))))
  {
    hide Fields, SplitText, RelaxedBody, Unsigned, RelaxedHeader, TrimCrlf, Present, SignedFields;
    PresentSigned(Fields(SplitText(raw).0), SIGN_HEADERS);
  }

  lemma CancelTail(a: string, b: string, t: string)
    ensures a + t == b + t <==> a == b
  {
    if a + t == b + t {
      assert (a + t)[..|a|] == a && (b + t)[..|b|] == b;
    }
  }

  /** At most one field of a name. */
  predicate AtMostOnce(headers: seq<string>, name: string) {
    forall i, j :: 0 <= i < j < |headers| ==> !(FieldNamed(headers[i], name) && FieldNamed(headers[j], name))
  }

  /** A message holding each signed header at most once is hashed alike by both sides. */
  lemma UniqueHeadersAgree(raw: string, d: string, s: string, b: string, sha: string -> Digest)
    requires Signable(raw, d, s) && Listed(raw) != [] && Plain(b)
    requires forall i :: 0 <= i < |SIGN_HEADERS| ==> AtMostOnce(Fields(SplitText(raw).0), SIGN_HEADERS[i])
    ensures var field := Unsigned(raw, d, s, sha) + b;
            var out := SplitText(Prepended(field, raw));
            VerifyInputs(Fields(out.0), out.1, field) == SignInputs(raw, d, s, sha)
  {
    hide *;
    var headers, names := Fields(SplitText(raw).0), Listed(raw);
    forall i | 0 <= i < |names| ensures SameInstance(headers, names[i]) {
      ListedIsSigned(raw, i);
      var j :| 0 <= j < |SIGN_HEADERS| && SIGN_HEADERS[j] == names[i];
      OnceIsSame(headers, names[i]);
    }
    HashesAgree(raw, d, s, b, sha);
    InputsAre(SignInputs(raw, d, s, sha));
  }

  lemma ListedIsSigned(raw: string, i: nat)
    requires i < |Listed(raw)|
    ensures exists j :: 0 <= j < |SIGN_HEADERS| && SIGN_HEADERS[j] == Listed(raw)[i]
  {
    hide *;
    ListedIs(raw);
    PresentListed(Fields(SplitText(raw).0), SIGN_HEADERS);
    assert Listed(raw)[i] in SIGN_HEADERS;
  }

  lemma ListedIs(raw: string)
    ensures Listed(raw) == Present(Fields(SplitText(raw).0), SIGN_HEADERS)
  {
    hide Fields, SplitText, Present, FirstNamed;
  }

  lemma InputsAre(a: Inputs)
    ensures a == Inputs(a.body, a.header)
  {
  }

  lemma OnceIsSame(headers: seq<string>, name: string)
    requires AtMostOnce(headers, name)
    ensures SameInstance(headers, name)
  {
    FirstSome(headers, name);
    LastSome(headers, name);
    hide FieldNamed, FirstNamed, LastNamed, RelaxedHeader;
  }

  lemma {:induction false} PresentHas(headers: seq<string>, names: seq<string>, name: string)
    requires name in names && FirstNamed(headers, name).Some?
    ensures name in Present(headers, names)
    decreases |names|
  {
    hide FirstNamed;
    if names[0] != name {
      PresentHas(headers, names[1..], name);
    }
  }

  lemma {:induction false} LastWithFront(x: string, headers: seq<string>, name: string)
    requires LastNamed(headers, name).Some?
    ensures LastNamed([x] + headers, name) == LastNamed(headers, name)
    decreases |headers|
  {
    hide FieldNamed;
    var n := |headers|;
    assert ([x] + headers)[n] == headers[n - 1];
    if !FieldNamed(headers[n - 1], name) {
      assert ([x] + headers)[..n] == [x] + headers[..n - 1];
      LastWithFront(x, headers[..n - 1], name);
    }
  }

  /** One more field of a signed name in front of a message that has one: the signer now takes the new field, the
      verifier still the old one, and the texts they hash differ whenever the canonical forms of the two do. */
  lemma SecondInstanceDiffers(x: string, raw: string, name: string, d: string, s: string, b: string,
        sha: string -> Digest)
    requires Signable(raw, d, s) && name in SIGN_HEADERS && Plain(b)
    requires StartsField(x) && OneLine(x) && Ascii(x) && FieldNamed(x, name)
    requires var last := LastNamed(Fields(SplitText(raw).0), name);
             last.Some? && RelaxedHeader(last.value) != RelaxedHeader(x)
    ensures var twice := x + CRLF + raw;
            var field := Unsigned(twice, d, s, sha) + b;
            var out := SplitText(Prepended(field, twice));
            Signable(twice, d, s) && Listed(twice) != []
            && VerifyInputs(Fields(out.0), out.1, field).header != SignInputs(twice, d, s, sha).header
  {
    var twice := x + CRLF + raw;
    var headers := Fields(SplitText(raw).0);
    PrependedIs(x, raw);
    FrontSignable(x, raw, d, s);
    StartsAt(raw, d, s);
    PrependedParts(x, raw);
    hide *;
    var all := [x] + headers;
    FirstInFront(x, headers, name);
    LastWithFront(x, headers, name);
    InstancesDiffer(all, name);
    PresentHas(all, SIGN_HEADERS, name);
    ListedIs(twice);
    var i :| 0 <= i < |Listed(twice)| && Listed(twice)[i] == name;
    HashesAgree(twice, d, s, b, sha);
  }

  lemma PrependedIs(x: string, raw: string)
    requires OneLine(x) && x != []
    ensures Prepended(x, raw) == x + CRLF + raw
  {
    assert x[|x| - 1] != '\n';
    assert |x| >= 2 ==> x[|x| - 2..][1] == x[|x| - 1];
    assert !EndsWithCrlf(x);
  }

  lemma FrontSignable(x: string, raw: string, d: string, s: string)
    requires Signable(raw, d, s) && StartsField(x) && Ascii(x)
    ensures Signable(x + CRLF + raw, d, s)
  {
    hide Plain;
  }

  lemma FirstInFront(x: string, headers: seq<string>, name: string)
    requires FieldNamed(x, name)
    ensures FirstNamed([x] + headers, name) == Some(x)
  {
    hide FieldNamed;
    assert ([x] + headers)[0] == x;
  }

  lemma InstancesDiffer(headers: seq<string>, name: string)
    requires var first, last := FirstNamed(headers, name), LastNamed(headers, name);
             first.Some? && last.Some? && RelaxedHeader(first.value) != RelaxedHeader(last.value)
    ensures !SameInstance(headers, name)
  {
    hide FirstNamed, LastNamed, RelaxedHeader;
  }

  lemma FromValue(v: char)
    requires !IsSpace(v) && !IsWsp(v)
    ensures TrimWspStart(TrimWspEnd(Collapsed(Unfolded([v]), false))) == [v]
  {
    assert Unfolded([v]) == [v];
    assert Collapsed([v], false) == [v];
  }

  lemma FromParts(v: char)
    ensures var f := "From:" + [v];
            Find(f, ':') == 4 < |f| && f[..4] == "From" && NameOf(f) == "From" && ValueOf(f) == [v]
  {
    var f := "From:" + [v];
    assert f == "From" + (":" + [v]);
    FindAfter("From", ':', ":" + [v]);
    assert f[..4] == "From" && f[5..] == [v];
  }

  lemma FromTrim()
    ensures Trim("From") == "From" && Trim("from") == "from"
  {
    assert Trimmed("From") && Trimmed("from");
    hide Trim, Trimmed;
    TrimOfTrimmed("From");
    TrimOfTrimmed("from");
  }

  lemma FromLower()
    ensures LowerAscii("From") == "from" && LowerAscii("from") == "from"
  {
  }

  lemma OneCharField(v: char)
    requires !IsSpace(v) && !IsWsp(v)
    ensures FieldNamed("From:" + [v], "from")
    ensures RelaxedHeader("From:" + [v]) == "from" + ":" + [v] + "\r\n"
  {
    FromParts(v);
    FromTrim();
    FromLower();
    FromValue(v);
    hide Trim, LowerAscii, Find, Unfolded, Collapsed, TrimWspStart, TrimWspEnd, NameOf, ValueOf, RelaxedHeader;
    RelaxedIs("From:" + [v]);
  }

  /** A message of one From field and no body. */
  function OneFrom(v: char): string {
    "From:" + [v] + "\r\n\r\n"
  }

  lemma NoFourEarly(v: char, i: nat)
    requires v != '\r' && v != '\n' && i < 6
    ensures !("\r\n\r\n" <= OneFrom(v)[i..])
  {
    var t := OneFrom(v)[i..];
    assert t[0] == OneFrom(v)[i] == if i < 5 then "From:"[i] else v;
  }

  lemma OneFromSplit(v: char)
    requires v != '\r' && v != '\n'
    ensures SplitText(OneFrom(v)).0 == "From:" + [v]
  {
    var s, front, tail := OneFrom(v), "From:" + [v], "\r\n\r\n";
    assert s == front + tail && |front| == 6;
    forall i | 0 <= i < |front| ensures !(tail <= (front + tail)[i..]) {
      NoFourEarly(v, i);
    }
    FindTextShifted(front, tail, tail);
    assert FindText(tail, tail) == Some(0);
    assert s[..6] == front;
  }

  lemma OneFromFields(v: char)
    requires v != '\r' && v != '\n'
    ensures Fields("From:" + [v]) == ["From:" + [v]]
  {
    var f := "From:" + [v];
    assert forall i :: 0 <= i < |f| ==> f[i] != '\n';
    FindUnique(f, '\n', |f|);
    assert Split(f, '\n') == [f];
    assert f[0] == 'F' && f[|f| - 1] == v;
    assert StripCr(f) == f && !Continues(f);
    assert [f][1..] == [];
    assert FieldsFrom([], f) == [f];
    assert FieldsFrom([f], []) == [] + FieldsFrom([], f);
  }

  lemma OneFromSignable(v: char, d: string, s: string)
    requires 'a' <= v <= 'b' && Ascii(d) && Ascii(s) && Plain(d) && Plain(s) && d != [] && s != []
    ensures Signable(OneFrom(v), d, s)
    ensures var f := "From:" + [v]; StartsField(f) && OneLine(f) && Ascii(f)
  {
    hide Plain;
    assert OneFrom(v)[0] == 'F' && ("From:" + [v])[0] == 'F';
    assert !IsWsp('F');
  }

  lemma OnlyLast(f: string, name: string)
    requires FieldNamed(f, name)
    ensures LastNamed([f], name) == Some(f)
  {
    hide FieldNamed;
    assert [f][|[f]| - 1] == f;
  }

  /** A message with the fields From:a and From:b: signer and verifier hash different header texts. */
  lemma TwoFromFields(d: string, s: string, b: string, sha: string -> Digest)
    requires Ascii(d) && Ascii(s) && Plain(d) && Plain(s) && d != [] && s != [] && Plain(b)
    ensures var raw := "From:" + ['a'] + CRLF + OneFrom('b');
            var field := Unsigned(raw, d, s, sha) + b;
            var out := SplitText(Prepended(field, raw));
            Signable(raw, d, s) && VerifyInputs(Fields(out.0), out.1, field).header != SignInputs(raw, d, s, sha).header
  {
    FromIsSigned();
    OneFromSignable('a', d, s);
    OneFromSignable('b', d, s);
    OneFromSplit('b');
    OneFromFields('b');
    NoSpace('a');
    NoSpace('b');
    hide *;
    var x, y := "From:" + ['a'], "From:" + ['b'];
    OneCharField('a');
    OneCharField('b');
    OtherForm();
    OnlyLast(y, "from");
    SecondInstanceDiffers(x, OneFrom('b'), "from", d, s, b, sha);
  }

  lemma FromIsSigned()
    ensures "from" in SIGN_HEADERS
  {
    assert SIGN_HEADERS[0] == "from";
  }

  lemma NoSpace(v: char)
    requires 'a' <= v <= 'b'
    ensures !IsSpace(v) && !IsWsp(v) && v != '\r' && v != '\n'
  {
  }

  lemma OtherForm()
    ensures "from" + ":" + ['a'] + "\r\n" != "from" + ":" + ['b'] + "\r\n"
  {
    assert ("from" + ":" + ['a'] + "\r\n")[5] == 'a' && ("from" + ":" + ['b'] + "\r\n")[5] == 'b';
  }
}

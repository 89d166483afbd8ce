/** DNS names with compression pointers (section 4.1.4 of RFC 1035) and the walk over a response's answers. */
module Dns {
  import opened Octets
  import opened Results
  import opened Utf8

  const DOT: Byte := 46
  const MAX_LABEL: nat := 63
  const MAX_HOPS: nat := 20

  type Label = seq<Byte>

  datatype NameError = OutOfBounds | PointerLoop | BadLabel

  // ----- names in a message -----

  /** The 14 bits of a pointer. */
  function Target(msg: seq<Byte>, pos: nat): nat
    requires pos + 1 < |msg|
  {
    var hi: nat, lo: nat := msg[pos], msg[pos + 1];
    hi % 64 * 256 + lo
  }

  /** The labels read from pos, after a number of pointer jumps. */
  function LabelsAt(msg: seq<Byte>, pos: nat, hops: nat): Result<seq<Label>, NameError>
    decreases if hops <= MAX_HOPS then MAX_HOPS - hops else 0, if pos < |msg| then |msg| - pos else 0
  {
    if pos >= |msg| then Err(OutOfBounds)
    else
      var len: nat := msg[pos];
      if len == 0 then Ok([])
      else if len / 64 == 3 then
        if pos + 1 >= |msg| then Err(OutOfBounds)
        else if hops + 1 > MAX_HOPS then Err(PointerLoop)
        else LabelsAt(msg, Target(msg, pos), hops + 1)
      else if len / 64 != 0 then Err(BadLabel)
      else if pos + 1 + len > |msg| then Err(OutOfBounds)
      else Prepend([msg[pos + 1..pos + 1 + len]], LabelsAt(msg, pos + 1 + len, hops))
  }

  function Prepend(first: seq<Label>, r: Result<seq<Label>, NameError>): Result<seq<Label>, NameError> {
    if r.Ok? then Ok(first + r.value) else r
  }

  lemma PrependNone(r: Result<seq<Label>, NameError>)
    ensures Prepend([], r) == r
  {
    assert r.Ok? ==> [] + r.value == r.value;
  }

  lemma PrependEmpty(first: seq<Label>)
    ensures Prepend(first, Ok([])) == Ok(first)
    ensures forall e :: Prepend(first, Err(e)) == Err(e)
  {
    assert first + [] == first;
  }

  lemma PrependSnoc(first: seq<Label>, part: Label, r: Result<seq<Label>, NameError>)
    ensures Prepend(first, Prepend([part], r)) == Prepend(first + [part], r)
  {
    assert r.Ok? ==> first + ([part] + r.value) == first + [part] + r.value;
  }

  /** Where the name stops in place: behind its root label or its first pointer. */
  function NameEnd(msg: seq<Byte>, pos: nat): (end: nat)
    ensures LabelsAt(msg, pos, 0).Ok? ==> pos < end <= |msg|
    decreases if pos < |msg| then |msg| - pos else 0
  {
    if pos >= |msg| then pos
    else
      var len: nat := msg[pos];
      if len == 0 then pos + 1
      else if len / 64 == 3 then pos + 2
      else if len / 64 != 0 || pos + 1 + len > |msg| then pos
      else NameEnd(msg, pos + 1 + len)
  }

  function Decoded(labels: seq<Label>, lossy: Label -> Label): (r: seq<Label>)
    ensures |r| == |labels|
  {
    seq(|labels|, i requires 0 <= i < |labels| => lossy(labels[i]))
  }

  function NameText(labels: seq<Label>, lossy: Label -> Label): seq<Byte> {
    if labels == [] then [DOT] else JoinBytes(Decoded(labels, lossy), DOT)
  }

  lemma DecodedNone(lossy: Label -> Label)
    ensures Decoded([], lossy) == []
  {
  }

  lemma DecodedSnoc(labels: seq<Label>, part: Label, lossy: Label -> Label)
    ensures Decoded(labels + [part], lossy) == Decoded(labels, lossy) + [lossy(part)]
  {
  }

  /** parse_name; lossy stands for from_utf8_lossy. */
  function Name(msg: seq<Byte>, start: nat, lossy: Label -> Label): Result<(seq<Byte>, nat), NameError> {
    var labels := LabelsAt(msg, start, 0);
    if labels.Err? then Err(labels.error) else Ok((NameText(labels.value, lossy), NameEnd(msg, start)))
  }

  method ParseName(msg: seq<Byte>, start: nat, lossy: Label -> Label) returns (r: Result<(seq<Byte>, nat), NameError>)
    ensures r == Name(msg, start, lossy)
    ensures r.Ok? ==> start < r.value.1 <= |msg|
  {
    var pos: nat, labels: seq<Label>, raw: seq<Label> := start, [], [];
    var jumped, endPos: nat, hops: nat := false, start, 0;
    PrependNone(LabelsAt(msg, start, 0));
    hide Decoded, Prepend, Target, JoinBytes;
    DecodedNone(lossy);
    while true
      invariant hops <= MAX_HOPS && |raw| == |labels| && labels == Decoded(raw, lossy)
      invariant Prepend(raw, LabelsAt(msg, pos, hops)) == LabelsAt(msg, start, 0)
      invariant if jumped then endPos == NameEnd(msg, start) else hops == 0 && NameEnd(msg, pos) == NameEnd(msg, start)
      decreases MAX_HOPS - hops, if pos < |msg| then |msg| - pos else 0
    {
      PrependEmpty(raw);
      if pos >= |msg| { return Err(OutOfBounds); }
      var len: nat := msg[pos];
      if len == 0 {
        if !jumped { endPos := pos + 1; }
        break;
      }
      if len / 64 == 3 {
        if pos + 1 >= |msg| { return Err(OutOfBounds); }
        var ptr := Target(msg, pos);
        if !jumped { endPos := pos + 2; }
        pos := ptr;
        jumped := true;
        hops := hops + 1;
        if hops > MAX_HOPS { return Err(PointerLoop); }
        continue;
      }
      if len / 64 != 0 { return Err(BadLabel); }
      pos := pos + 1;
      if pos + len > |msg| { return Err(OutOfBounds); }
      PrependSnoc(raw, msg[pos..pos + len], LabelsAt(msg, pos + len, hops));
      DecodedSnoc(raw, msg[pos..pos + len], lossy);
      labels := labels + [lossy(msg[pos..pos + len])];
      raw := raw + [msg[pos..pos + len]];
      pos := pos + len;
      if !jumped { endPos := pos; }
    }
    PrependEmpty(raw);
    r := Ok((if labels == [] then [DOT] else JoinBytes(labels, DOT), endPos));
  }

  // ----- writing a name -----

  function TrimDots(s: seq<Byte>): (r: seq<Byte>)
    ensures r <= s && (r != [] ==> r[|r| - 1] != DOT)
  {
    if s != [] && s[|s| - 1] == DOT then TrimDots(s[..|s| - 1]) else s
  }

  predicate Fits(part: Label) {
    0 < |part| <= MAX_LABEL
  }

  /** One label behind its length byte. */
  function Written(part: Label): seq<Byte>
    requires Fits(part)
  {
    var n: Byte := |part|;
    [n] + part
  }

  function Encoded(labels: seq<Label>): seq<Byte>
    requires forall i :: 0 <= i < |labels| ==> Fits(labels[i])
  {
    if labels == [] then [] else Written(labels[0]) + Encoded(labels[1..])
  }

  /** The labels encode_name writes: none for the root. */
  function LabelsOf(name: seq<Byte>): seq<Label> {
    if TrimDots(name) == [] then [] else SplitBytes(TrimDots(name), DOT)
  }

  predicate Encodable(labels: seq<Label>) {
    forall i :: 0 <= i < |labels| ==> Fits(labels[i])
  }

  lemma {:induction false} EncodedSnoc(labels: seq<Label>, part: Label)
    requires Encodable(labels) && Fits(part)
    ensures Encodable(labels + [part])
    ensures Encoded(labels + [part]) == Encoded(labels) + Written(part)
    decreases |labels|
  {
    if labels == [] {
      assert [] + [part] == [part];
      assert Encoded([part]) == Written(part) + Encoded([]);
    } else {
      EncodedSnoc(labels[1..], part);
      assert (labels + [part])[1..] == labels[1..] + [part];
      assert Encoded(labels + [part]) == Written(labels[0]) + (Encoded(labels[1..]) + Written(part));
    }
  }

  /** encode_name appends the name exactly when every label has 1 to 63 bytes. */
  method EncodeName(buf: seq<Byte>, name: seq<Byte>) returns (r: Option<seq<Byte>>)
    ensures r.Some? <==> forall i :: 0 <= i < |LabelsOf(name)| ==> 0 < |LabelsOf(name)[i]| <= 63
    ensures r.Some? ==> r.value == buf + Encoded(LabelsOf(name)) + [0]
  {
    hide Encoded, SplitBytes;
    var trimmed := TrimDots(name);
    if trimmed == [] {
      EncodedNone();
      assert buf + [] == buf;
      return Some(buf + [0]);
    }
    var labels := SplitBytes(trimmed, DOT);
    var out := buf;
    EncodedNone();
    assert buf + [] == buf && labels[..0] == [];
    for i := 0 to |labels|
      invariant Encodable(labels[..i]) && out == buf + Encoded(labels[..i])
    {
      var part := labels[i];
      if part == [] || |part| > MAX_LABEL {
        assert LabelsOf(name)[i] == labels[i] && !(0 < |labels[i]| <= 63);
        return None;
      }
      EncodedSnoc(labels[..i], part);
      assert labels[..i + 1] == labels[..i] + [part];
      out := out + [|part|];
      out := out + part;
    }
    assert labels[..|labels|] == labels;
    r := Some(out + [0]);
  }

  lemma EncodedNone()
    ensures Encoded([]) == []
  {
  }

  // ----- reading back -----

  /** Encoded labels are read one by one, wherever they stand and whatever follows. */
  lemma {:induction false} LabelsRead(msg: seq<Byte>, pos: nat, labels: seq<Label>, hops: nat)
    requires Encodable(labels) && Holds(msg, pos, Encoded(labels))
    ensures var next := pos + |Encoded(labels)|;
            LabelsAt(msg, pos, hops) == Prepend(labels, LabelsAt(msg, next, hops))
            && NameEnd(msg, pos) == NameEnd(msg, next)
    decreases |labels|
  {
    hide LabelsAt, NameEnd, Prepend, Holds, Encoded, Written;
    var next := pos + |Encoded(labels)|;
    if labels == [] {
      EncodedNone();
      PrependNone(LabelsAt(msg, next, hops));
    } else {
      var part, more := labels[0], labels[1..];
      EncodedCons(labels);
      FirstLabel(msg, pos, part, Encoded(more));
      OneLabel(msg, pos, part, hops);
      LabelsRead(msg, pos + 1 + |part|, more, hops);
      PrependTwice(part, more, LabelsAt(msg, next, hops));
      assert [part] + more == labels;
    }
  }

  lemma EncodedCons(labels: seq<Label>)
    requires labels != [] && Encodable(labels)
    ensures Encoded(labels) == Written(labels[0]) + Encoded(labels[1..])
    ensures |Written(labels[0])| == 1 + |labels[0]|
  {
  }

  lemma PrependTwice(part: Label, more: seq<Label>, r: Result<seq<Label>, NameError>)
    ensures Prepend([part], Prepend(more, r)) == Prepend([part] + more, r)
  {
    assert r.Ok? ==> [part] + (more + r.value) == [part] + more + r.value;
  }

  lemma FirstLabel(msg: seq<Byte>, pos: nat, part: Label, more: seq<Byte>)
    requires Fits(part) && Holds(msg, pos, Written(part) + more)
    ensures Holds(msg, pos, Written(part)) && Holds(msg, pos + 1 + |part|, more)
  {
    var all := Written(part) + more;
    assert msg[pos..pos + 1 + |part|] == all[..1 + |part|];
    assert msg[pos + 1 + |part|..pos + |all|] == all[1 + |part|..];
  }

  lemma OneLabel(msg: seq<Byte>, pos: nat, part: Label, hops: nat)
    requires Fits(part) && Holds(msg, pos, Written(part))
    ensures LabelsAt(msg, pos, hops) == Prepend([part], LabelsAt(msg, pos + 1 + |part|, hops))
    ensures NameEnd(msg, pos) == NameEnd(msg, pos + 1 + |part|)
  {
    var all := Written(part);
    assert msg[pos] == msg[pos..pos + |all|][0] == |part|;
    assert msg[pos + 1..pos + 1 + |part|] == all[1..] == part;
  }

  /** Behind labels in place, the next byte decides: 0 ends the name, 64 to 191 is no length, a label or a pointer that
      is cut off runs out of the message. */
  lemma NameStops(msg: seq<Byte>, pos: nat, labels: seq<Label>, hops: nat)
    requires Encodable(labels) && Holds(msg, pos, Encoded(labels))
    ensures var next := pos + |Encoded(labels)|;
            && (next == |msg| ==> LabelsAt(msg, pos, hops) == Err(OutOfBounds))
            && (next < |msg| ==>
                  && (msg[next] == 0 ==> LabelsAt(msg, pos, hops) == Ok(labels))
                  && (64 <= msg[next] < 192 ==> LabelsAt(msg, pos, hops) == Err(BadLabel))
                  && (0 < msg[next] < 64 && next + msg[next] >= |msg| ==> LabelsAt(msg, pos, hops) == Err(OutOfBounds))
                  && (msg[next] >= 192 && next + 1 == |msg| ==> LabelsAt(msg, pos, hops) == Err(OutOfBounds)))
  {
    hide Encoded, NameEnd, Holds;
    LabelsRead(msg, pos, labels, hops);
    assert labels + [] == labels;
  }

  /** At each place but the last a pointer to the next. */
  ghost predicate PointerChain(msg: seq<Byte>, places: seq<nat>) {
    |places| >= 2 ==>
      places[1] < 0x4000 && Holds(msg, places[0], Pointer(places[1])) && PointerChain(msg, places[1..])
  }

  /** Twenty pointers one after another are followed, a twenty-first is refused. */
  lemma TwentyPointers(msg: seq<Byte>, places: seq<nat>, labels: seq<Label>)
    requires places != [] && PointerChain(msg, places) && Encodable(labels)
    requires Holds(msg, places[|places| - 1], Encoded(labels) + [0])
    ensures LabelsAt(msg, places[0], 0) == if |places| <= 21 then Ok(labels) else Err(PointerLoop)
  {
    hide *;
    ChainFollowed(msg, places, labels, 0);
  }

  lemma {:induction false} ChainFollowed(msg: seq<Byte>, places: seq<nat>, labels: seq<Label>, hops: nat)
    requires places != [] && hops <= 20 && PointerChain(msg, places) && Encodable(labels)
    requires Holds(msg, places[|places| - 1], Encoded(labels) + [0])
    ensures LabelsAt(msg, places[0], hops) == if hops + |places| <= 21 then Ok(labels) else Err(PointerLoop)
    decreases |places|
  {
    hide Encoded, LabelsAt, NameEnd, Holds, Pointer;
    if |places| == 1 {
      WholeNameRead(msg, places[0], labels, hops);
    } else if hops < 20 {
      PointerRead(msg, places[0], places[1], hops);
      ChainFollowed(msg, places[1..], labels, hops + 1);
    } else {
      PointerRefused(msg, places[0], places[1], hops);
    }
  }

  lemma PointerRefused(msg: seq<Byte>, pos: nat, target: nat, hops: nat)
    requires target < 0x4000 && hops == 20 && Holds(msg, pos, Pointer(target))
    ensures LabelsAt(msg, pos, hops) == Err(PointerLoop)
  {
    assert msg[pos..pos + 2][0] == 0xC0 + target / 256;
    assert msg[pos] == 0xC0 + target / 256;
  }

  /** With fewer jumps behind it a name reads the same. */
  lemma {:induction false} FewerHops(msg: seq<Byte>, pos: nat, hops: nat, fewer: nat)
    requires fewer <= hops && LabelsAt(msg, pos, hops).Ok?
    ensures LabelsAt(msg, pos, fewer) == LabelsAt(msg, pos, hops)
    decreases if hops <= MAX_HOPS then MAX_HOPS - hops else 0, if pos < |msg| then |msg| - pos else 0
  {
    var len: nat := msg[pos];
    if len == 0 {
    } else if len / 64 == 3 {
      FewerHops(msg, Target(msg, pos), hops + 1, fewer + 1);
    } else {
      FewerHops(msg, pos + 1 + len, hops, fewer);
    }
  }

  /** The two bytes of a compression pointer. */
  function Pointer(target: nat): seq<Byte>
    requires target < 0x4000
  {
    [0xC0 + target / 256, target % 256]
  }

  /** A label suffix written as a pointer to the same name elsewhere reads the same, within the hop limit. */
  lemma PointerReplacesSuffix(msg: seq<Byte>, pos: nat, labels: seq<Label>, target: nat, hops: nat)
    requires Encodable(labels) && target < 0x4000 && hops < MAX_HOPS
    requires Holds(msg, pos, Encoded(labels) + Pointer(target))
    requires LabelsAt(msg, target, hops + 1).Ok?
    ensures LabelsAt(msg, pos, hops) == Prepend(labels, LabelsAt(msg, target, 0))
    ensures NameEnd(msg, pos) == pos + |Encoded(labels)| + 2
  {
    hide Encoded, LabelsAt, NameEnd, Holds, Pointer;
    HoldsParts(msg, pos, Encoded(labels), Pointer(target));
    PointerRead(msg, pos + |Encoded(labels)|, target, hops);
    LabelsRead(msg, pos, labels, hops);
    FewerHops(msg, target, hops + 1, 0);
  }

  lemma PointerRead(msg: seq<Byte>, pos: nat, target: nat, hops: nat)
    requires target < 0x4000 && hops < MAX_HOPS && Holds(msg, pos, Pointer(target))
    ensures LabelsAt(msg, pos, hops) == LabelsAt(msg, target, hops + 1) && NameEnd(msg, pos) == pos + 2
  {
    assert msg[pos..pos + 2][0] == 0xC0 + target / 256 && msg[pos..pos + 2][1] == target % 256;
    assert msg[pos] == 0xC0 + target / 256 && msg[pos + 1] == target % 256;
    assert Target(msg, pos) == target;
  }

  /** A written name is read back, from the bytes in place. */
  lemma WholeNameRead(msg: seq<Byte>, pos: nat, labels: seq<Label>, hops: nat)
    requires Encodable(labels) && Holds(msg, pos, Encoded(labels) + [0])
    ensures LabelsAt(msg, pos, hops) == Ok(labels)
    ensures NameEnd(msg, pos) == pos + |Encoded(labels)| + 1
  {
    var all, at := Encoded(labels) + [0], pos + |Encoded(labels)|;
    assert msg[pos..at] == all[..|Encoded(labels)|] == Encoded(labels);
    assert msg[at] == msg[pos..pos + |all|][|Encoded(labels)|] == 0;
    LabelsRead(msg, pos, labels, hops);
    assert labels + [] == labels;
  }

  /** A name split into labels in place and a pointer to the rest is the whole name. */
  lemma CompressedName(msg: seq<Byte>, pos: nat, labels: seq<Label>, target: nat, rest: seq<Label>)
    requires Encodable(labels) && Encodable(rest) && target < 0x4000
    requires Holds(msg, pos, Encoded(labels) + Pointer(target)) && Holds(msg, target, Encoded(rest) + [0])
    ensures LabelsAt(msg, pos, 0) == Ok(labels + rest) && NameEnd(msg, pos) == pos + |Encoded(labels)| + 2
  {
    WholeNameRead(msg, target, rest, 1);
    WholeNameRead(msg, target, rest, 0);
    hide Encoded, LabelsAt, NameEnd, Holds;
    PointerReplacesSuffix(msg, pos, labels, target, 0);
  }

  /** Pointers that only lead to pointers are refused, never followed for ever. */
  lemma {:induction false} PointerCycleRefused(msg: seq<Byte>, cycle: set<nat>, pos: nat, hops: nat)
    requires pos in cycle && hops <= MAX_HOPS
    requires forall p :: p in cycle ==> p + 1 < |msg| && msg[p] / 64 == 3 && Target(msg, p) in cycle
    ensures LabelsAt(msg, pos, hops) == Err(PointerLoop)
    decreases MAX_HOPS - hops
  {
    if hops < MAX_HOPS {
      PointerCycleRefused(msg, cycle, Target(msg, pos), hops + 1);
    }
  }

  // ----- names as text -----

  lemma {:induction false} PartsValid(s: seq<Byte>)
    requires ValidUtf8(s)
    ensures forall i :: 0 <= i < |SplitBytes(s, DOT)| ==> ValidUtf8(SplitBytes(s, DOT)[i])
    decreases |s|
  {
    var i := ByteAt(s, DOT);
    if i < |s| {
      assert s == s[..i] + s[i..];
      Utf8Cut(s[..i], s[i..]);
      assert s[i..][1..] == s[i + 1..];
      PartsValid(s[i + 1..]);
    }
  }

  lemma {:induction false} TrimmedValid(s: seq<Byte>)
    requires ValidUtf8(s)
    ensures ValidUtf8(TrimDots(s))
    decreases |s|
  {
    if s != [] && s[|s| - 1] == DOT {
      assert s == s[..|s| - 1] + [DOT];
      Utf8Cut(s[..|s| - 1], [DOT]);
      TrimmedValid(s[..|s| - 1]);
    }
  }

  lemma DecodedSame(labels: seq<Label>, lossy: Label -> Label)
    requires forall i :: 0 <= i < |labels| ==> ValidUtf8(labels[i])
    requires Faithful(lossy)
    ensures Decoded(labels, lossy) == labels
  {
    hide ValidUtf8;
  }

  /** A name is its labels with dots between, with or without one behind; the root is a single dot. */
  lemma NameIsLabels(labels: seq<Label>, lossy: Label -> Label)
    requires forall i :: 0 <= i < |labels| ==> labels[i] != [] && 46 !in labels[i] && ValidUtf8(labels[i])
    requires Faithful(lossy)
    ensures labels != [] ==> LabelsOf(JoinBytes(labels, 46)) == labels
    ensures labels != [] ==> LabelsOf(JoinBytes(labels, 46) + [46]) == labels
    ensures NameText(labels, lossy) == (if labels == [] then [46] else JoinBytes(labels, 46))
    ensures LabelsOf([46]) == [] && LabelsOf([]) == []
  {
    hide ValidUtf8, Faithful, JoinBytes, SplitBytes, TrimDots, Decoded;
    LossySame(labels, lossy);
    DotBehind([]);
    assert [] + [46] == [46];
    if labels != [] {
      SplitOfJoin(labels, 46);
      JoinEnds(labels);
      DotBehind(JoinBytes(labels, 46));
    }
  }

  lemma DotBehind(name: seq<Byte>)
    requires name == [] || name[|name| - 1] != 46
    ensures TrimDots(name) == TrimDots(name + [46]) == name
  {
    assert (name + [46])[..|name|] == name;
  }

  lemma LossySame(labels: seq<Label>, lossy: Label -> Label)
    requires (forall i :: 0 <= i < |labels| ==> ValidUtf8(labels[i])) && Faithful(lossy)
    ensures Decoded(labels, lossy) == labels
  {
    DecodedSame(labels, lossy);
  }

  lemma {:induction false} JoinEnds(labels: seq<Label>)
    requires labels != [] && forall i :: 0 <= i < |labels| ==> labels[i] != [] && 46 !in labels[i]
    ensures var name := JoinBytes(labels, 46); name != [] && name[|name| - 1] != 46
    decreases |labels|
  {
    if |labels| > 1 {
      JoinEnds(labels[1..]);
    }
  }

  /** parse_name inverts encode_name at any offset, up to trailing dots; the root reads as a dot. */
  lemma NameRoundTrip(before: seq<Byte>, name: seq<Byte>, after: seq<Byte>, lossy: Label -> Label)
    requires ValidUtf8(name) && Encodable(LabelsOf(name))
    requires Faithful(lossy)
    ensures var wire := Encoded(LabelsOf(name)) + [0];
            Name(before + wire + after, |before|, lossy)
            == Ok((if TrimDots(name) == [] then [DOT] else TrimDots(name), |before| + |wire|))
  {
    hide Encoded, LabelsAt, NameEnd, ValidUtf8, LabelsOf, Holds, NameText, TrimDots, Faithful;
    var labels := LabelsOf(name);
    var wire := Encoded(labels) + [0];
    var msg := before + wire + after;
    Standing(before, wire, after);
    WholeNameRead(msg, |before|, labels, 0);
    LabelsText(name, lossy);
  }

  lemma LabelsText(name: seq<Byte>, lossy: Label -> Label)
    requires ValidUtf8(name)
    requires Faithful(lossy)
    ensures NameText(LabelsOf(name), lossy) == if TrimDots(name) == [] then [DOT] else TrimDots(name)
  {
    TrimmedValid(name);
    PartsValid(TrimDots(name));
    hide Decoded, ValidUtf8;
    DecodedSame(LabelsOf(name), lossy);
  }

  // ----- the answers of a response -----

  const QTYPE_NS: nat := 2
  const QTYPE_CNAME: nat := 5
  const QTYPE_PTR: nat := 12
  const QTYPE_MX: nat := 15

  datatype Answer = Answer(rtype: nat, rdata: seq<Byte>, rdataName: Option<seq<Byte>>)

  function Number16(msg: seq<Byte>, pos: nat): nat {
    var hi: nat := if pos < |msg| then msg[pos] else 0;
    var lo: nat := if pos + 1 < |msg| then msg[pos + 1] else 0;
    hi * 256 + lo
  }

  function Skip(msg: seq<Byte>, pos: nat): (end: Result<nat, NameError>)
    ensures end.Ok? ==> pos < end.value <= |msg|
  {
    var labels := LabelsAt(msg, pos, 0);
    if labels.Err? then Err(labels.error) else Ok(NameEnd(msg, pos))
  }

  function Questions(msg: seq<Byte>, pos: nat, count: nat): Result<nat, NameError>
    decreases count
  {
    if count == 0 then Ok(pos) else
      var end := Skip(msg, pos);
      if end.Err? then Err(end.error) else Questions(msg, end.value + 4, count - 1)
  }

  function NameOrNone(msg: seq<Byte>, pos: nat, lossy: Label -> Label): Option<seq<Byte>> {
    var n := Name(msg, pos, lossy);
    if n.Ok? then Some(n.value.0) else None
  }

  function RdataName(msg: seq<Byte>, rtype: nat, pos: nat, length: nat, lossy: Label -> Label): Option<seq<Byte>> {
    if rtype == QTYPE_MX && length >= 3 then NameOrNone(msg, pos + 2, lossy)
    else if rtype in {QTYPE_PTR, QTYPE_CNAME, QTYPE_NS} then NameOrNone(msg, pos, lossy)
    else None
  }

  datatype Stop = Malformed(error: NameError) | PastTheEnd

  /** One record, and where the next starts. */
  function AnswerAt(msg: seq<Byte>, pos: nat, lossy: Label -> Label): (r: Result<(Answer, nat), Stop>)
    ensures r.Ok? ==> pos + 10 < r.value.1 <= |msg|
  {
    var end := Skip(msg, pos);
    if end.Err? then Err(Malformed(end.error))
    else if end.value + 10 > |msg| then Err(PastTheEnd)
    else
      var rtype, length, data := Number16(msg, end.value), Number16(msg, end.value + 8), end.value + 10;
      if data + length > |msg| then Err(PastTheEnd)
      else Ok((Answer(rtype, msg[data..data + length], RdataName(msg, rtype, data, length, lossy)), data + length))
  }

  /** At most count answers from pos on; a record that runs past the end stops the walk. */
  function Answers(msg: seq<Byte>, pos: nat, count: nat, lossy: Label -> Label): Result<seq<Answer>, NameError>
    decreases count
  {
    if count == 0 then Ok([]) else
      match AnswerAt(msg, pos, lossy)
      case Err(Malformed(e)) => Err(e)
      case Err(PastTheEnd) => Ok([])
      case Ok((answer, next)) => Before([answer], Answers(msg, next, count - 1, lossy))
  }

  function Before(first: seq<Answer>, r: Result<seq<Answer>, NameError>): Result<seq<Answer>, NameError> {
    if r.Ok? then Ok(first + r.value) else r
  }

  lemma BeforeJoin(first: seq<Answer>, answer: Answer, r: Result<seq<Answer>, NameError>)
    ensures Before([], r) == r && Before(first, Ok([])) == Ok(first)
    ensures Before(first, Before([answer], r)) == Before(first + [answer], r)
  {
    assert first + [] == first;
    assert r.Ok? ==> [] + r.value == r.value && first + ([answer] + r.value) == first + [answer] + r.value;
  }

  method ReadAnswer(resp: seq<Byte>, start: nat, lossy: Label -> Label) returns (r: Result<(Answer, nat), Stop>)
    ensures r == AnswerAt(resp, start, lossy)
  {
    hide LabelsAt, NameEnd, NameText;
    var name := ParseName(resp, start, lossy);
    if name.Err? { return Err(Malformed(name.error)); }
    var pos := name.value.1;
    if pos + 10 > |resp| { return Err(PastTheEnd); }
    var rtype, rdlength := Number16(resp, pos), Number16(resp, pos + 8);
    pos := pos + 10;
    if pos + rdlength > |resp| { return Err(PastTheEnd); }
    var rdataName: Option<seq<Byte>> := None;
    if rtype == QTYPE_MX && rdlength >= 3 {
      var n := ParseName(resp, pos + 2, lossy);
      if n.Ok? { rdataName := Some(n.value.0); }
    } else if rtype == QTYPE_PTR || rtype == QTYPE_CNAME || rtype == QTYPE_NS {
      var n := ParseName(resp, pos, lossy);
      if n.Ok? { rdataName := Some(n.value.0); }
    }
    r := Ok((Answer(rtype, resp[pos..pos + rdlength], rdataName), pos + rdlength));
  }

  method SkipQuestions(resp: seq<Byte>, count: nat, lossy: Label -> Label) returns (r: Result<nat, NameError>)
    ensures r == Questions(resp, 12, count)
  {
    hide LabelsAt, NameEnd, NameText;
    var pos: nat := 12;
    for i := 0 to count
      invariant Questions(resp, pos, count - i) == Questions(resp, 12, count)
    {
      var name := ParseName(resp, pos, lossy);
      if name.Err? { return Err(name.error); }
      pos := name.value.1 + 4;
    }
    r := Ok(pos);
  }

  /** The answers of a response: as many as its header counts, behind as many questions as it counts. */
  function Response(resp: seq<Byte>, lossy: Label -> Label): Result<seq<Answer>, NameError> {
    var start := Questions(resp, 12, Number16(resp, 4));
    if start.Err? then Err(start.error) else Answers(resp, start.value, Number16(resp, 6), lossy)
  }

  /** The part of query_once behind the header checks. */
  method WalkAnswers(resp: seq<Byte>, lossy: Label -> Label) returns (r: Result<seq<Answer>, NameError>)
    requires |resp| >= 12
    ensures r == Response(resp, lossy)
  {
    hide Questions, AnswerAt, Before, Number16;
    var ancount := Number16(resp, 6);
    var start := SkipQuestions(resp, Number16(resp, 4), lossy);
    if start.Err? { return Err(start.error); }
    var pos, answers: seq<Answer> := start.value, [];
    ghost var whole := Answers(resp, pos, ancount, lossy);
    BeforeJoin([], Answer(0, [], None), whole);
    for i := 0 to ancount
      invariant whole == Before(answers, Answers(resp, pos, ancount - i, lossy))
    {
      var next := ReadAnswer(resp, pos, lossy);
      match next {
        case Err(Malformed(e)) =>
          MalformedStops(answers, e);
          return Err(e);
        case Err(PastTheEnd) =>
          BeforeJoin(answers, Answer(0, [], None), whole);
          return Ok(answers);
        case Ok((answer, after)) =>
          BeforeJoin(answers, answer, Answers(resp, after, ancount - i - 1, lossy));
          answers := answers + [answer];
          pos := after;
      }
    }
    BeforeJoin(answers, Answer(0, [], None), whole);
    r := Ok(answers);
  }

  lemma MalformedStops(first: seq<Answer>, e: NameError)
    ensures Before(first, Err(e)) == Err(e)
  {
  }

  /** Whatever the header claims, the walk advances: no more records than the message has room for. */
  lemma {:induction false} WalkAdvances(msg: seq<Byte>, pos: nat, count: nat, lossy: Label -> Label)
    ensures var r := Answers(msg, pos, count, lossy);
            r.Ok? ==> |r.value| <= count && (r.value != [] ==> pos + 11 * |r.value| <= |msg|)
    decreases count
  {
    hide AnswerAt;
    if count > 0 && AnswerAt(msg, pos, lossy).Ok? {
      WalkAdvances(msg, AnswerAt(msg, pos, lossy).value.1, count - 1, lossy);
    }
  }

  // ----- a response on the wire -----

  /** A name as responses write it: labels in place, then the root label or a pointer to the rest. */
  datatype WireName = WireName(labels: seq<Label>, pointer: Option<nat>)

  /** Legal labels, and a pointer of 14 bits. */
  predicate Legal(n: WireName) {
    Encodable(n.labels) && (n.pointer.Some? ==> n.pointer.value < 0x4000)
  }

  function NameBytes(n: WireName): seq<Byte>
    requires Legal(n)
  {
    Encoded(n.labels) + if n.pointer.None? then [0] else Pointer(n.pointer.value)
  }

  /** What the pointer leads to is a name within the hop limit. */
  predicate Resolves(msg: seq<Byte>, n: WireName)
    ensures Resolves(msg, n) ==> Legal(n)
  {
    Legal(n) && (n.pointer.Some? ==> LabelsAt(msg, n.pointer.value, 1).Ok?)
  }

  function Meaning(msg: seq<Byte>, n: WireName): seq<Label>
    requires Resolves(msg, n)
  {
    n.labels + if n.pointer.None? then [] else LabelsAt(msg, n.pointer.value, 1).value
  }

  /** A name of a response is read as what it means, from the bytes in place. */
  lemma WireNameRead(msg: seq<Byte>, pos: nat, n: WireName)
    requires Resolves(msg, n) && Holds(msg, pos, NameBytes(n))
    ensures LabelsAt(msg, pos, 0) == Ok(Meaning(msg, n)) && NameEnd(msg, pos) == pos + |NameBytes(n)|
  {
    hide Encoded, LabelsAt, NameEnd, Holds;
    if n.pointer.None? {
      WholeNameRead(msg, pos, n.labels, 0);
      assert n.labels + [] == n.labels;
    } else {
      PointerReplacesSuffix(msg, pos, n.labels, n.pointer.value, 0);
      FewerHops(msg, n.pointer.value, 1, 0);
    }
  }

  datatype Rdata = Plain(bytes: seq<Byte>) | Host(name: WireName) | Exchange(preference: nat, name: WireName)

  function RdataBytes(d: Rdata): seq<Byte>
    requires !d.Plain? ==> Legal(d.name)
    requires d.Exchange? ==> d.preference < 0x1_0000
  {
    match d
    case Plain(bytes) => bytes
    case Host(name) => NameBytes(name)
    case Exchange(preference, name) => Bytes16(preference) + NameBytes(name)
  }

  /** A resource record as section 4.1.3 of RFC 1035 lays it out; six bytes of class and time to live. Types 2, 5 and 12
      (NS, CNAME, PTR) hold a name, type 15 (MX) a preference and a name. */
  datatype Wire = Wire(owner: WireName, rtype: nat, classTtl: seq<Byte>, rdata: Rdata)

  /** The record's names resolve in the message, and its data has the form its type asks for. */
  predicate WellFormed(msg: seq<Byte>, w: Wire) {
    && Resolves(msg, w.owner) && w.rtype < 0x1_0000 && |w.classTtl| == 6
    && (w.rdata.Exchange? <==> w.rtype == 15)
    && (w.rdata.Host? <==> w.rtype == 2 || w.rtype == 5 || w.rtype == 12)
    && (!w.rdata.Plain? ==> Resolves(msg, w.rdata.name))
    && (w.rdata.Exchange? ==> w.rdata.preference < 0x1_0000)
    && |RdataBytes(w.rdata)| < 0x1_0000
  }

  function Bytes16(n: nat): seq<Byte>
    requires n < 0x1_0000
  {
    [n / 256, n % 256]
  }

  function RecordBytes(msg: seq<Byte>, w: Wire): seq<Byte>
    requires WellFormed(msg, w)
  {
    var data := RdataBytes(w.rdata);
    NameBytes(w.owner) + (Bytes16(w.rtype) + w.classTtl + Bytes16(|data|)) + data
  }

  /** What the walk makes of the record. */
  function Expected(msg: seq<Byte>, w: Wire, lossy: Label -> Label): Answer
    requires WellFormed(msg, w)
  {
    Answer(w.rtype, RdataBytes(w.rdata),
           if w.rdata.Plain? then None else Some(NameText(Meaning(msg, w.rdata.name), lossy)))
  }

  function SectionBytes(msg: seq<Byte>, records: seq<Wire>): seq<Byte>
    requires forall i :: 0 <= i < |records| ==> WellFormed(msg, records[i])
  {
    if records == [] then [] else RecordBytes(msg, records[0]) + SectionBytes(msg, records[1..])
  }

  lemma FixedPart(msg: seq<Byte>, pos: nat, rtype: nat, classTtl: seq<Byte>, length: nat)
    requires rtype < 0x1_0000 && |classTtl| == 6 && length < 0x1_0000
    requires Holds(msg, pos, Bytes16(rtype) + classTtl + Bytes16(length))
    ensures pos + 10 <= |msg| && Number16(msg, pos) == rtype && Number16(msg, pos + 8) == length
  {
    var f := Bytes16(rtype) + classTtl + Bytes16(length);
    assert msg[pos..pos + |f|][0] == f[0] && msg[pos..pos + |f|][1] == f[1];
    assert msg[pos..pos + |f|][8] == f[8] && msg[pos..pos + |f|][9] == f[9];
  }

  /** The name in the data of a record is read back. */
  lemma RdataRead(msg: seq<Byte>, pos: nat, w: Wire, lossy: Label -> Label)
    requires WellFormed(msg, w) && Holds(msg, pos, RdataBytes(w.rdata))
    ensures RdataName(msg, w.rtype, pos, |RdataBytes(w.rdata)|, lossy) == Expected(msg, w, lossy).rdataName
  {
    hide Encoded, LabelsAt, NameEnd, Holds, NameText, Meaning, Resolves, Legal, NameBytes;
    if w.rdata.Host? {
      WireNameRead(msg, pos, w.rdata.name);
    } else if w.rdata.Exchange? {
      HoldsParts(msg, pos, Bytes16(w.rdata.preference), NameBytes(w.rdata.name));
      WireNameRead(msg, pos + 2, w.rdata.name);
    }
  }

  /** A record on the wire is read back, wherever it stands. */
  lemma RecordRead(msg: seq<Byte>, pos: nat, w: Wire, lossy: Label -> Label)
    requires WellFormed(msg, w) && Holds(msg, pos, RecordBytes(msg, w))
    ensures AnswerAt(msg, pos, lossy) == Ok((Expected(msg, w, lossy), pos + |RecordBytes(msg, w)|))
  {
    hide Encoded, LabelsAt, NameEnd, RdataName, Number16, Holds, Resolves, Meaning, NameBytes, RdataBytes, Legal;
    var owner, data := NameBytes(w.owner), RdataBytes(w.rdata);
    var fixed := Bytes16(w.rtype) + w.classTtl + Bytes16(|data|);
    HoldsParts(msg, pos, owner + fixed, data);
    HoldsParts(msg, pos, owner, fixed);
    WireNameRead(msg, pos, w.owner);
    FixedPart(msg, pos + |owner|, w.rtype, w.classTtl, |data|);
    HeldBytes(msg, pos + |owner| + 10, data);
    RdataRead(msg, pos + |owner| + 10, w, lossy);
  }

  /** The walk returns a whole answer section, in order, compressed names and names in the data included. */
  lemma {:induction false} SectionRead(msg: seq<Byte>, pos: nat, records: seq<Wire>, lossy: Label -> Label)
    requires forall i :: 0 <= i < |records| ==> WellFormed(msg, records[i])
    requires Holds(msg, pos, SectionBytes(msg, records))
    ensures var r := Answers(msg, pos, |records|, lossy);
            r.Ok? && |r.value| == |records|
            && forall i :: 0 <= i < |records| ==> r.value[i] == Expected(msg, records[i], lossy)
    decreases |records|
  {
    hide AnswerAt, RecordBytes, WellFormed, Holds, Expected;
    if records == [] {
    } else {
      var w := records[0];
      HoldsParts(msg, pos, RecordBytes(msg, w), SectionBytes(msg, records[1..]));
      RecordRead(msg, pos, w, lossy);
      SectionRead(msg, pos + |RecordBytes(msg, w)|, records[1..], lossy);
    }
  }

  // ----- a whole response -----

  /** A question is a name and four bytes of type and class. */
  datatype Question = Question(name: WireName, typeClass: seq<Byte>)

  predicate Askable(msg: seq<Byte>, qs: seq<Question>) {
    forall i :: 0 <= i < |qs| ==> Resolves(msg, qs[i].name) && |qs[i].typeClass| == 4
  }

  function QuestionBytes(msg: seq<Byte>, qs: seq<Question>): seq<Byte>
    requires Askable(msg, qs)
  {
    if qs == [] then [] else NameBytes(qs[0].name) + qs[0].typeClass + QuestionBytes(msg, qs[1..])
  }

  lemma {:induction false} QuestionsSkipped(msg: seq<Byte>, pos: nat, qs: seq<Question>)
    requires Askable(msg, qs) && Holds(msg, pos, QuestionBytes(msg, qs))
    ensures Questions(msg, pos, |qs|) == Ok(pos + |QuestionBytes(msg, qs)|)
    decreases |qs|
  {
    hide LabelsAt, NameEnd, NameBytes, Holds, Resolves, Meaning;
    if qs == [] {
    } else {
      var name, rest := NameBytes(qs[0].name), QuestionBytes(msg, qs[1..]);
      HoldsParts(msg, pos, name + qs[0].typeClass, rest);
      HoldsParts(msg, pos, name, qs[0].typeClass);
      WireNameRead(msg, pos, qs[0].name);
      QuestionsSkipped(msg, pos + |name| + 4, qs[1..]);
    }
  }

  function Pair(hi: nat, lo: nat): nat {
    256 * hi + lo
  }

  /** Number 4 and 5 of a message's bytes count the questions, 6 and 7 the answers. */
  predicate Counts(msg: seq<Byte>, questions: nat, answers: nat) {
    |msg| >= 12 && Pair(msg[4], msg[5]) == questions && Pair(msg[6], msg[7]) == answers
  }

  /** A response with its questions behind the header and its answers behind them is read as just these answers. */
  lemma ResponseRead(msg: seq<Byte>, qs: seq<Question>, records: seq<Wire>, lossy: Label -> Label)
    requires Askable(msg, qs) && forall i :: 0 <= i < |records| ==> WellFormed(msg, records[i])
    requires Counts(msg, |qs|, |records|) && Holds(msg, 12, QuestionBytes(msg, qs) + SectionBytes(msg, records))
    ensures var r := Response(msg, lossy);
            r.Ok? && |r.value| == |records|
            && forall i :: 0 <= i < |records| ==> r.value[i] == Expected(msg, records[i], lossy)
  {
    hide Questions, Answers, SectionBytes, QuestionBytes, WellFormed, Holds, Expected, Askable;
    HoldsParts(msg, 12, QuestionBytes(msg, qs), SectionBytes(msg, records));
    QuestionsSkipped(msg, 12, qs);
    SectionRead(msg, 12 + |QuestionBytes(msg, qs)|, records, lossy);
  }

  /** Records before one that cannot be read: cut off it ends the walk and they are the answer, with a bad name the
      whole response is refused. */
  lemma {:induction false} SectionStops(msg: seq<Byte>, pos: nat, records: seq<Wire>, more: nat, lossy: Label -> Label)
    requires forall i :: 0 <= i < |records| ==> WellFormed(msg, records[i])
    requires Holds(msg, pos, SectionBytes(msg, records)) && more > 0
    ensures var r, at := Answers(msg, pos, |records| + more, lossy), pos + |SectionBytes(msg, records)|;
            && (LabelsAt(msg, at, 0).Err? ==> r == Err(LabelsAt(msg, at, 0).error))
            && (LabelsAt(msg, at, 0).Ok? && NameEnd(msg, at) + 10 > |msg| ==>
                  r.Ok? && |r.value| == |records|
                  && forall i :: 0 <= i < |records| ==> r.value[i] == Expected(msg, records[i], lossy))
    decreases |records|
  {
    hide LabelsAt, NameEnd, RecordBytes, WellFormed, Holds, Expected, RdataName, Number16;
    if records == [] {
    } else {
      var w := records[0];
      HoldsParts(msg, pos, RecordBytes(msg, w), SectionBytes(msg, records[1..]));
      RecordRead(msg, pos, w, lossy);
      hide AnswerAt;
      SectionStops(msg, pos + |RecordBytes(msg, w)|, records[1..], more, lossy);
    }
  }
}

/** ustar headers: path splitting, octal fields, checksum. */
module TarHeader {
  import opened Arith
  import opened Octets
  import opened Results

  const SLASH: Byte := 47
  const SPACE: Byte := 32
  const NAME_MAX: nat := 100
  const PREFIX_MAX: nat := 155

  datatype PathError = EmptyPath | TooLong | CannotSplit

  // ----- splitting a path into name and prefix -----

  function TrimSlashes(s: seq<Byte>): (r: seq<Byte>)
    ensures r == [] || r[0] != SLASH
  {
    if s != [] && s[0] == SLASH then TrimSlashes(s[1..]) else s
  }

  /** A slash at i leaves a nonempty name that fits and a prefix that fits. */
  predicate LegalSplit(path: seq<Byte>, i: nat) {
    i < |path| && path[i] == SLASH && 0 < |path| - i - 1 <= NAME_MAX && i <= PREFIX_MAX
  }

  /** The last legal split before a position. */
  function LastLegal(path: seq<Byte>, before: nat): (best: Option<nat>)
    ensures best.Some? ==> best.value < before && LegalSplit(path, best.value)
    ensures forall i :: (if best.Some? then best.value < i else true) && 0 <= i < before ==> !LegalSplit(path, i)
  {
    if before == 0 then None
    else if LegalSplit(path, before - 1) then Some(before - 1)
    else LastLegal(path, before - 1)
  }

  /** Name and prefix of a path, as split_ustar_path chooses them. */
  function SplitPath(path: seq<Byte>): Result<(seq<Byte>, seq<Byte>), PathError> {
    var p := TrimSlashes(path);
    if p == [] then Err(EmptyPath)
    else if |p| <= NAME_MAX then Ok((p, []))
    else if |p| > NAME_MAX + PREFIX_MAX + 1 then Err(TooLong)
    else
      var best := LastLegal(p, |p|);
      if best.None? then Err(CannotSplit) else Ok((p[best.value + 1..], p[..best.value]))
  }

  method SplitUstarPath(path: seq<Byte>) returns (r: Result<(seq<Byte>, seq<Byte>), PathError>)
    ensures r == SplitPath(path)
  {
    var p := TrimSlashes(path);
    if p == [] { return Err(EmptyPath); }
    if |p| <= NAME_MAX { return Ok((p, [])); }
    if |p| > NAME_MAX + PREFIX_MAX + 1 { return Err(TooLong); }
    var best: Option<nat> := None;
    for i := 0 to |p|
      invariant best == LastLegal(p, i)
    {
      if p[i] != SLASH { continue; }
      var prefix, name := p[..i], p[i + 1..];
      if name == [] { continue; }
      if |name| <= NAME_MAX && |prefix| <= PREFIX_MAX { best := Some(i); }
    }
    match best
    case Some(i) => r := Ok((p[i + 1..], p[..i]));
    case None => r := Err(CannotSplit);
  }

  function Joined(name: seq<Byte>, prefix: seq<Byte>): seq<Byte> {
    if prefix == [] then name else if name == [] then prefix else prefix + [SLASH] + name
  }

  /** A path is split exactly when it fits whole or has a legal split, and the parts rejoin to it. */
  lemma SplitExact(path: seq<Byte>)
    ensures var p := TrimSlashes(path); var r := SplitPath(path);
            && (r.Ok? <==> p != [] && (|p| <= 100 || exists i: nat :: LegalSplit(p, i)))
            && (r.Ok? ==> 0 < |r.value.0| <= 100 && |r.value.1| <= 155
                          && p == if r.value.1 == [] then r.value.0 else r.value.1 + [47] + r.value.0)
            && (r.Ok? ==> Joined(r.value.0, r.value.1) == p)
            && (r.Err? ==> r.error == if p == [] then EmptyPath else if |p| > 256 then TooLong else CannotSplit)
    ensures forall i: nat :: LegalSplit(TrimSlashes(path), i) <==>
                               i < |TrimSlashes(path)| && TrimSlashes(path)[i] == 47 && i <= 155
                               && 1 <= |TrimSlashes(path)| - i - 1 <= 100
  {
    var p, r := TrimSlashes(path), SplitPath(path);
    if p != [] && |p| > NAME_MAX && |p| <= NAME_MAX + PREFIX_MAX + 1 {
      var best := LastLegal(p, |p|);
      if best.Some? {
        assert best.value > 0;
        assert p == p[..best.value] + [SLASH] + p[best.value + 1..];
      }
    }
  }

  // ----- octal fields -----

  predicate OctalDigits(s: seq<Byte>) {
    forall i :: 0 <= i < |s| ==> 48 <= s[i] < 56
  }

  /** The octal digits of v, at least width of them. */
  function OctalText(v: nat, width: nat): (s: seq<Byte>)
    ensures |s| >= width && OctalDigits(s)
    decreases v, width
  {
    var d: Byte := 48 + v % 8;
    if v == 0 then (if width == 0 then [] else OctalText(0, width - 1) + [48])
    else OctalText(v / 8, if width == 0 then 0 else width - 1) + [d]
  }

  function OctalValue(s: seq<Byte>): nat
    requires OctalDigits(s)
  {
    if s == [] then 0 else 8 * OctalValue(s[..|s| - 1]) + (s[|s| - 1] - 48)
  }

  lemma {:induction false} OctalReadBack(v: nat, width: nat)
    ensures OctalValue(OctalText(v, width)) == v
    decreases v, width
  {
    var s := OctalText(v, width);
    if v == 0 {
      if width > 0 {
        OctalReadBack(0, width - 1);
        assert s[..|s| - 1] == OctalText(0, width - 1);
      }
    } else {
      var w := if width == 0 then 0 else width - 1;
      OctalReadBack(v / 8, w);
      assert s[..|s| - 1] == OctalText(v / 8, w);
    }
  }

  /** A value fits its width exactly when it is below that power of eight. */
  lemma {:induction false} OctalFits(v: nat, width: nat)
    ensures |OctalText(v, width)| == width <==> v < Pow(8, width)
    decreases width
  {
    if width > 0 {
      OctalFits(v / 8, width - 1);
      assert Pow(8, width) == 8 * Pow(8, width - 1);
      if v == 0 {
        assert OctalText(0, width) == OctalText(0, width - 1) + [48];
      }
    } else {
      assert Pow(8, 0) == 1;
    }
  }

  /** What put_octal leaves in a field: as many digits as fit, and a NUL behind them. */
  function OctalField(field: seq<Byte>, v: nat, digits: nat): (s: seq<Byte>)
    requires field != []
    ensures |s| == |field|
  {
    var text := OctalText(v, digits);
    var n := if |text| < |field| - 1 then |text| else |field| - 1;
    text[..n] + [0] + field[n + 1..]
  }

  function TextField(field: seq<Byte>, s: seq<Byte>): (r: seq<Byte>)
    ensures |r| == |field|
  {
    var n := if |s| < |field| then |s| else |field|;
    s[..n] + field[n..]
  }

  /** Copies bytes into the array, touching nothing else. */
  method CopyInto(a: array<Byte>, lo: nat, bytes: seq<Byte>)
    requires lo + |bytes| <= a.Length
    modifies a
    ensures a[..] == Spliced(old(a[..]), lo, bytes)
  {
    for i := 0 to |bytes|
      invariant forall j :: 0 <= j < i ==> a[lo + j] == bytes[j]
      invariant forall j :: 0 <= j < a.Length && !(lo <= j < lo + i) ==> a[j] == old(a[j])
    {
      a[lo + i] := bytes[i];
    }
    assert a[lo..lo + |bytes|] == bytes;
  }

  /** Bytes laid over a sequence from lo on. */
  function Spliced(s: seq<Byte>, lo: nat, bytes: seq<Byte>): seq<Byte>
    requires lo + |bytes| <= |s|
  {
    s[..lo] + bytes + s[lo + |bytes|..]
  }

  lemma SplicedParts(s: seq<Byte>, lo: nat, hi: nat, bytes: seq<Byte>)
    requires lo + |bytes| <= hi <= |s|
    ensures var t := Spliced(s, lo, bytes);
            |t| == |s| && t[..lo] == s[..lo] && t[hi..] == s[hi..] && t[lo..hi] == bytes + s[lo + |bytes|..hi]
  {
  }

  lemma SplicedSuffix(s: seq<Byte>, from: nat, lo: nat, bytes: seq<Byte>)
    requires from <= lo && lo + |bytes| <= |s|
    ensures Spliced(s, lo, bytes)[..from] == s[..from]
    ensures Spliced(s, lo, bytes)[from..] == Spliced(s[from..], lo - from, bytes)
  {
  }

  method PutStr(a: array<Byte>, lo: nat, hi: nat, s: seq<Byte>)
    requires lo <= hi <= a.Length
    modifies a
    ensures a[..lo] == old(a[..lo]) && a[hi..] == old(a[hi..])
    ensures a[lo..hi] == TextField(old(a[lo..hi]), s)
  {
    var n := if |s| < hi - lo then |s| else hi - lo;
    SplicedParts(a[..], lo, hi, s[..n]);
    assert a[lo..hi][n..] == a[..][lo + n..hi];
    CopyInto(a, lo, s[..n]);
    assert a[..] == Spliced(old(a[..]), lo, s[..n]);
    Slices(a, lo, hi);
  }

  lemma Slices(a: array<Byte>, lo: nat, hi: nat)
    requires lo <= hi <= a.Length
    ensures a[..lo] == a[..][..lo] && a[lo..hi] == a[..][lo..hi] && a[hi..] == a[..][hi..]
  {
  }

  method PutOctal(a: array<Byte>, lo: nat, hi: nat, v: nat, digits: nat)
    requires lo < hi <= a.Length
    modifies a
    ensures a[..lo] == old(a[..lo]) && a[hi..] == old(a[hi..])
    ensures a[lo..hi] == OctalField(old(a[lo..hi]), v, digits)
  {
    hide OctalText;
    var text := OctalText(v, digits);
    var n := if |text| < hi - lo - 1 then |text| else hi - lo - 1;
    ghost var before := a[..];
    CopyInto(a, lo, text[..n]);
    if n < hi - lo {
      a[lo + n] := 0;
    }
    assert a[..] == before[..lo] + (text[..n] + [0]) + before[lo + n + 1..];
    assert a[..] == Spliced(before, lo, text[..n] + [0]);
    SplicedParts(before, lo, hi, text[..n] + [0]);
    Slices(a, lo, hi);
  }

  // ----- the header -----

  function Zeros(n: nat): (s: seq<Byte>)
    ensures |s| == n
  {
    ZeroBytes(n)
  }

  const USTAR: seq<Byte> := [117, 115, 116, 97, 114, 0]
  const VERSION: seq<Byte> := [48, 48]
  const EIGHT_SPACES: seq<Byte> := [32, 32, 32, 32, 32, 32, 32, 32]

  /** Bytes 0 to 147: name, mode, owner, group, size, modification time. */
  function FrontBytes(name: seq<Byte>, mode: nat, size: nat, mtime: nat): (s: seq<Byte>)
    ensures |s| == 148
  {
    TextField(Zeros(100), name) + OctalField(Zeros(8), mode, 7) + OctalField(Zeros(8), 0, 7)
    + OctalField(Zeros(8), 0, 7) + OctalField(Zeros(12), size, 11) + OctalField(Zeros(12), mtime, 11)
  }

  /** Bytes 156 to 511: type, link name, magic, version, owners, prefix. */
  function BackBytes(typeflag: Byte, prefix: seq<Byte>): (s: seq<Byte>)
    ensures |s| == 356
  {
    [typeflag] + Zeros(100) + USTAR + VERSION + Zeros(80) + TextField(Zeros(155), prefix) + Zeros(12)
  }

  function ByteSum(s: seq<Byte>): nat {
    if s == [] then 0 else ByteSum(s[..|s| - 1]) + s[|s| - 1]
  }

  /** The checksum counts its own field as spaces. */
  function Checksum(front: seq<Byte>, back: seq<Byte>): nat {
    ByteSum(front) + 256 + ByteSum(back)
  }

  function Header(name: seq<Byte>, prefix: seq<Byte>, size: nat, typeflag: Byte, mode: nat, mtime: nat): (s: seq<Byte>)
  {
    var front, back := FrontBytes(name, mode, size, mtime), BackBytes(typeflag, prefix);
    front + (OctalText(Checksum(front, back), 6) + [0, SPACE]) + back
  }

  lemma {:induction false} ByteSumJoin(a: seq<Byte>, b: seq<Byte>)
    ensures ByteSum(a + b) == ByteSum(a) + ByteSum(b)
    decreases |b|
  {
    if b == [] {
      assert a + b == a;
    } else {
      assert (a + b)[..|a + b| - 1] == a + b[..|b| - 1];
      ByteSumJoin(a, b[..|b| - 1]);
    }
  }

  lemma {:induction false} ByteSumBound(s: seq<Byte>)
    ensures ByteSum(s) <= 255 * |s|
  {
    if s == [] {
    } else {
      ByteSumBound(s[..|s| - 1]);
    }
  }

  /** A header's checksum always fits six octal digits. */
  lemma ChecksumFits(front: seq<Byte>, back: seq<Byte>)
    requires |front| == 148 && |back| == 356
    ensures Checksum(front, back) <= 128776 < Pow(8, 6) && |OctalText(Checksum(front, back), 6)| == 6
  {
    ByteSumBound(front);
    ByteSumBound(back);
    assert Pow(8, 3) == 512;
    PowAdd(8, 3, 3);
    OctalFits(Checksum(front, back), 6);
  }

  lemma {:induction false} SpacesOnly(s: seq<Byte>)
    requires forall i :: 0 <= i < |s| ==> s[i] == SPACE
    ensures ByteSum(s) == 32 * |s|
  {
    if s == [] {
    } else {
      SpacesOnly(s[..|s| - 1]);
    }
  }

  lemma SpacesSum(front: seq<Byte>, back: seq<Byte>)
    ensures ByteSum(front + EIGHT_SPACES + back) == Checksum(front, back)
  {
    ByteSumJoin(front + EIGHT_SPACES, back);
    ByteSumJoin(front, EIGHT_SPACES);
    SpacesOnly(EIGHT_SPACES);
  }

  /** Fills bytes 0 to 147 of a zeroed block. */
  method FillFront(hdr: array<Byte>, name: seq<Byte>, mode: nat, size: nat, mtime: nat)
    requires hdr.Length == 512 && hdr[..] == Zeros(512)
    modifies hdr
    ensures hdr[..148] == FrontBytes(name, mode, size, mtime) && hdr[148..] == Zeros(364)
  {
    hide OctalField, TextField;
    assert hdr[0..100] == Zeros(100);
    PutStr(hdr, 0, 100, name);
    assert hdr[..100] == hdr[0..100] == TextField(Zeros(100), name);
    assert hdr[100..] == Zeros(412);
    PutNext(hdr, 100, 108, mode, 7);
    PutNext(hdr, 108, 116, 0, 7);
    PutNext(hdr, 116, 124, 0, 7);
    PutNext(hdr, 124, 136, size, 11);
    PutNext(hdr, 136, 148, mtime, 11);
  }

  /** The next octal field, in a block that is still zero from there on. */
  method PutNext(hdr: array<Byte>, lo: nat, hi: nat, v: nat, digits: nat)
    requires lo < hi <= hdr.Length && hdr[lo..] == Zeros(hdr.Length - lo)
    modifies hdr
    ensures hdr[..hi] == old(hdr[..lo]) + OctalField(Zeros(hi - lo), v, digits)
    ensures hdr[hi..] == Zeros(hdr.Length - hi)
  {
    assert hdr[lo..hi] == hdr[lo..][..hi - lo] == Zeros(hi - lo);
    assert hdr[hi..] == hdr[lo..][hi - lo..] == Zeros(hdr.Length - hi);
    PutOctal(hdr, lo, hi, v, digits);
    assert hdr[..hi] == hdr[..lo] + hdr[lo..hi];
  }

  /** Fills bytes 156 to 511 of a block that is zero there. */
  method FillBack(hdr: array<Byte>, typeflag: Byte, prefix: seq<Byte>)
    requires hdr.Length == 512 && hdr[156..] == Zeros(356)
    modifies hdr
    ensures hdr[..156] == old(hdr[..156]) && hdr[156..] == BackBytes(typeflag, prefix)
  {
    ghost var before := hdr[..156];
    hdr[156] := typeflag;
    ghost var t0 := [typeflag] + Zeros(355);
    assert hdr[..][156..] == t0 && hdr[..][..156] == before;
    ghost var s0 := hdr[..];
    CopyInto(hdr, 257, USTAR);
    SplicedSuffix(s0, 156, 257, USTAR);
    ghost var t1, s1 := [typeflag] + Zeros(100) + USTAR + Zeros(249), hdr[..];
    assert Spliced(t0, 101, USTAR) == t1;
    CopyInto(hdr, 263, VERSION);
    SplicedSuffix(s1, 156, 263, VERSION);
    ghost var head, s2 := [typeflag] + Zeros(100) + USTAR + VERSION + Zeros(80), hdr[..];
    assert Spliced(t1, 107, VERSION) == head + Zeros(155) + Zeros(12);
    BackParts(s2, head);
    Slices(hdr, 345, 500);
    PutStr(hdr, 345, 500, prefix);
    FromParts(hdr, before, head, TextField(Zeros(155), prefix));
  }

  lemma BackParts(s: seq<Byte>, head: seq<Byte>)
    requires |s| == 512 && |head| == 189 && s[156..] == head + Zeros(155) + Zeros(12)
    ensures s[..345] == s[..156] + head && s[345..500] == Zeros(155) && s[500..] == Zeros(12)
  {
    assert s[345..500] == s[156..][189..344] && s[500..] == s[156..][344..];
    assert s[156..345] == s[156..][..189];
    assert s[..345] == s[..156] + s[156..345];
  }

  lemma FromParts(hdr: array<Byte>, before: seq<Byte>, head: seq<Byte>, field: seq<Byte>)
    requires hdr.Length == 512 && |before| == 156 && |head| == 189 && |field| == 155
    requires hdr[..345] == before + head && hdr[345..500] == field && hdr[500..] == Zeros(12)
    ensures hdr[..156] == before && hdr[156..] == head + field + Zeros(12)
  {
    assert hdr[..] == hdr[..345] + hdr[345..500] + hdr[500..];
    assert hdr[..] == before + (head + field + Zeros(12));
  }

  /** Puts the checksum into a header whose checksum field holds spaces. */
  method Seal(hdr: array<Byte>, ghost front: seq<Byte>, ghost back: seq<Byte>)
    requires hdr.Length == 512 && |front| == 148 && |back| == 356 && hdr[..] == front + EIGHT_SPACES + back
    modifies hdr
    ensures hdr[..] == front + (OctalText(Checksum(front, back), 6) + [0, SPACE]) + back
  {
    SpacesSum(front, back);
    ChecksumFits(front, back);
    hide ByteSum, Checksum, OctalText, Pow;
    var sum := ByteSum(hdr[..]);
    assert hdr[..148] == front && hdr[156..] == back;
    PutOctal(hdr, 148, 156, sum, 6);
    ghost var text := OctalText(sum, 6);
    assert hdr[148..156][..6] == text;
    assert hdr[148..154] == text;
    hdr[154] := 0;
    hdr[155] := SPACE;
    assert hdr[..148] == front && hdr[156..] == back && hdr[148..154] == text;
    assert hdr[..] == hdr[..148] + (hdr[148..154] + [hdr[154], hdr[155]]) + hdr[156..];
  }

  /** write_header, at a given time: appends one block, or fails exactly when the path cannot be split. */
  method WriteHeader(out: seq<Byte>, path: seq<Byte>, size: nat, typeflag: Byte, mode: nat, mtime: nat)
      returns (r: Result<seq<Byte>, PathError>)
    ensures r == match SplitPath(path)
                 case Err(e) => Err(e)
                 case Ok((name, prefix)) => Ok(out + Header(name, prefix, size, typeflag, mode, mtime))
  {
    hide FrontBytes, BackBytes, Checksum, OctalText, SplitPath;
    var parts := SplitUstarPath(path);
    if parts.Err? { return Err(parts.error); }
    var (name, prefix) := parts.value;
    var hdr := new Byte[512](_ => 0);
    assert hdr[..] == Zeros(512);
    FillFront(hdr, name, mode, size, mtime);
    ghost var front := hdr[..148];
    assert hdr[156..] == hdr[148..][8..] == Zeros(356);
    for i := 148 to 156
      invariant hdr[..148] == front && hdr[156..] == Zeros(356)
      invariant forall j :: 148 <= j < i ==> hdr[j] == SPACE
    {
      hdr[i] := SPACE;
    }
    assert hdr[..156] == front + EIGHT_SPACES;
    FillBack(hdr, typeflag, prefix);
    assert hdr[..] == hdr[..156] + hdr[156..];
    Seal(hdr, front, BackBytes(typeflag, prefix));
    r := Ok(out + hdr[..]);
  }
}

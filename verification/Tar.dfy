/** Reading a ustar archive, and reading back what was written. */
module Tar {
  import opened Arith
  import opened Octets
  import opened Results
  import opened TarHeader
  import opened Utf8

  const BLOCK: nat := 512
  const MAX_U64: nat := 0xFFFF_FFFF_FFFF_FFFF
  const FILE: Byte := 48
  const DIR: Byte := 53

  datatype TarEntry = TarEntry(path: seq<Byte>, isDir: bool, data: seq<Byte>)

  datatype TarError = BadOctal | BadChecksum | Truncated

  // ----- text fields -----

  /** Length of the white-space character at the front, 0 if there is none. */
  function SpaceLen(s: seq<Byte>): (n: nat)
    ensures n <= |s|
  {
    if s == [] then 0
    else if 9 <= s[0] <= 13 || s[0] == 32 then 1
    else if |s| >= 2 && s[0] == 0xC2 && s[1] in {0x85, 0xA0} then 2
    else if |s| >= 3 && WideSpace(s[0], s[1], s[2]) then 3
    else 0
  }

  /** U+1680, U+2000 to U+200A, U+2028, U+2029, U+202F, U+205F, U+3000. */
  predicate WideSpace(a: Byte, b: Byte, c: Byte) {
    (a == 0xE1 && b == 0x9A && c == 0x80)
    || (a == 0xE2 && b == 0x80 && (0x80 <= c <= 0x8A || c in {0xA8, 0xA9, 0xAF}))
    || (a == 0xE2 && b == 0x81 && c == 0x9F)
    || (a == 0xE3 && b == 0x80 && c == 0x80)
  }

  /** Length of the white-space character at the end, 0 if there is none. */
  function SpaceEndLen(s: seq<Byte>): (n: nat)
    ensures n <= |s|
  {
    var k := |s|;
    if k == 0 then 0
    else if 9 <= s[k - 1] <= 13 || s[k - 1] == 32 then 1
    else if k >= 2 && s[k - 2] == 0xC2 && s[k - 1] in {0x85, 0xA0} then 2
    else if k >= 3 && WideSpace(s[k - 3], s[k - 2], s[k - 1]) then 3
    else 0
  }

  function TrimLeft(s: seq<Byte>): (r: seq<Byte>)
    ensures |r| <= |s|
    decreases |s|
  {
    if SpaceLen(s) > 0 then TrimLeft(s[SpaceLen(s)..]) else s
  }

  function TrimRight(s: seq<Byte>): (r: seq<Byte>)
    ensures |r| <= |s|
    decreases |s|
  {
    if SpaceEndLen(s) > 0 then TrimRight(s[..|s| - SpaceEndLen(s)]) else s
  }

  function Trim(s: seq<Byte>): seq<Byte> {
    TrimRight(TrimLeft(s))
  }

  function BeforeNul(s: seq<Byte>): (r: seq<Byte>)
    ensures |r| <= |s|
  {
    if s == [] || s[0] == 0 then [] else [s[0]] + BeforeNul(s[1..])
  }

  /** cstr_field; lossy stands for from_utf8_lossy. */
  function CstrField(bytes: seq<Byte>, lossy: seq<Byte> -> seq<Byte>): seq<Byte> {
    Trim(lossy(BeforeNul(bytes)))
  }

  /** parse_octal: digits after an optional plus, below 2^64; an empty field is zero. */
  function ParseOctal(bytes: seq<Byte>, lossy: seq<Byte> -> seq<Byte>): Result<nat, TarError> {
    var s := CstrField(bytes, lossy);
    var digits := if s != [] && s[0] == 43 then s[1..] else s;
    if s == [] then Ok(0)
    else if digits != [] && OctalDigits(digits) && OctalValue(digits) <= MAX_U64 then Ok(OctalValue(digits))
    else Err(BadOctal)
  }

  // ----- the reader -----

  function PaddingFor(size: nat): nat {
    (BLOCK - size % BLOCK) % BLOCK
  }

  function EndsWithSlash(path: seq<Byte>): seq<Byte> {
    if path != [] && path[|path| - 1] == SLASH then path else path + [SLASH]
  }

  function EntryOf(typeflag: Byte, path: seq<Byte>, data: seq<Byte>): seq<TarEntry> {
    if typeflag == FILE || typeflag == 0 then [TarEntry(path, false, data)]
    else if typeflag == DIR then [TarEntry(EndsWithSlash(path), true, [])]
    else []
  }

  predicate AllZero(s: seq<Byte>) {
    forall i :: 0 <= i < |s| ==> s[i] == 0
  }

  function StoredPath(hdr: seq<Byte>, lossy: seq<Byte> -> seq<Byte>): seq<Byte>
    requires |hdr| == BLOCK
  {
    Joined(CstrField(hdr[0..100], lossy), CstrField(hdr[345..500], lossy))
  }

  /** The entry at an offset (none for a skipped type) and the offset behind it. */
  function EntryAt(data: seq<Byte>, off: nat, lossy: seq<Byte> -> seq<Byte>):
    (r: Result<(seq<TarEntry>, nat), TarError>)
    requires off + BLOCK <= |data|
    ensures r.Ok? ==> r.value.1 >= off + BLOCK
  {
    var hdr := data[off..off + BLOCK];
    var stored := ParseOctal(hdr[148..156], lossy);
    if stored.Err? then Err(stored.error)
    else if Checksum(hdr[..148], hdr[156..]) != stored.value % 0x1_0000_0000 then Err(BadChecksum)
    else
      var size := ParseOctal(hdr[124..136], lossy);
      if size.Err? then Err(size.error)
      else
        var start := off + BLOCK;
        if size.value == 0 then Ok((EntryOf(hdr[156], StoredPath(hdr, lossy), []), start))
        else if start + size.value > |data| then Err(Truncated)
        else Ok((EntryOf(hdr[156], StoredPath(hdr, lossy), data[start..start + size.value]),
                 start + size.value + PaddingFor(size.value)))
  }

  function Followed(first: seq<TarEntry>, r: Result<seq<TarEntry>, TarError>): Result<seq<TarEntry>, TarError> {
    if r.Ok? then Ok(first + r.value) else r
  }

  /** Everything from an offset to the first zero block or the end. */
  function Entries(data: seq<Byte>, off: nat, lossy: seq<Byte> -> seq<Byte>): Result<seq<TarEntry>, TarError>
    decreases if off < |data| then |data| - off else 0
  {
    if off + BLOCK > |data| || AllZero(data[off..off + BLOCK]) then Ok([])
    else
      var e := EntryAt(data, off, lossy);
      if e.Err? then Err(e.error) else Followed(e.value.0, Entries(data, e.value.1, lossy))
  }

  lemma FollowedJoin(first: seq<TarEntry>, next: seq<TarEntry>, r: Result<seq<TarEntry>, TarError>)
    ensures Followed([], r) == r && Followed(first, Ok([])) == Ok(first)
    ensures Followed(first, Followed(next, r)) == Followed(first + next, r)
    ensures forall e :: Followed(first, Err(e)) == Err(e)
  {
    assert first + [] == first;
    assert r.Ok? ==> [] + r.value == r.value && first + (next + r.value) == first + next + r.value;
  }

  /** The reader's own sum, byte by byte. */
  method SumHeader(hdr: seq<Byte>) returns (sum: nat)
    requires |hdr| == BLOCK
    ensures sum == Checksum(hdr[..148], hdr[156..])
  {
    sum := 0;
    for i := 0 to BLOCK
      invariant i <= 148 ==> sum == ByteSum(hdr[..i])
      invariant 148 <= i <= 156 ==> sum == ByteSum(hdr[..148]) + 32 * (i - 148)
      invariant 156 <= i ==> sum == ByteSum(hdr[..148]) + 256 + ByteSum(hdr[156..i])
    {
      if 148 <= i < 156 {
        sum := sum + 32;
      } else {
        if i < 148 {
          assert hdr[..i + 1][..i] == hdr[..i];
        } else {
          assert hdr[156..i + 1][..i - 156] == hdr[156..i];
        }
        sum := sum + hdr[i];
      }
    }
    assert hdr[156..512] == hdr[156..];
  }

  method ReadEntry(data: seq<Byte>, at: nat, lossy: seq<Byte> -> seq<Byte>)
    returns (r: Result<(seq<TarEntry>, nat), TarError>)
    requires at + BLOCK <= |data|
    ensures r == EntryAt(data, at, lossy)
  {
    hide ParseOctal, Checksum, CstrField, Joined, EntryOf;
    var off := at;
    var hdr := data[off..off + BLOCK];
    var stored := ParseOctal(hdr[148..156], lossy);
    if stored.Err? { return Err(stored.error); }
    var sum := SumHeader(hdr);
    if sum != stored.value % 0x1_0000_0000 { return Err(BadChecksum); }
    var name, prefix := CstrField(hdr[0..100], lossy), CstrField(hdr[345..500], lossy);
    var path := Joined(name, prefix);
    var size := ParseOctal(hdr[124..136], lossy);
    if size.Err? { return Err(size.error); }
    var typeflag := hdr[156];
    off := off + BLOCK;
    var fileData: seq<Byte> := [];
    if size.value > 0 {
      if off + size.value > |data| { return Err(Truncated); }
      fileData := data[off..off + size.value];
      var pad := (BLOCK - size.value % BLOCK) % BLOCK;
      off := off + size.value + pad;
    }
    r := Ok((EntryOf(typeflag, path, fileData), off));
  }

  method ParseTar(data: seq<Byte>, lossy: seq<Byte> -> seq<Byte>) returns (r: Result<seq<TarEntry>, TarError>)
    ensures r == Entries(data, 0, lossy)
  {
    hide EntryAt, Followed;
    var entries: seq<TarEntry>, off: nat := [], 0;
    FollowedJoin([], [], Entries(data, 0, lossy));
    while off + BLOCK <= |data|
      invariant Followed(entries, Entries(data, off, lossy)) == Entries(data, 0, lossy)
      decreases if off < |data| then |data| - off else 0
    {
      if AllZero(data[off..off + BLOCK]) { break; }
      var e := ReadEntry(data, off, lossy);
      if e.Err? {
        FollowedJoin(entries, [], Err(e.error));
        return Err(e.error);
      }
      FollowedJoin(entries, e.value.0, Entries(data, e.value.1, lossy));
      entries, off := entries + e.value.0, e.value.1;
    }
    FollowedJoin(entries, [], Ok([]));
    r := Ok(entries);
  }

  // ----- what was written -----

  /** One archive member: a file with its bytes or a directory, and the time in its header. */
  datatype Item = FileItem(path: seq<Byte>, data: seq<Byte>, mtime: nat) | DirItem(path: seq<Byte>, mtime: nat)

  const FILE_MODE: nat := 420
  const DIR_MODE: nat := 493

  predicate Writable(item: Item) {
    SplitPath(item.path).Ok?
  }

  function ItemHeader(item: Item): seq<Byte>
    requires Writable(item)
  {
    var (name, prefix) := SplitPath(item.path).value;
    match item
    case FileItem(_, data, mtime) => Header(name, prefix, |data|, FILE, FILE_MODE, mtime)
    case DirItem(_, mtime) => Header(name, prefix, 0, DIR, DIR_MODE, mtime)
  }

  function ItemBytes(item: Item): seq<Byte>
    requires Writable(item)
  {
    ItemHeader(item) + if item.FileItem? then item.data + Zeros(PaddingFor(|item.data|)) else []
  }

  predicate AllWritable(items: seq<Item>) {
    forall i :: 0 <= i < |items| ==> Writable(items[i])
  }

  function ArchiveBytes(items: seq<Item>): seq<Byte>
    requires AllWritable(items)
  {
    if items == [] then [] else ItemBytes(items[0]) + ArchiveBytes(items[1..])
  }

  /** Text a NUL-padded field gives back: valid, without NUL or white space at an edge. */
  predicate CleanText(s: seq<Byte>) {
    ValidUtf8(s) && 0 !in s && SpaceLen(s) == 0 && SpaceEndLen(s) == 0
  }

  /** What the format can hold: clean name and prefix, size and time within eleven octal digits. */
  predicate Storable(item: Item) {
    && Writable(item)
    && CleanText(SplitPath(item.path).value.0) && CleanText(SplitPath(item.path).value.1)
    && item.mtime < Pow(8, 11)
    && (item.FileItem? ==> |item.data| < Pow(8, 11))
  }

  predicate AllStorable(items: seq<Item>) {
    AllWritable(items) && forall i :: 0 <= i < |items| ==> Storable(items[i])
  }

  /** How an item is listed when read: without leading slashes, a directory with its trailing slash. */
  function Listed(item: Item): TarEntry {
    match item
    case FileItem(path, data, _) => TarEntry(TrimSlashes(path), false, data)
    case DirItem(path, _) => TarEntry(EndsWithSlash(TrimSlashes(path)), true, [])
  }

  // ----- reading back one header -----

  lemma {:induction false} NulPadding(s: seq<Byte>, after: seq<Byte>)
    requires 0 !in s && (after == [] || after[0] == 0)
    ensures BeforeNul(s + after) == s
    decreases |s|
  {
    if s == [] {
      assert s + after == after;
    } else {
      assert (s + after)[1..] == s[1..] + after;
      NulPadding(s[1..], after);
    }
  }

  lemma TextReadBack(s: seq<Byte>, n: nat, lossy: seq<Byte> -> seq<Byte>)
    requires CleanText(s) && |s| <= n && Faithful(lossy)
    ensures CstrField(TextField(Zeros(n), s), lossy) == s
  {
    hide ValidUtf8;
    assert TextField(Zeros(n), s) == s + Zeros(n - |s|);
    NulPadding(s, Zeros(n - |s|));
  }

  lemma OctalFieldReadBack(v: nat, width: nat, after: seq<Byte>, lossy: seq<Byte> -> seq<Byte>)
    requires v <= MAX_U64 && width > 0 && after != [] && after[0] == 0 && Faithful(lossy)
    ensures ParseOctal(OctalText(v, width) + after, lossy) == Ok(v)
  {
    var text := OctalText(v, width);
    OctalReadBack(v, width);
    hide OctalText, ValidUtf8, OctalValue;
    NulPadding(text, after);
    AsciiIsUtf8(text);
    assert SpaceLen(text) == 0 && SpaceEndLen(text) == 0;
  }

  lemma SizeFits(size: nat)
    requires size < Pow(8, 11)
    ensures size <= MAX_U64
    ensures OctalField(Zeros(12), size, 11) == OctalText(size, 11) + [0]
  {
    OctalFits(size, 11);
    assert Pow(8, 3) == 512;
    PowAdd(8, 3, 3);
    PowAdd(8, 6, 3);
    PowAdd(8, 9, 2);
    assert Pow(8, 2) == 64;
    hide OctalText;
    assert OctalText(size, 11)[..11] == OctalText(size, 11);
  }

  /** The fields of a header, each in its place. */
  lemma HeaderFields(name: seq<Byte>, prefix: seq<Byte>, size: nat, typeflag: Byte, mode: nat, mtime: nat)
    ensures var h := Header(name, prefix, size, typeflag, mode, mtime);
            var front, back := FrontBytes(name, mode, size, mtime), BackBytes(typeflag, prefix);
            && |h| == BLOCK && h[..148] == front && h[156..] == back && h[156] == typeflag
            && h[148..156] == OctalText(Checksum(front, back), 6) + [0, SPACE]
            && h[0..100] == TextField(Zeros(100), name)
            && h[124..136] == OctalField(Zeros(12), size, 11)
            && h[345..500] == TextField(Zeros(155), prefix)
  {
    var front, back := FrontBytes(name, mode, size, mtime), BackBytes(typeflag, prefix);
    ChecksumFits(front, back);
    FrontFields(name, mode, size, mtime);
    BackFields(typeflag, prefix);
    HeaderIs(name, prefix, size, typeflag, mode, mtime);
    hide *;
    ThreeParts(front, OctalText(Checksum(front, back), 6) + [0, SPACE], back);
  }

  lemma HeaderIs(name: seq<Byte>, prefix: seq<Byte>, size: nat, typeflag: Byte, mode: nat, mtime: nat)
    ensures var front, back := FrontBytes(name, mode, size, mtime), BackBytes(typeflag, prefix);
            Header(name, prefix, size, typeflag, mode, mtime)
            == front + (OctalText(Checksum(front, back), 6) + [0, SPACE]) + back
  {
    hide FrontBytes, BackBytes, OctalText, Checksum;
  }

  lemma ThreeParts(front: seq<Byte>, sum: seq<Byte>, back: seq<Byte>)
    requires |front| == 148 && |sum| == 8 && |back| == 356
    ensures var h := front + sum + back;
            && |h| == BLOCK && h[..148] == front && h[148..156] == sum && h[156..] == back && h[156] == back[0]
            && h[0..100] == front[0..100] && h[124..136] == front[124..136] && h[345..500] == back[189..344]
  {
  }

  lemma FrontFields(name: seq<Byte>, mode: nat, size: nat, mtime: nat)
    ensures var f := FrontBytes(name, mode, size, mtime);
            f[0..100] == TextField(Zeros(100), name) && f[124..136] == OctalField(Zeros(12), size, 11)
  {
    hide OctalField, TextField;
  }

  lemma BackFields(typeflag: Byte, prefix: seq<Byte>)
    ensures var b := BackBytes(typeflag, prefix); b[0] == typeflag && b[189..344] == TextField(Zeros(155), prefix)
  {
    hide TextField;
  }

  /** A written header passes the checksum and gives back its path, type and size. */
  lemma HeaderReadBack(name: seq<Byte>, prefix: seq<Byte>, size: nat, typeflag: Byte, mode: nat, mtime: nat,
                       lossy: seq<Byte> -> seq<Byte>)
    requires CleanText(name) && CleanText(prefix) && |name| <= NAME_MAX && |prefix| <= PREFIX_MAX
    requires size < Pow(8, 11) && Faithful(lossy)
    ensures var h := Header(name, prefix, size, typeflag, mode, mtime);
            && |h| == BLOCK && !AllZero(h)
            && ParseOctal(h[148..156], lossy) == Ok(Checksum(h[..148], h[156..]))
            && Checksum(h[..148], h[156..]) < 0x1_0000_0000
            && ParseOctal(h[124..136], lossy) == Ok(size)
            && h[156] == typeflag && StoredPath(h, lossy) == Joined(name, prefix)
  {
    HeaderFields(name, prefix, size, typeflag, mode, mtime);
    var front, back := FrontBytes(name, mode, size, mtime), BackBytes(typeflag, prefix);
    ChecksumFits(front, back);
    SizeFits(size);
    hide Header, FrontBytes, BackBytes, OctalText, OctalField, TextField, Checksum, ParseOctal, CstrField, CleanText,
         Pow;
    var h := Header(name, prefix, size, typeflag, mode, mtime);
    OctalFieldReadBack(Checksum(front, back), 6, [0, SPACE], lossy);
    OctalFieldReadBack(size, 11, [0], lossy);
    TextReadBack(name, 100, lossy);
    TextReadBack(prefix, 155, lossy);
    assert h[148] == h[148..156][0] == OctalText(Checksum(front, back), 6)[0];
    assert h[148] != 0;
  }

  // ----- reading back an archive -----

  function BodySize(item: Item): nat {
    if item.FileItem? then |item.data| else 0
  }

  lemma ItemHeaderRead(item: Item, lossy: seq<Byte> -> seq<Byte>)
    requires Storable(item) && Faithful(lossy)
    ensures var h := ItemHeader(item);
            && |h| == BLOCK && !AllZero(h)
            && ParseOctal(h[148..156], lossy) == Ok(Checksum(h[..148], h[156..]))
            && Checksum(h[..148], h[156..]) < 0x1_0000_0000
            && ParseOctal(h[124..136], lossy) == Ok(BodySize(item))
            && h[156] == (if item.FileItem? then FILE else DIR) && StoredPath(h, lossy) == TrimSlashes(item.path)
  {
    var (name, prefix) := SplitPath(item.path).value;
    SplitExact(item.path);
    hide Header, SplitPath, Checksum, ParseOctal, StoredPath, CleanText, AllZero, Pow, TrimSlashes, Joined;
    HeaderReadBack(name, prefix, BodySize(item), if item.FileItem? then FILE else DIR,
                   if item.FileItem? then FILE_MODE else DIR_MODE, item.mtime, lossy);
  }

  lemma ItemRead(data: seq<Byte>, off: nat, item: Item, lossy: seq<Byte> -> seq<Byte>)
    requires Storable(item) && Holds(data, off, ItemBytes(item)) && Faithful(lossy)
    ensures off + BLOCK <= |data| && !AllZero(data[off..off + BLOCK])
    ensures EntryAt(data, off, lossy) == Ok(([Listed(item)], off + |ItemBytes(item)|))
  {
    hide *;
    StorableIsWritable(item);
    ItemHeaderRead(item, lossy);
    ListedAs(item);
    ItemParts(item);
    HeaderAndBody(data, off, ItemHeader(item), BodyBytes(item), lossy);
  }

  lemma HeaderAndBody(data: seq<Byte>, off: nat, h: seq<Byte>, body: seq<Byte>, lossy: seq<Byte> -> seq<Byte>)
    requires Holds(data, off, h + (body + Zeros(PaddingFor(|body|)))) && |h| == BLOCK
    requires ParseOctal(h[148..156], lossy) == Ok(Checksum(h[..148], h[156..]))
    requires Checksum(h[..148], h[156..]) < 0x1_0000_0000
    requires ParseOctal(h[124..136], lossy) == Ok(|body|)
    ensures off + BLOCK <= |data| && data[off..off + BLOCK] == h
    ensures EntryAt(data, off, lossy)
         == Ok((EntryOf(h[156], StoredPath(h, lossy), body), off + |h + (body + Zeros(PaddingFor(|body|)))|))
  {
    hide *;
    HoldsParts(data, off, h, body + Zeros(PaddingFor(|body|)));
    HoldsParts(data, off + |h|, body, Zeros(PaddingFor(|body|)));
    HeldBytes(data, off, h);
    HeldBytes(data, off + |h|, body);
    EntryFrom(data, off, h, |body|, lossy);
  }

  function BodyBytes(item: Item): (s: seq<Byte>)
    ensures |s| == BodySize(item)
  {
    if item.FileItem? then item.data else []
  }

  lemma ItemParts(item: Item)
    requires Writable(item)
    ensures ItemBytes(item) == ItemHeader(item) + (BodyBytes(item) + Zeros(PaddingFor(BodySize(item))))
  {
    hide ItemHeader;
    assert [] + Zeros(0) == [];
  }

  lemma StorableIsWritable(item: Item)
    requires Storable(item)
    ensures Writable(item)
  {
  }

  lemma ListedAs(item: Item)
    ensures EntryOf(if item.FileItem? then FILE else DIR, TrimSlashes(item.path), BodyBytes(item)) == [Listed(item)]
  {
    hide TrimSlashes, EndsWithSlash;
  }

  lemma EntryFrom(data: seq<Byte>, off: nat, h: seq<Byte>, size: nat, lossy: seq<Byte> -> seq<Byte>)
    requires off + BLOCK + size <= |data| && data[off..off + BLOCK] == h
    requires ParseOctal(h[148..156], lossy) == Ok(Checksum(h[..148], h[156..]))
    requires Checksum(h[..148], h[156..]) < 0x1_0000_0000
    requires ParseOctal(h[124..136], lossy) == Ok(size)
    ensures EntryAt(data, off, lossy)
         == Ok((EntryOf(h[156], StoredPath(h, lossy), data[off + BLOCK..off + BLOCK + size]),
                off + BLOCK + size + PaddingFor(size)))
  {
    hide ParseOctal, Checksum, StoredPath, EntryOf;
    assert data[off + BLOCK..off + BLOCK] == [];
  }

  function Listing(items: seq<Item>): (r: seq<TarEntry>)
    ensures |r| == |items|
  {
    seq(|items|, i requires 0 <= i < |items| => Listed(items[i]))
  }

  lemma {:induction false} ItemsRead(data: seq<Byte>, off: nat, items: seq<Item>, lossy: seq<Byte> -> seq<Byte>)
    requires AllStorable(items)
    requires Holds(data, off, ArchiveBytes(items)) && Faithful(lossy)
    ensures Entries(data, off, lossy) == Followed(Listing(items), Entries(data, off + |ArchiveBytes(items)|, lossy))
    decreases |items|
  {
    hide EntryAt, ItemBytes, Storable, Holds, AllZero, Followed, Listed, Faithful;
    if items == [] {
      FollowedJoin([], [], Entries(data, off, lossy));
    } else {
      var item, more := items[0], items[1..];
      HoldsParts(data, off, ItemBytes(item), ArchiveBytes(more));
      ItemRead(data, off, item, lossy);
      ItemsRead(data, off + |ItemBytes(item)|, more, lossy);
      FollowedJoin([Listed(item)], Listing(more), Entries(data, off + |ArchiveBytes(items)|, lossy));
      assert Listing(items) == [Listed(item)] + Listing(more);
    }
  }

  /** An archive of storable items reads back as those items, in order, whatever follows its end marker. */
  lemma ArchiveRoundTrip(items: seq<Item>, after: seq<Byte>, lossy: seq<Byte> -> seq<Byte>)
    requires AllStorable(items)
    requires Faithful(lossy)
    ensures Entries(ArchiveBytes(items) + Zeros(2 * BLOCK) + after, 0, lossy) == Ok(Listing(items))
  {
    hide EntryAt, Followed, Storable, Faithful, ArchiveBytes, Holds;
    var bytes := ArchiveBytes(items);
    var data := bytes + Zeros(2 * BLOCK) + after;
    assert [] + bytes + (Zeros(2 * BLOCK) + after) == data;
    Standing([], bytes, Zeros(2 * BLOCK) + after);
    ItemsRead(data, 0, items, lossy);
    assert AllZero(data[|bytes|..|bytes| + BLOCK]);
    assert Entries(data, |bytes|, lossy) == Ok([]);
    FollowedJoin(Listing(items), [], Ok([]));
  }

  // ----- the format, byte by byte -----

  lemma TextPadded(n: nat, s: seq<Byte>)
    requires |s| <= n
    ensures TextField(Zeros(n), s) == s + ZeroBytes(n - |s|)
  {
  }

  lemma OctalPadded(v: nat, digits: nat)
    requires v < Pow(8, digits)
    ensures OctalField(Zeros(digits + 1), v, digits) == OctalText(v, digits) + [0]
  {
    OctalFits(v, digits);
    hide OctalText, Pow;
    assert OctalText(v, digits)[..digits] == OctalText(v, digits);
  }

  lemma FrontLayout(name: seq<Byte>, mode: nat, size: nat, mtime: nat)
    requires |name| <= 100 && mode < Pow(8, 7) && size < Pow(8, 11) && mtime < Pow(8, 11)
    ensures FrontBytes(name, mode, size, mtime)
         == (name + ZeroBytes(100 - |name|)) + (OctalText(mode, 7) + [0]) + (OctalText(0, 7) + [0])
            + (OctalText(0, 7) + [0]) + (OctalText(size, 11) + [0]) + (OctalText(mtime, 11) + [0])
    ensures |OctalText(mode, 7)| == |OctalText(0, 7)| == 7 && |OctalText(size, 11)| == |OctalText(mtime, 11)| == 11
  {
    hide OctalField, TextField, OctalText, Pow;
    TextPadded(100, name);
    OctalPadded(mode, 7);
    OctalPadded(0, 7);
    OctalPadded(size, 11);
    OctalPadded(mtime, 11);
    OctalFits(mode, 7);
    OctalFits(0, 7);
    OctalFits(size, 11);
    OctalFits(mtime, 11);
  }

  /** The ustar header of POSIX 1003.1, field by field at its offset; the checksum counts its own eight bytes as 32. */
  lemma HeaderLayout(name: seq<Byte>, prefix: seq<Byte>, size: nat, typeflag: Byte, mode: nat, mtime: nat)
    requires |name| <= 100 && |prefix| <= 155 && mode < Pow(8, 7) && size < Pow(8, 11) && mtime < Pow(8, 11)
    ensures var h := Header(name, prefix, size, typeflag, mode, mtime);
            && |h| == 512
            && h[0..100] == name + ZeroBytes(100 - |name|) && h[100..108] == OctalText(mode, 7) + [0]
            && h[108..116] == OctalText(0, 7) + [0] && h[116..124] == OctalText(0, 7) + [0]
            && h[124..136] == OctalText(size, 11) + [0] && h[136..148] == OctalText(mtime, 11) + [0]
            && h[148..156] == OctalText(ByteSum(h[..148]) + 8 * 32 + ByteSum(h[156..]), 6) + [0, 32]
            && h[156] == typeflag && h[157..257] == ZeroBytes(100)
            && h[257..265] == [117, 115, 116, 97, 114, 0, 48, 48] && h[265..345] == ZeroBytes(80)
            && h[345..500] == prefix + ZeroBytes(155 - |prefix|) && h[500..512] == ZeroBytes(12)
  {
    hide Header, FrontBytes, BackBytes, OctalText, OctalField, TextField, Checksum, Pow, ByteSum;
    var h := Header(name, prefix, size, typeflag, mode, mtime);
    HeaderFields(name, prefix, size, typeflag, mode, mtime);
    FrontLayout(name, mode, size, mtime);
    TextPadded(155, prefix);
    FrontSlices(h[..148], name + ZeroBytes(100 - |name|), OctalText(mode, 7) + [0], OctalText(0, 7) + [0],
                OctalText(size, 11) + [0], OctalText(mtime, 11) + [0]);
    BackSlices(typeflag, prefix);
    SumIs(h[..148], h[156..]);
    FromFront(h);
    FromBack(h);
  }

  lemma SumIs(front: seq<Byte>, back: seq<Byte>)
    ensures Checksum(front, back) == ByteSum(front) + 8 * 32 + ByteSum(back)
  {
    hide ByteSum;
  }

  lemma FrontSlices(front: seq<Byte>, name: seq<Byte>, mode: seq<Byte>, zero: seq<Byte>, size: seq<Byte>,
        mtime: seq<Byte>)
    requires front == name + mode + zero + zero + size + mtime
    requires |name| == 100 && |mode| == 8 && |zero| == 8 && |size| == 12 && |mtime| == 12
    ensures front[100..108] == mode && front[108..116] == zero && front[116..124] == zero && front[136..148] == mtime
  {
  }

  lemma BackSlices(typeflag: Byte, prefix: seq<Byte>)
    ensures var b := BackBytes(typeflag, prefix);
            && b[1..101] == ZeroBytes(100) && b[101..109] == [117, 115, 116, 97, 114, 0, 48, 48]
            && b[109..189] == ZeroBytes(80) && b[344..356] == ZeroBytes(12)
  {
    hide TextField;
  }

  lemma FromFront(h: seq<Byte>)
    requires |h| == 512
    ensures h[100..108] == h[..148][100..108] && h[108..116] == h[..148][108..116]
         && h[116..124] == h[..148][116..124] && h[136..148] == h[..148][136..148]
  {
  }

  lemma FromBack(h: seq<Byte>)
    requires |h| == 512
    ensures h[157..257] == h[156..][1..101] && h[257..265] == h[156..][101..109] && h[265..345] == h[156..][109..189]
         && h[500..512] == h[156..][344..356]
  {
  }

  /** Files are type '0' with mode 644, directories type '5' with mode 755 and no size; a file's bytes are padded with
      zeros to whole blocks of 512. */
  lemma ItemForm(item: Item)
    requires Writable(item)
    ensures var (name, prefix) := SplitPath(item.path).value;
            ItemHeader(item)
            == (if item.FileItem? then Header(name, prefix, |item.data|, 48, 6 * 64 + 4 * 8 + 4, item.mtime)
                else Header(name, prefix, 0, 53, 7 * 64 + 5 * 8 + 5, item.mtime))
    ensures |ItemBytes(item)| % 512 == 0
    ensures item.FileItem?
      ==> exists k: nat :: k < 512 && ItemBytes(item) == ItemHeader(item) + (item.data + ZeroBytes(k))
    ensures item.DirItem? ==> ItemBytes(item) == ItemHeader(item)
  {
    hide Header, SplitPath;
    var (name, prefix) := SplitPath(item.path).value;
    if item.FileItem? {
      HeaderSize(name, prefix, |item.data|, 48, 420, item.mtime);
      var k := PaddingFor(|item.data|);
      assert Zeros(k) == ZeroBytes(k);
      assert (|item.data| + k) % 512 == 0;
    } else {
      HeaderSize(name, prefix, 0, 53, 493, item.mtime);
    }
  }

  lemma HeaderSize(name: seq<Byte>, prefix: seq<Byte>, size: nat, typeflag: Byte, mode: nat, mtime: nat)
    ensures |Header(name, prefix, size, typeflag, mode, mtime)| == 512
  {
    hide Header, FrontBytes, BackBytes, OctalText, OctalField, TextField, Checksum;
    HeaderFields(name, prefix, size, typeflag, mode, mtime);
  }

  // ----- what is refused, and what is skipped -----

  lemma {:induction false} OneByteSum(s: seq<Byte>, i: nat, b: Byte)
    requires i < |s|
    ensures ByteSum(s[i := b]) == ByteSum(s) - s[i] + b
    decreases |s|
  {
    var n := |s| - 1;
    if i == n {
      assert s[i := b][..n] == s[..n];
    } else {
      assert s[i := b][..n] == s[..n][i := b];
      OneByteSum(s[..n], i, b);
    }
  }

  lemma DamagedSum(h: seq<Byte>, i: nat, b: Byte)
    requires |h| == 512 && i < 512 && !(148 <= i < 156) && b != h[i]
    ensures var d := h[i := b];
      Checksum(d[..148], d[156..]) != Checksum(h[..148], h[156..]) && d[148..156] == h[148..156]
  {
    hide ByteSum;
    var d := h[i := b];
    if i < 148 {
      OneByteSum(h[..148], i, b);
      assert d[..148] == h[..148][i := b] && d[156..] == h[156..];
    } else {
      OneByteSum(h[156..], i - 156, b);
      assert d[156..] == h[156..][i - 156 := b] && d[..148] == h[..148];
    }
  }

  /** A written header with any one byte outside its checksum field changed is refused. */
  lemma DamagedHeaderRefused(data: seq<Byte>, off: nat, item: Item, i: nat, b: Byte, lossy: seq<Byte> -> seq<Byte>)
    requires Storable(item) && Faithful(lossy) && i < 512 && !(148 <= i < 156)
    requires |ItemHeader(item)| == 512 && b != ItemHeader(item)[i]
    requires off + 512 <= |data| && data[off..off + 512] == ItemHeader(item)[i := b]
    ensures EntryAt(data, off, lossy) == Err(BadChecksum)
    ensures Entries(data, off, lossy) == Err(BadChecksum)
  {
    hide Checksum, ParseOctal, StoredPath, Storable, Faithful, ItemHeader, EntryOf, EntryAt, Entries;
    StorableIsWritable(item);
    var h := ItemHeader(item);
    ItemHeaderRead(item, lossy);
    DamagedSum(h, i, b);
    ChecksumShows(item);
    WrongSumRefused(data, off, h[i := b], lossy);
  }

  /** A block whose checksum field holds another number than its sum. */
  lemma WrongSumRefused(data: seq<Byte>, off: nat, h: seq<Byte>, lossy: seq<Byte> -> seq<Byte>)
    requires |h| == 512 && off + 512 <= |data| && data[off..off + 512] == h && h[148] != 0
    requires ParseOctal(h[148..156], lossy).Ok? && ParseOctal(h[148..156], lossy).value < 0x1_0000_0000
    requires ParseOctal(h[148..156], lossy).value != Checksum(h[..148], h[156..])
    ensures EntryAt(data, off, lossy) == Err(BadChecksum) && Entries(data, off, lossy) == Err(BadChecksum)
  {
    hide Checksum, ParseOctal, StoredPath, EntryOf;
    assert data[off..off + 512][148] == h[148];
  }

  /** The checksum field of a written header holds digits. */
  lemma ChecksumShows(item: Item)
    requires Writable(item)
    ensures |ItemHeader(item)| == 512 && ItemHeader(item)[148] != 0
  {
    hide Header, FrontBytes, BackBytes, OctalText, OctalField, TextField, Checksum, SplitPath;
    var (name, prefix) := SplitPath(item.path).value;
    var size, flag: Byte, mode := BodySize(item), if item.FileItem? then FILE else DIR,
                                  if item.FileItem? then FILE_MODE else DIR_MODE;
    HeaderFields(name, prefix, size, flag, mode, item.mtime);
    var h := Header(name, prefix, size, flag, mode, item.mtime);
    var sum := Checksum(FrontBytes(name, mode, size, item.mtime), BackBytes(flag, prefix));
    assert h[148] == h[148..156][0] == OctalText(sum, 6)[0];
  }

  /** A zero block, or fewer bytes than a header has, ends the archive without an error. */
  lemma ArchiveEnds(data: seq<Byte>, off: nat, lossy: seq<Byte> -> seq<Byte>)
    requires |data| < off + 512 || data[off..off + 512] == ZeroBytes(512)
    ensures Entries(data, off, lossy) == Ok([])
  {
    if off + 512 <= |data| { AllZeros(512); }
  }

  lemma AllZeros(n: nat)
    ensures AllZero(ZeroBytes(n))
  {
  }

  /** A file cut off inside its bytes is refused. */
  lemma CutFileRefused(data: seq<Byte>, off: nat, item: Item, lossy: seq<Byte> -> seq<Byte>)
    requires Storable(item) && Faithful(lossy) && item.FileItem? && off + 512 <= |data| < off + 512 + |item.data|
    requires data[off..off + 512] == ItemHeader(item)
    ensures Entries(data, off, lossy) == Err(Truncated)
  {
    hide Checksum, ParseOctal, StoredPath, Storable, Faithful, ItemHeader, EntryOf;
    ItemHeaderRead(item, lossy);
  }

  /** By type: '0' and NUL are files, '5' is a directory, and any other member is passed over with its bytes. */
  lemma TypesRead(data: seq<Byte>, off: nat, name: seq<Byte>, prefix: seq<Byte>, typeflag: Byte, mode: nat, mtime: nat,
                  body: seq<Byte>, lossy: seq<Byte> -> seq<Byte>)
    requires CleanText(name) && CleanText(prefix) && |name| <= 100 && |prefix| <= 155
    requires |body| < Pow(8, 11) && Faithful(lossy)
    requires Holds(data, off, Header(name, prefix, |body|, typeflag, mode, mtime) + (body + Zeros(PaddingFor(|body|))))
    ensures var next := off + 512 + |body| + PaddingFor(|body|);
            var path := if prefix == [] then name else if name == [] then prefix else prefix + [47] + name;
            var here := if typeflag == 48 || typeflag == 0 then [TarEntry(path, false, body)]
                        else if typeflag == 53
                          then [TarEntry(if path != [] && path[|path| - 1] == 47 then path else path + [47], true, [])]
                        else [];
            Entries(data, off, lossy) == Followed(here, Entries(data, next, lossy))
  {
    hide Header, Checksum, ParseOctal, StoredPath, CleanText, Pow, AllZero, Holds, Zeros, PaddingFor, EntryAt, Followed;
    HeaderReadBack(name, prefix, |body|, typeflag, mode, mtime, lossy);
    HeaderAndBody(data, off, Header(name, prefix, |body|, typeflag, mode, mtime), body, lossy);
  }
}

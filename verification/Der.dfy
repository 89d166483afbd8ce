/** DER tags and lengths: the encoders and the reader of src/crypto.rs and src/dkim.rs. */
module Der {
  import opened Results
  import opened Octets
  import opened Limbs
  import opened BigNum
  import opened BigBytes

  datatype DerError =
    | UnexpectedEnd | MissingLength | BadLength | Truncated | WrongTag
    | ModulusTooSmall | EmptyBitString | DivisionByZero

  /** Definite length, at most three length bytes; longer lengths lose their high bits. */
  function LengthBytes(len: nat): (s: seq<Byte>)
    ensures 1 <= |s| <= 4
  {
    if len < 0x80 then [len]
    else if len <= 0xff then [0x81, len]
    else if len <= 0xffff then [0x82, len / 0x100, len % 0x100]
    else [0x83, (len / 0x1_0000) % 0x100, (len / 0x100) % 0x100, len % 0x100]
  }

  function Tlv(tag: Byte, value: seq<Byte>): (s: seq<Byte>)
    ensures |s| >= 2
  {
    [tag] + LengthBytes(|value|) + value
  }

  /** Big-endian bytes of v without a leading zero; [0] for zero. */
  function MinBytes(v: nat): (s: seq<Byte>)
    ensures s != [] && Os2ip(s) == v
    ensures v > 0 ==> s[0] != 0
    ensures v == 0 ==> s == [0]
  {
    if v < 256 then
      Os2ipSnoc([], v);
      assert [] + [v] == [v];
      [v]
    else
      Os2ipSnoc(MinBytes(v / 256), v % 256);
      MinBytes(v / 256) + [v % 256]
  }

  /** INTEGER content: a zero byte goes in front when the top bit is set. */
  function IntegerBytes(v: nat): (s: seq<Byte>)
    ensures s != [] && Os2ip(s) == v
  {
    var b := MinBytes(v);
    if b[0] >= 0x80 then
      Os2ipPad(1, b);
      assert ZeroBytes(1) + b == [0] + b;
      [0] + b
    else b
  }

  function IntegerTlv(v: nat): seq<Byte> {
    Tlv(0x02, IntegerBytes(v))
  }

  // ----- the rules of X.690 the encoders follow -----

  /** A length below 128 is one byte; a longer one is its big-endian bytes without leading zero, behind their number. */
  lemma LengthForm(len: nat)
    requires len < 0x100_0000
    ensures var s := LengthBytes(len);
            if len < 128 then s == [len]
            else |s| >= 2 && s[0] == 128 + |s| - 1 && s[1] != 0 && Os2ip(s[1..]) == len
  {
    if len >= 128 { LengthBytesValue(len); }
  }

  /** An INTEGER is tag 2 and the shortest big-endian bytes whose first bit is clear. */
  lemma IntegerForm(v: nat) returns (content: seq<Byte>)
    ensures IntegerTlv(v) == [2] + LengthBytes(|content|) + content
    ensures content != [] && Os2ip(content) == v && content[0] < 128
    ensures |content| > 1 && content[0] == 0 ==> content[1] >= 128
  {
    content := IntegerBytes(v);
  }

  /** Seven bits a byte, the top bit set on all but the last. */
  function Base128(v: nat): seq<Byte> {
    if v < 128 then [v] else Base128Front(v / 128) + [v % 128]
  }

  function Base128Front(v: nat): seq<Byte> {
    if v < 128 then [128 + v] else Base128Front(v / 128) + [128 + v % 128]
  }

  function ArcBytes(arcs: seq<nat>): seq<Byte> {
    if arcs == [] then [] else Base128(arcs[0]) + ArcBytes(arcs[1..])
  }

  /** An OBJECT IDENTIFIER; its first two arcs share a byte. */
  function ObjectId(arcs: seq<nat>): seq<Byte>
    requires |arcs| >= 2 && arcs[0] <= 2 && arcs[1] < 40
  {
    Tlv(6, Base128(40 * arcs[0] + arcs[1]) + ArcBytes(arcs[2..]))
  }

  lemma ArcsCons(a: nat, rest: seq<nat>)
    ensures ArcBytes([a] + rest) == Base128(a) + ArcBytes(rest)
  {
    assert ([a] + rest)[1..] == rest;
  }

  method EncodeDerInteger(n: BigUint) returns (out: seq<Byte>)
    ensures out == IntegerTlv(Val(n))
  {
    var bytes := ToBeBytes(n);
    MinimalBytesUnique(bytes, MinBytes(Val(n)));
    if bytes[0] >= 0x80 { bytes := [0x00] + bytes; }
    out := Tlv(0x02, bytes);
  }

  // ----- reading -----

  datatype Header = Header(tag: Byte, len: nat)

  /** Outcome of a read and the reader's position after it, also after a failed one. */
  datatype Step<+T> = Step(result: Result<T, DerError>, pos: nat)

  function HeaderAt(data: seq<Byte>, pos: nat): (s: Step<Header>)
    ensures s.pos >= pos
    ensures s.result.Ok? ==> pos < s.pos && s.pos + s.result.value.len <= |data|
  {
    if pos >= |data| then Step(Err(UnexpectedEnd), pos)
    else if pos + 1 >= |data| then Step(Err(MissingLength), pos + 1)
    else
      var tag, first := data[pos], data[pos + 1];
      if first < 0x80 then Sized(data, tag, first, pos + 2)
      else
        var n := first - 0x80;
        if n == 0 || n > 4 || |data| - (pos + 2) < n then Step(Err(BadLength), pos + 2)
        else Sized(data, tag, Os2ip(data[pos + 2..pos + 2 + n]), pos + 2 + n)
  }

  function Sized(data: seq<Byte>, tag: Byte, len: nat, pos: nat): Step<Header>
    requires pos <= |data|
  {
    if |data| - pos < len then Step(Err(Truncated), pos) else Step(Ok(Header(tag, len)), pos)
  }

  function ValueAt(data: seq<Byte>, pos: nat, want: Byte): (s: Step<seq<Byte>>)
    ensures s.pos >= pos
    ensures s.result.Ok? ==> pos < s.pos <= |data|
  {
    var h := HeaderAt(data, pos);
    if h.result.Err? then Step(Err(h.result.error), h.pos)
    else if h.result.value.tag != want then Step(Err(WrongTag), h.pos)
    else Step(Ok(data[h.pos..h.pos + h.result.value.len]), h.pos + h.result.value.len)
  }

  function IntegerAt(data: seq<Byte>, pos: nat): (s: Step<nat>)
    ensures s.result.Ok? ==> pos < s.pos <= |data|
  {
    var v := ValueAt(data, pos, 0x02);
    if v.result.Err? then Step(Err(v.result.error), v.pos) else Step(Ok(Os2ip(v.result.value)), v.pos)
  }

  /** The reader of src/crypto.rs: a position that moves over fixed data. */
  class DerReader {
    const data: seq<Byte>
    var pos: nat

    constructor (data: seq<Byte>)
      ensures this.data == data && pos == 0
    {
      this.data := data;
      this.pos := 0;
    }

    function Remaining(): nat
      reads this
    {
      if pos <= |data| then |data| - pos else 0
    }

    method ReadTagLen() returns (r: Result<Header, DerError>)
      modifies this
      ensures Step(r, pos) == HeaderAt(data, old(pos))
    {
      if pos >= |data| { return Err(UnexpectedEnd); }
      var tag := data[pos];
      pos := pos + 1;
      if pos >= |data| { return Err(MissingLength); }
      var first := data[pos];
      pos := pos + 1;
      var len: nat := first;
      if first >= 0x80 {
        var n := first - 0x80;
        if n == 0 || n > 4 || Remaining() < n { return Err(BadLength); }
        len := 0;
        ghost var start := pos;
        for i := 0 to n
          invariant pos == start + i && start + n <= |data|
          invariant len == Os2ip(data[start..pos])
        {
          assert data[start..pos + 1] == data[start..pos] + [data[pos]];
          Os2ipSnoc(data[start..pos], data[pos]);
          len := len * 256 + data[pos];
          pos := pos + 1;
        }
      }
      if Remaining() < len { return Err(Truncated); }
      r := Ok(Header(tag, len));
    }

    method ExpectTag(want: Byte) returns (r: Result<seq<Byte>, DerError>)
      modifies this
      ensures Step(r, pos) == ValueAt(data, old(pos), want)
    {
      var h := ReadTagLen();
      if h.Err? { return Err(h.error); }
      if h.value.tag != want { return Err(WrongTag); }
      var start := pos;
      pos := pos + h.value.len;
      r := Ok(data[start..pos]);
    }

    method ReadInteger() returns (r: Result<BigUint, DerError>)
      modifies this
      ensures pos == IntegerAt(data, old(pos)).pos
      ensures r.Err? ==> IntegerAt(data, old(pos)).result == Err(r.error)
      ensures r.Ok? ==> IntegerAt(data, old(pos)).result == Ok(Val(r.value))
    {
      var v := ExpectTag(0x02);
      if v.Err? { return Err(v.error); }
      var bytes := v.value;
      var i := 0;
      assert bytes[0..] == bytes;
      while i + 1 < |bytes| && bytes[i] == 0
        invariant 0 <= i <= |bytes| && pos == ValueAt(data, old(pos), 0x02).pos
        invariant Os2ip(bytes[i..]) == Os2ip(bytes)
      {
        Os2ipPad(1, bytes[i + 1..]);
        assert ZeroBytes(1) + bytes[i + 1..] == bytes[i..];
        i := i + 1;
      }
      var n := FromBeBytes(bytes[i..]);
      r := Ok(n);
    }

    method SkipValue() returns (r: Result<(), DerError>)
      modifies this
      ensures var h := HeaderAt(data, old(pos));
              if h.result.Ok? then r == Ok(()) && pos == h.pos + h.result.value.len
              else r == Err(h.result.error) && pos == h.pos
    {
      var h := ReadTagLen();
      if h.Err? { return Err(h.error); }
      pos := pos + h.value.len;
      r := Ok(());
    }
  }

  // ----- reading back what was written -----

  lemma LengthBytesValue(len: nat)
    requires 0x80 <= len < 0x100_0000
    ensures var b := LengthBytes(len); b[0] == 0x80 + |b| - 1 && |b| >= 2 && Os2ip(b[1..]) == len
  {
    var b := LengthBytes(len);
    FourBytes(b[1], if |b| > 2 then b[2] else 0, if |b| > 3 then b[3] else 0, 0);
    if |b| == 2 {
      assert b[1..] == [b[1]];
    } else if |b| == 3 {
      assert b[1..] == [b[1], b[2]];
    } else {
      assert b[1..] == [b[1], b[2], b[3]];
    }
  }

  /** A written element is read back: its value, and the position just after it. */
  lemma ReadTlv(data: seq<Byte>, pos: nat, tag: Byte, v: seq<Byte>)
    requires |v| < 0x100_0000 && Holds(data, pos, Tlv(tag, v))
    ensures HeaderAt(data, pos) == Step(Ok(Header(tag, |v|)), pos + |Tlv(tag, v)| - |v|)
    ensures ValueAt(data, pos, tag) == Step(Ok(v), pos + |Tlv(tag, v)|)
    ensures data[pos] == tag
  {
    hide Os2ip;
    var b := LengthBytes(|v|);
    HoldsParts(data, pos, [tag] + b, v);
    HoldsParts(data, pos, [tag], b);
    assert data[pos..pos + 1][0] == data[pos];
    assert data[pos + 1..pos + 1 + |b|][0] == data[pos + 1];
    if |v| >= 0x80 {
      LengthBytesValue(|v|);
      assert data[pos + 2..pos + 1 + |b|] == data[pos + 1..pos + 1 + |b|][1..];
    }
  }

  lemma ReadIntegerTlv(data: seq<Byte>, pos: nat, v: nat)
    requires |IntegerBytes(v)| < 0x100_0000 && Holds(data, pos, IntegerTlv(v))
    ensures IntegerAt(data, pos) == Step(Ok(v), pos + |IntegerTlv(v)|)
    ensures data[pos] == 0x02
  {
    ReadTlv(data, pos, 0x02, IntegerBytes(v));
  }
}

/** Well-formed UTF-8, as Rust's String::from_utf8 checks it. */
module Utf8 {
  import opened Octets

  predicate Continuation(b: Byte) {
    0x80 <= b < 0xC0
  }

  /** Length of the well-formed character at the front; 0 if there is none. */
  function CharLen(s: seq<Byte>): (n: nat)
    ensures n <= 4 && n <= |s|
  {
    if s == [] then 0
    else if s[0] < 0x80 then 1
    else if 0xC2 <= s[0] < 0xE0 then if |s| >= 2 && Continuation(s[1]) then 2 else 0
    else if 0xE0 <= s[0] < 0xF0 then
      if |s| >= 3 && Continuation(s[1]) && Continuation(s[2])
         && (s[0] == 0xE0 ==> s[1] >= 0xA0) && (s[0] == 0xED ==> s[1] < 0xA0) then 3 else 0
    else if 0xF0 <= s[0] < 0xF5 then
      if |s| >= 4 && Continuation(s[1]) && Continuation(s[2]) && Continuation(s[3])
         && (s[0] == 0xF0 ==> s[1] >= 0x90) && (s[0] == 0xF4 ==> s[1] < 0x90) then 4 else 0
    else 0
  }

  predicate ValidUtf8(s: seq<Byte>) {
    s == [] || (CharLen(s) > 0 && ValidUtf8(s[CharLen(s)..]))
  }

  lemma CharLenPrefix(a: seq<Byte>, b: seq<Byte>)
    ensures CharLen(a) > 0 ==> CharLen(a + b) == CharLen(a)
    ensures (b == [] || b[0] < 0x80) && a != [] ==> CharLen(a + b) == CharLen(a)
  {
  }

  lemma {:induction false} Utf8Join(a: seq<Byte>, b: seq<Byte>)
    requires ValidUtf8(a) && ValidUtf8(b)
    ensures ValidUtf8(a + b)
    decreases |a|
  {
    if a == [] {
      assert a + b == b;
    } else {
      var n := CharLen(a);
      CharLenPrefix(a, b);
      assert (a + b)[n..] == a[n..] + b;
      Utf8Join(a[n..], b);
    }
  }

  /** Text may be cut before an ASCII character. */
  lemma {:induction false} Utf8Cut(a: seq<Byte>, b: seq<Byte>)
    requires ValidUtf8(a + b) && (b == [] || b[0] < 0x80)
    ensures ValidUtf8(a) && ValidUtf8(b)
    decreases |a|
  {
    if a == [] {
      assert a + b == b;
    } else {
      var n := CharLen(a);
      CharLenPrefix(a, b);
      assert (a + b)[n..] == a[n..] + b;
      Utf8Cut(a[n..], b);
    }
  }

  /** A decoder that replaces what is malformed (from_utf8_lossy) leaves valid text alone. */
  ghost predicate Faithful(lossy: seq<Byte> -> seq<Byte>) {
    forall s :: ValidUtf8(s) ==> lossy(s) == s
  }

  lemma {:induction false} AsciiIsUtf8(s: seq<Byte>)
    requires forall i :: 0 <= i < |s| ==> s[i] < 0x80
    ensures ValidUtf8(s)
    decreases |s|
  {
    if s == [] {
    } else {
      AsciiIsUtf8(s[1..]);
    }
  }

  // ----- the encoding form of section 3 of RFC 3629 -----

  predicate Scalar(c: nat) {
    c < 0xD800 || 0xE000 <= c < 0x11_0000
  }

  function EncodedScalar(c: nat): (s: seq<Byte>)
    requires Scalar(c)
    ensures 1 <= |s| <= 4
  {
    if c < 0x80 then [c]
    else if c < 0x800 then [0xC0 + c / 64, 0x80 + c % 64]
    else if c < 0x1_0000 then [0xE0 + c / 4096, 0x80 + c / 64 % 64, 0x80 + c % 64]
    else [0xF0 + c / 262144, 0x80 + c / 4096 % 64, 0x80 + c / 64 % 64, 0x80 + c % 64]
  }

  function EncodedText(cs: seq<nat>): seq<Byte>
    requires forall i :: 0 <= i < |cs| ==> Scalar(cs[i])
  {
    if cs == [] then [] else EncodedScalar(cs[0]) + EncodedText(cs[1..])
  }

  /** An encoded character is taken whole. */
  lemma ScalarRead(c: nat, rest: seq<Byte>)
    requires Scalar(c)
    ensures CharLen(EncodedScalar(c) + rest) == |EncodedScalar(c)|
  {
    var s := EncodedScalar(c) + rest;
    if c < 0x80 {
    } else if c < 0x800 {
      assert s[1] == 0x80 + c % 64;
    } else if c < 0x1_0000 {
      ThreeDigits(c);
      assert s[1] == 0x80 + c / 64 % 64 && s[2] == 0x80 + c % 64;
    } else {
      FourDigits(c);
      assert s[1] == 0x80 + c / 4096 % 64 && s[2] == 0x80 + c / 64 % 64 && s[3] == 0x80 + c % 64;
    }
  }

  lemma ThreeDigits(c: nat)
    requires c < 0x1_0000
    ensures c == c / 4096 * 4096 + c / 64 % 64 * 64 + c % 64
  {
    assert c / 64 / 64 == c / 4096;
  }

  lemma FourDigits(c: nat)
    ensures c == c / 262144 * 262144 + c / 4096 % 64 * 4096 + c / 64 % 64 * 64 + c % 64
  {
    assert c / 64 / 64 == c / 4096 && c / 4096 / 64 == c / 262144;
  }

  lemma Digits64(a: nat, b: nat, c: nat, d: nat)
    requires b < 64 && c < 64 && d < 64
    ensures var v := ((a * 64 + b) * 64 + c) * 64 + d;
            v / 262144 == a && v / 4096 % 64 == b && v / 64 % 64 == c && v % 64 == d && v / 4096 == a * 64 + b
            && v / 64 == (a * 64 + b) * 64 + c
  {
    var x := a * 64 + b;
    var y := x * 64 + c;
    OneDigit(a, b);
    OneDigit(x, c);
    OneDigit(y, d);
    DivTwice(y * 64 + d);
  }

  lemma OneDigit(x: nat, d: nat)
    requires d < 64
    ensures (x * 64 + d) / 64 == x && (x * 64 + d) % 64 == d
  {
  }

  lemma DivTwice(v: nat)
    ensures v / 64 / 64 == v / 4096 && v / 4096 / 64 == v / 262144
  {
  }

  lemma FourByteScalar(s: seq<Byte>) returns (c: nat)
    requires CharLen(s) == 4
    ensures Scalar(c) && s[..4] == EncodedScalar(c)
  {
    var b0: int, b1: int, b2: int, b3: int := s[0], s[1], s[2], s[3];
    Digits64(b0 - 0xF0, b1 - 0x80, b2 - 0x80, b3 - 0x80);
    c := (((b0 - 0xF0) * 64 + (b1 - 0x80)) * 64 + (b2 - 0x80)) * 64 + (b3 - 0x80);
  }

  /** Whatever is taken is an encoded character. */
  lemma CharIsScalar(s: seq<Byte>) returns (c: nat)
    requires CharLen(s) > 0
    ensures Scalar(c) && s[..CharLen(s)] == EncodedScalar(c)
  {
    var n := CharLen(s);
    var b0: int, b1: int, b2: int := s[0], if n > 1 then s[1] else 0, if n > 2 then s[2] else 0;
    if n == 1 {
      c := b0;
    } else if n == 2 {
      Digits64(0, 0, b0 - 0xC0, b1 - 0x80);
      c := (b0 - 0xC0) * 64 + (b1 - 0x80);
    } else if n == 3 {
      Digits64(0, b0 - 0xE0, b1 - 0x80, b2 - 0x80);
      c := ((b0 - 0xE0) * 64 + (b1 - 0x80)) * 64 + (b2 - 0x80);
    } else {
      c := FourByteScalar(s);
    }
  }

  /** Valid are exactly the encodings of sequences of Unicode scalar values. */
  lemma {:induction false} ValidIsEncoded(s: seq<Byte>) returns (cs: seq<nat>)
    requires ValidUtf8(s)
    ensures (forall i :: 0 <= i < |cs| ==> Scalar(cs[i])) && s == EncodedText(cs)
    decreases |s|
  {
    hide CharLen, EncodedScalar, Scalar;
    if s == [] {
      cs := [];
    } else {
      var c := CharIsScalar(s);
      var more := ValidIsEncoded(s[CharLen(s)..]);
      cs := [c] + more;
      assert cs[1..] == more && s == s[..CharLen(s)] + s[CharLen(s)..];
    }
  }

  lemma {:induction false} EncodedIsValid(cs: seq<nat>)
    requires forall i :: 0 <= i < |cs| ==> Scalar(cs[i])
    ensures ValidUtf8(EncodedText(cs))
    decreases |cs|
  {
    hide CharLen, EncodedScalar;
    if cs == [] {
    } else {
      ScalarRead(cs[0], EncodedText(cs[1..]));
      EncodedIsValid(cs[1..]);
      assert EncodedText(cs)[|EncodedScalar(cs[0])|..] == EncodedText(cs[1..]);
    }
  }
}

/** Base64 of src/util.rs: groups of three bytes as four characters, and back. */
module Base64 {
  import opened Results
  import opened Arith
  import opened Bits
  import opened Octets
  import opened Text

  type Sextet = x: int | 0 <= x < 64

  /** The table A-Z a-z 0-9 + /, range by range. */
  function CharOf(v: Sextet): (c: char) {
    if v < 26 then (65 + v) as char
    else if v < 52 then (71 + v) as char
    else if v < 62 then (v - 4) as char
    else if v == 62 then '+' else '/'
  }

  /** Position in the table of a character cut down to a byte. */
  function Position(c: char): (v: Option<Sextet>)
    ensures v.Some? ==> CharOf(v.value) as int == c as int % 256
    ensures v.None? ==> forall i: Sextet :: CharOf(i) as int != c as int % 256
  {
    var b := c as int % 256;
    if 65 <= b < 91 then Some(b - 65)
    else if 97 <= b < 123 then Some(b - 71)
    else if 48 <= b < 58 then Some(b + 4)
    else if b == 43 then Some(62)
    else if b == 47 then Some(63)
    else None
  }

  lemma PositionOfChar(v: Sextet)
    ensures Position(CharOf(v)) == Some(v)
    ensures CharOf(v) != '=' && CharOf(v) != '-' && CharOf(v) != '\n' && !IsSpace(CharOf(v))
  {
  }

  const UPPER: string := "ABCDEFGHIJKLM" + "NOPQRSTUVWXYZ"
  const LOWER: string := "abcdefghijklm" + "nopqrstuvwxyz"
  const TABLE: string := UPPER + LOWER + "0123456789" + "+/"

  lemma UpperLetters(i: nat)
    requires i < 13
    ensures "ABCDEFGHIJKLM"[i] as int == 65 + i && "NOPQRSTUVWXYZ"[i] as int == 78 + i
  {
    var s, t := "ABCDEFGHIJKLM", "NOPQRSTUVWXYZ";
    assert s[0] == 'A' && s[1] == 'B' && s[2] == 'C' && s[3] == 'D' && s[4] == 'E' && s[5] == 'F' && s[6] == 'G';
    assert s[7] == 'H' && s[8] == 'I' && s[9] == 'J' && s[10] == 'K' && s[11] == 'L' && s[12] == 'M';
    assert t[0] == 'N' && t[1] == 'O' && t[2] == 'P' && t[3] == 'Q' && t[4] == 'R' && t[5] == 'S' && t[6] == 'T';
    assert t[7] == 'U' && t[8] == 'V' && t[9] == 'W' && t[10] == 'X' && t[11] == 'Y' && t[12] == 'Z';
  }

  lemma LowerLetters(i: nat)
    requires i < 13
    ensures "abcdefghijklm"[i] as int == 97 + i && "nopqrstuvwxyz"[i] as int == 110 + i
  {
    var s, t := "abcdefghijklm", "nopqrstuvwxyz";
    assert s[0] == 'a' && s[1] == 'b' && s[2] == 'c' && s[3] == 'd' && s[4] == 'e' && s[5] == 'f' && s[6] == 'g';
    assert s[7] == 'h' && s[8] == 'i' && s[9] == 'j' && s[10] == 'k' && s[11] == 'l' && s[12] == 'm';
    assert t[0] == 'n' && t[1] == 'o' && t[2] == 'p' && t[3] == 'q' && t[4] == 'r' && t[5] == 's' && t[6] == 't';
    assert t[7] == 'u' && t[8] == 'v' && t[9] == 'w' && t[10] == 'x' && t[11] == 'y' && t[12] == 'z';
  }

  /** The ranges make up the table of section 4 of RFC 4648. */
  lemma CharIsTable(v: Sextet)
    ensures |TABLE| == 64 && CharOf(v) == TABLE[v]
    ensures TABLE == ("ABCDEFGHIJKLM" + "NOPQRSTUVWXYZ") + ("abcdefghijklm" + "nopqrstuvwxyz") + "0123456789" + "+/"
  {
    if v < 52 {
      UpperLetters(v % 13);
      LowerLetters(v % 13);
      assert v < 13 ==> TABLE[v] == "ABCDEFGHIJKLM"[v];
      assert 13 <= v < 26 ==> TABLE[v] == "NOPQRSTUVWXYZ"[v - 13];
      assert 26 <= v < 39 ==> TABLE[v] == "abcdefghijklm"[v - 26];
      assert 39 <= v ==> TABLE[v] == "nopqrstuvwxyz"[v - 39];
    } else if v < 62 {
      assert TABLE[v] == "0123456789"[v - 52];
    }
  }

  // ----- encoding -----

  /** Sextet i of three bytes. */
  function SextetAt(b0: Byte, b1: Byte, b2: Byte, i: nat): Sextet
    requires i < 4
  {
    if i == 0 then b0 / 4
    else if i == 1 then (b0 % 4) * 16 + b1 / 16
    else if i == 2 then (b1 % 16) * 4 + b2 / 64
    else b2 % 64
  }

  function ByteOr0(g: seq<Byte>, i: nat): Byte {
    if i < |g| then g[i] else 0
  }

  /** Character i of a group of one to three bytes. */
  function GroupChar(g: seq<Byte>, i: nat): char
    requires i < 4
  {
    if i * 6 / 8 < |g| then CharOf(SextetAt(ByteOr0(g, 0), ByteOr0(g, 1), ByteOr0(g, 2), i)) else '='
  }

  function Group(g: seq<Byte>): string {
    [GroupChar(g, 0), GroupChar(g, 1), GroupChar(g, 2), GroupChar(g, 3)]
  }

  function Encoded(s: seq<Byte>): string {
    if s == [] then []
    else if |s| <= 3 then Group(s)
    else Group(s[..3]) + Encoded(s[3..])
  }

  method Encode(input: seq<Byte>) returns (out: string)
    ensures out == Encoded(input)
  {
    out := [];
    var rest := input;
    while rest != []
      invariant out + Encoded(rest) == Encoded(input)
      decreases |rest|
    {
      var chunk := if |rest| <= 3 then rest else rest[..3];
      var g := EncodeGroup(chunk);
      if |rest| <= 3 {
        assert Encoded([]) == [];
        out := out + g;
        rest := [];
      } else {
        assert out + (g + Encoded(rest[3..])) == out + g + Encoded(rest[3..]);
        out := out + g;
        rest := rest[3..];
      }
    }
  }

  /** Packs a group into 24 bits and cuts it into sextets. */
  method EncodeGroup(chunk: seq<Byte>) returns (out: string)
    requires 1 <= |chunk| <= 3
    ensures out == Group(chunk)
  {
    var n := 0;
    ghost var b0, b1, b2 := ByteOr0(chunk, 0), ByteOr0(chunk, 1), ByteOr0(chunk, 2);
    PackedBytes(b0, b1, b2);
    n := Or(n, chunk[0] as int * 0x1_0000);
    if |chunk| > 1 { n := Or(n, chunk[1] as int * 0x100); }
    if |chunk| > 2 { n := Or(n, chunk[2]); }
    out := [];
    for i := 0 to 4
      invariant |out| == i && forall k :: 0 <= k < i ==> out[k] == GroupChar(chunk, k)
    {
      if i * 6 / 8 < |chunk| {
        SextetOf(b0, b1, b2, i);
        out := out + [CharOf(And(n / Pow(2, 18 - 6 * i), 0x3F))];
      } else {
        out := out + ['='];
      }
    }
  }

  lemma PackedBytes(b0: Byte, b1: Byte, b2: Byte)
    ensures var n := Or(Or(Or(0, b0 * 0x1_0000), b1 * 0x100), b2);
            n == b0 * 0x1_0000 + b1 * 0x100 + b2
    ensures b2 == 0 ==> Or(Or(0, b0 * 0x1_0000), b1 * 0x100) == b0 * 0x1_0000 + b1 * 0x100
    ensures b1 == 0 ==> Or(0, b0 * 0x1_0000) == b0 * 0x1_0000
  {
    TwoPow16();
    MultipleMod(b0, 0x1_0000);
    OrDisjoint(b0 * 0x1_0000, b1 * 0x100, 16);
    MultipleMod(b0 * 0x100 + b1, 0x100);
    OrDisjoint(b0 * 0x1_0000 + b1 * 0x100, b2, 8);
  }

  lemma SextetOf(b0: Byte, b1: Byte, b2: Byte, i: nat)
    requires i < 4
    ensures And((b0 * 0x1_0000 + b1 * 0x100 + b2) / Pow(2, 18 - 6 * i), 0x3F) == SextetAt(b0, b1, b2, i)
  {
    var n := b0 * 0x1_0000 + b1 * 0x100 + b2;
    SmallPowers();
    var m := ShiftedDown(b0, b1, b2, i);
    AndMask(m, 6);
    if i == 0 {
      ModSmall(m, 64);
    } else if i == 1 {
      DivModUnique(m, 64, b0 / 4, SextetAt(b0, b1, b2, 1));
    } else if i == 2 {
      DivModUnique(m, 64, b0 * 16 + b1 / 16, SextetAt(b0, b1, b2, 2));
    } else {
      DivModUnique(m, 64, b0 * 1024 + b1 * 4 + b2 / 64, SextetAt(b0, b1, b2, 3));
    }
  }

  lemma ShiftedDown(b0: Byte, b1: Byte, b2: Byte, i: nat) returns (m: nat)
    requires i < 4
    ensures m == (b0 * 0x1_0000 + b1 * 0x100 + b2) / Pow(2, 18 - 6 * i)
    ensures m == if i == 0 then b0 / 4 else if i == 1 then b0 * 16 + b1 / 16
                 else if i == 2 then b0 * 1024 + b1 * 4 + b2 / 64 else b0 * 0x1_0000 + b1 * 0x100 + b2
  {
    SmallPowers();
    var n := b0 * 0x1_0000 + b1 * 0x100 + b2;
    if i == 0 {
      m := b0 / 4;
      DivModUnique(n, 262144, m, (b0 % 4) * 0x1_0000 + b1 * 0x100 + b2);
    } else if i == 1 {
      m := b0 * 16 + b1 / 16;
      DivModUnique(n, 4096, m, (b1 % 16) * 0x100 + b2);
    } else if i == 2 {
      m := b0 * 1024 + b1 * 4 + b2 / 64;
      DivModUnique(n, 64, m, b2 % 64);
    } else {
      m := n;
      DivModUnique(n, 1, n, 0);
    }
  }

  lemma SmallPowers()
    ensures Pow(2, 0) == 1 && Pow(2, 2) == 4 && Pow(2, 4) == 16 && Pow(2, 6) == 64
    ensures Pow(2, 12) == 4096 && Pow(2, 18) == 262144
  {
  }

  // ----- decoding -----

  /** Decoding from a buffer of `bits` pending bits; stops at '=', skips characters not in the table. */
  function Decoded(s: string, buf: nat, bits: nat): seq<Byte>
    requires bits < 8 && buf < Pow(2, bits)
  {
    if s == [] || s[0] == '=' then []
    else
      var v := Position(s[0]);
      if v.None? then Decoded(s[1..], buf, bits)
      else
        PendingFits(buf, bits, v.value);
        if bits + 6 >= 8 then
          [(buf * 64 + v.value) / Pow(2, bits - 2)]
          + Decoded(s[1..], (buf * 64 + v.value) % Pow(2, bits - 2), bits - 2)
        else Decoded(s[1..], buf * 64 + v.value, bits + 6)
  }

  lemma PendingFits(buf: nat, bits: nat, v: Sextet)
    requires bits < 8 && buf < Pow(2, bits)
    ensures buf * 64 + v < Pow(2, bits + 6)
    ensures bits >= 2 ==> 0 <= (buf * 64 + v) / Pow(2, bits - 2) < 256
    ensures bits >= 2 ==> 0 <= (buf * 64 + v) % Pow(2, bits - 2) < Pow(2, bits - 2)
  {
    assert Pow(2, 6) == 64;
    PowAdd(2, bits, 6);
    if bits >= 2 {
      TwoPow16();
      PowAdd(2, 8, bits - 2);
      var p := Pow(2, bits - 2);
      DivPositive(buf * 64 + v, p);
      DivMod(buf * 64 + v, p);
      var q := (buf * 64 + v) / p;
      if q >= 256 { MulLe(256, q, p); }
    }
  }

  /** A character outside the table changes nothing, wherever it stands; from an equals sign on all is dropped. */
  lemma {:induction false} OnlyTheTableCounts(a: string, c: char, b: string, buf: nat, bits: nat)
    requires bits < 8 && buf < Pow(2, bits)
    ensures c != '=' && (forall v: Sextet :: TABLE[v] as int != c as int % 256) ==>
              Decoded(a + [c] + b, buf, bits) == Decoded(a + b, buf, bits)
    ensures c == '=' ==> Decoded(a + [c] + b, buf, bits) == Decoded(a, buf, bits)
    decreases |a|
  {
    hide CharOf, Pow;
    forall v: Sextet ensures CharOf(v) == TABLE[v] { CharIsTable(v); }
    if a == [] {
      assert a + [c] + b == [c] + b && a + b == b;
      assert ([c] + b)[1..] == b;
    } else {
      assert (a + [c] + b)[1..] == a[1..] + [c] + b && (a + b)[1..] == a[1..] + b;
      if a[0] != '=' {
        var v := Position(a[0]);
        if v.None? {
          OnlyTheTableCounts(a[1..], c, b, buf, bits);
        } else {
          PendingFits(buf, bits, v.value);
          if bits + 6 >= 8 {
            OnlyTheTableCounts(a[1..], c, b, (buf * 64 + v.value) % Pow(2, bits - 2), bits - 2);
          } else {
            OnlyTheTableCounts(a[1..], c, b, buf * 64 + v.value, bits + 6);
          }
        }
      }
    }
  }

  method Decode(input: string) returns (out: seq<Byte>)
    ensures out == Decoded(input, 0, 0)
  {
    out := [];
    var buf, bits := 0, 0;
    assert input[0..] == input;
    for i := 0 to |input|
      invariant 0 <= bits < 8 && 0 <= buf < Pow(2, bits)
      invariant out + Decoded(input[i..], buf, bits) == Decoded(input, 0, 0)
    {
      assert input[i..] == [input[i]] + input[i + 1..];
      assert input[i..][1..] == input[i + 1..];
      if input[i] == '=' {
        assert out + [] == out;
        return;
      }
      var val := Position(input[i]);
      if val.Some? {
        var byte;
        byte, buf, bits := Take(buf, bits, input[i], val.value, input[i + 1..]);
        assert out + (byte + Decoded(input[i + 1..], buf, bits)) == out + byte + Decoded(input[i + 1..], buf, bits);
        out := out + byte;
      }
    }
    assert out + [] == out;
  }

  /** Shifts one sextet in, and a byte out when eight bits are there. */
  method Take(buf: nat, bits: nat, ghost c: char, v: Sextet, ghost rest: string)
    returns (byte: seq<Byte>, buf': nat, bits': nat)
    requires bits < 8 && buf < Pow(2, bits) && Position(c) == Some(v) && c != '='
    ensures bits' < 8 && buf' < Pow(2, bits')
    ensures Decoded([c] + rest, buf, bits) == byte + Decoded(rest, buf', bits')
  {
    hide *;
    byte, buf', bits' := [], Or(buf * 64, v), bits + 6;
    ShiftedIn(buf, bits, v, buf');
    DecodeShifted(c, v, rest, buf, bits, buf');
    if bits' >= 8 {
      bits' := bits' - 8;
      AndMask(buf', bits');
      byte := [buf' / Pow(2, bits')];
      buf' := And(buf', Pow(2, bits') - 1);
    } else {
      assert [] + Decoded(rest, buf', bits') == Decoded(rest, buf', bits');
    }
  }

  lemma ShiftedIn(buf: nat, bits: nat, v: Sextet, x: nat)
    requires bits < 8 && buf < Pow(2, bits) && x == Or(buf * 64, v)
    ensures x == buf * 64 + v && x < Pow(2, bits + 6)
    ensures bits >= 2 ==> 0 <= x / Pow(2, bits - 2) < 256
    ensures bits >= 2 ==> 0 <= x % Pow(2, bits - 2) < Pow(2, bits - 2)
  {
    PendingFits(buf, bits, v);
    assert Pow(2, 6) == 64;
    MultipleMod(buf, 64);
    OrDisjoint(buf * 64, v, 6);
  }

  lemma DecodeShifted(c: char, v: Sextet, rest: string, buf: nat, bits: nat, x: nat)
    requires bits < 8 && buf < Pow(2, bits) && Position(c) == Some(v) && c != '=' && x == buf * 64 + v
    requires x < Pow(2, bits + 6)
    requires bits >= 2 ==> 0 <= x / Pow(2, bits - 2) < 256 && 0 <= x % Pow(2, bits - 2) < Pow(2, bits - 2)
    ensures Decoded([c] + rest, buf, bits)
         == if bits < 2 then Decoded(rest, x, bits + 6)
            else [x / Pow(2, bits - 2)] + Decoded(rest, x % Pow(2, bits - 2), bits - 2)
  {
    DecodeAny(c, v, rest, buf, bits);
  }

  lemma DecodeAny(c: char, v: Sextet, rest: string, buf: nat, bits: nat)
    requires bits < 8 && buf < Pow(2, bits) && Position(c) == Some(v) && c != '='
    ensures buf * 64 + v < Pow(2, bits + 6)
    ensures bits >= 2 ==> 0 <= (buf * 64 + v) / Pow(2, bits - 2) < 256
    ensures bits >= 2 ==> 0 <= (buf * 64 + v) % Pow(2, bits - 2) < Pow(2, bits - 2)
    ensures Decoded([c] + rest, buf, bits)
         == if bits < 2 then Decoded(rest, buf * 64 + v, bits + 6)
            else [(buf * 64 + v) / Pow(2, bits - 2)] + Decoded(rest, (buf * 64 + v) % Pow(2, bits - 2), bits - 2)
  {
    PendingFits(buf, bits, v);
    assert ([c] + rest)[1..] == rest;
  }

  // ----- round trip -----

  lemma DecodeChar(v: Sextet, rest: string, buf: nat, bits: nat)
    requires bits < 8 && buf < Pow(2, bits)
    ensures buf * 64 + v < Pow(2, bits + 6)
    ensures bits >= 2 ==> 0 <= (buf * 64 + v) % Pow(2, bits - 2) < Pow(2, bits - 2)
    ensures Decoded([CharOf(v)] + rest, buf, bits)
         == if bits < 2 then Decoded(rest, buf * 64 + v, bits + 6)
            else [(buf * 64 + v) / Pow(2, bits - 2)] + Decoded(rest, (buf * 64 + v) % Pow(2, bits - 2), bits - 2)
  {
    PositionOfChar(v);
    DecodeAny(CharOf(v), v, rest, buf, bits);
  }

  lemma DecodePad(rest: string, buf: nat, bits: nat)
    requires bits < 8 && buf < Pow(2, bits)
    ensures Decoded(['='] + rest, buf, bits) == []
  {
  }

  /** A whole group decodes to its bytes and leaves nothing pending. */
  lemma DecodeGroup(g: seq<Byte>, rest: string)
    requires 1 <= |g| <= 3
    ensures |g| == 3 ==> Decoded(Group(g) + rest, 0, 0) == g + Decoded(rest, 0, 0)
    ensures |g| < 3 ==> Decoded(Group(g) + rest, 0, 0) == g
  {
    hide Decoded, CharOf, Encoded;
    var b1, b2 := ByteOr0(g, 1), ByteOr0(g, 2);
    var r3 := [GroupChar(g, 3)] + rest;
    var r2 := [GroupChar(g, 2)] + r3;
    assert Group(g) + rest == [GroupChar(g, 0)] + ([GroupChar(g, 1)] + r2);
    DecodeFirst(g[0], b1, r2);
    SmallPowers();
    DecodePad(r3, b1 / 16, 4);
    DecodePad(rest, b2 / 64, 2);
    if |g| == 1 {
      assert [g[0]] + [] == g;
    } else {
      DecodeSecond(b1, b2, r3);
      if |g| == 2 {
        assert [g[0]] + ([g[1]] + []) == g;
      } else {
        DecodeThird(b2, rest);
        assert [g[0]] + ([g[1]] + ([g[2]] + Decoded(rest, 0, 0))) == g + Decoded(rest, 0, 0);
      }
    }
  }

  lemma DecodeFirst(b0: Byte, b1: Byte, rest: string)
    ensures b1 / 16 < Pow(2, 4) && Pow(2, 0) == 1
    ensures Decoded([CharOf(SextetAt(b0, b1, 0, 0))] + ([CharOf(SextetAt(b0, b1, 0, 1))] + rest), 0, 0)
         == [b0] + Decoded(rest, b1 / 16, 4)
  {
    SmallPowers();
    hide Pow;
    DecodeChar(b0 / 4, [CharOf((b0 % 4) * 16 + b1 / 16)] + rest, 0, 0);
    DecodeChar((b0 % 4) * 16 + b1 / 16, rest, b0 / 4, 6);
    DivModUnique((b0 / 4) * 64 + ((b0 % 4) * 16 + b1 / 16), 16, b0, b1 / 16);
  }

  lemma DecodeSecond(b1: Byte, b2: Byte, rest: string)
    ensures b1 / 16 < Pow(2, 4) && b2 / 64 < Pow(2, 2)
    ensures Decoded([CharOf(SextetAt(0, b1, b2, 2))] + rest, b1 / 16, 4) == [b1] + Decoded(rest, b2 / 64, 2)
  {
    SmallPowers();
    DecodeChar((b1 % 16) * 4 + b2 / 64, rest, b1 / 16, 4);
    DivModUnique((b1 / 16) * 64 + ((b1 % 16) * 4 + b2 / 64), 4, b1, b2 / 64);
  }

  lemma DecodeThird(b2: Byte, rest: string)
    ensures b2 / 64 < Pow(2, 2) && Pow(2, 0) == 1
    ensures Decoded([CharOf(b2 % 64)] + rest, b2 / 64, 2) == [b2] + Decoded(rest, 0, 0)
  {
    SmallPowers();
    DecodeChar(b2 % 64, rest, b2 / 64, 2);
    DivModUnique((b2 / 64) * 64 + b2 % 64, 1, b2, 0);
  }

  /** Decoding undoes encoding, whatever follows a padded end. */
  lemma {:induction false} RoundTrip(s: seq<Byte>)
    ensures Decoded(Encoded(s), 0, 0) == s
    decreases |s|
  {
    if s == [] {
    } else if |s| <= 3 {
      assert Group(s) + [] == Group(s);
      DecodeGroup(s, []);
    } else {
      DecodeGroup(s[..3], Encoded(s[3..]));
      RoundTrip(s[3..]);
    }
  }

  ghost predicate InAlphabet(c: char) {
    c == '=' || exists v: Sextet :: c == CharOf(v)
  }

  lemma {:induction false} EncodedCharacters(s: seq<Byte>)
    ensures forall i :: 0 <= i < |Encoded(s)| ==> InAlphabet(Encoded(s)[i])
    decreases |s|
  {
    if |s| > 3 { EncodedCharacters(s[3..]); }
  }
}

/** Byte strings read as big-endian integers (OS2IP of RFC 8017, section 4.2). */
module Octets {
  import opened Arith

  type Byte = x: int | 0 <= x < 256

  function Os2ip(s: seq<Byte>): nat {
    if s == [] then 0 else 256 * Os2ip(s[..|s| - 1]) + s[|s| - 1]
  }

  function ZeroBytes(n: nat): (s: seq<Byte>)
    ensures |s| == n && forall i :: 0 <= i < n ==> s[i] == 0
  {
    seq(n, _ => 0)
  }

  lemma Os2ipSnoc(s: seq<Byte>, b: Byte)
    ensures Os2ip(s + [b]) == 256 * Os2ip(s) + b
  {
    assert (s + [b])[..|s|] == s;
  }

  lemma OneByteOn(x: int, p: int)
    ensures 256 * (x * p) == x * (256 * p)
  {
  }

  lemma {:induction false} Os2ipConcat(s: seq<Byte>, t: seq<Byte>)
    ensures Os2ip(s + t) == Os2ip(s) * Pow(256, |t|) + Os2ip(t)
    decreases |t|
  {
    if t == [] {
      assert s + t == s;
    } else {
      var u, b := t[..|t| - 1], t[|t| - 1];
      assert s + t == (s + u) + [b];
      Os2ipSnoc(s + u, b);
      Os2ipConcat(s, u);
      Os2ipSnoc(u, b);
      assert |t| == |u| + 1;
      assert u + [b] == t && Pow(256, |t|) == 256 * Pow(256, |u|);
      hide Os2ip, Pow;
      OneByteOn(Os2ip(s), Pow(256, |u|));
    }
  }

  lemma {:induction false} Os2ipBound(s: seq<Byte>)
    ensures Os2ip(s) < Pow(256, |s|)
  {
    if s == [] {
    } else {
      Os2ipBound(s[..|s| - 1]);
    }
  }

  lemma {:induction false} Os2ipZeros(n: nat)
    ensures Os2ip(ZeroBytes(n)) == 0
  {
    if n == 0 {
    } else {
      assert ZeroBytes(n)[..n - 1] == ZeroBytes(n - 1);
      Os2ipZeros(n - 1);
    }
  }

  lemma Os2ipPad(n: nat, s: seq<Byte>)
    ensures Os2ip(ZeroBytes(n) + s) == Os2ip(s)
  {
    Os2ipConcat(ZeroBytes(n), s);
    Os2ipZeros(n);
    assert 0 * Pow(256, |s|) == 0;
  }

  /** Dropping leading bytes reduces modulo a power of 256. */
  lemma Os2ipSuffix(s: seq<Byte>, n: nat)
    requires n <= |s|
    ensures Os2ip(s[n..]) == Os2ip(s) % Pow(256, |s| - n)
    ensures Os2ip(s[..n]) == Os2ip(s) / Pow(256, |s| - n)
  {
    assert s == s[..n] + s[n..];
    Os2ipConcat(s[..n], s[n..]);
    Os2ipBound(s[n..]);
    DivModUnique(Os2ip(s), Pow(256, |s| - n), Os2ip(s[..n]), Os2ip(s[n..]));
  }

  /** Byte strings of one length are told apart by their integers. */
  lemma {:induction false} Os2ipInjective(s: seq<Byte>, t: seq<Byte>)
    requires |s| == |t| && Os2ip(s) == Os2ip(t)
    ensures s == t
  {
    if s == [] {
    } else {
      var a, b := s[..|s| - 1], t[..|t| - 1];
      DivModUnique(Os2ip(s), 256, Os2ip(a), s[|s| - 1]);
      DivModUnique(Os2ip(t), 256, Os2ip(b), t[|t| - 1]);
      Os2ipInjective(a, b);
      assert s == a + [s[|s| - 1]] && t == b + [t[|t| - 1]];
    }
  }

  /** A nonzero leading byte forces the size. */
  lemma Os2ipLower(s: seq<Byte>)
    requires s != [] && s[0] != 0
    ensures Os2ip(s) >= Pow(256, |s| - 1)
  {
    Os2ipSuffix(s, 1);
    assert s[..1] == [s[0]];
    Os2ipSnoc([], s[0]);
    assert [] + [s[0]] == [s[0]];
    DivMod(Os2ip(s), Pow(256, |s| - 1));
    MulLe(1, s[0], Pow(256, |s| - 1));
  }

  /** The k low-order bytes of v (I2OSP of RFC 8017, section 4.1, when v fits). */
  function I2osp(v: nat, k: nat): (s: seq<Byte>)
    ensures |s| == k
  {
    if k == 0 then [] else I2osp(v / 256, k - 1) + [v % 256]
  }

  lemma {:induction false} Os2ipOfI2osp(v: nat, k: nat)
    ensures Os2ip(I2osp(v, k)) == v % Pow(256, k)
    decreases k
  {
    if k == 0 {
    } else {
      var p := Pow(256, k - 1);
      Os2ipOfI2osp(v / 256, k - 1);
      Os2ipSnoc(I2osp(v / 256, k - 1), v % 256);
      ModProduct(v, 256, p);
    }
  }

  lemma I2ospOfOs2ip(s: seq<Byte>)
    ensures I2osp(Os2ip(s), |s|) == s
  {
    Os2ipOfI2osp(Os2ip(s), |s|);
    Os2ipBound(s);
    ModSmall(Os2ip(s), Pow(256, |s|));
    Os2ipInjective(I2osp(Os2ip(s), |s|), s);
  }

  // ----- splitting at a byte -----

  /** Where the byte first stands, or the length. */
  function ByteAt(s: seq<Byte>, sep: Byte): (i: nat)
    ensures i <= |s| && sep !in s[..i] && (i < |s| ==> s[i] == sep)
  {
    if s == [] || s[0] == sep then 0 else
      var k := ByteAt(s[1..], sep);
      assert s[..k + 1] == [s[0]] + s[1..][..k];
      k + 1
  }

  function SplitBytes(s: seq<Byte>, sep: Byte): (parts: seq<seq<Byte>>)
    ensures parts != [] && JoinBytes(parts, sep) == s
    decreases |s|
  {
    var i := ByteAt(s, sep);
    if i == |s| then [s] else
      assert s == s[..i] + [sep] + s[i + 1..];
      [s[..i]] + SplitBytes(s[i + 1..], sep)
  }

  function JoinBytes(parts: seq<seq<Byte>>, sep: Byte): seq<Byte> {
    if parts == [] then []
    else if |parts| == 1 then parts[0]
    else parts[0] + [sep] + JoinBytes(parts[1..], sep)
  }

  /** Splitting undoes joining when no part holds the separator. */
  lemma {:induction false} SplitOfJoin(parts: seq<seq<Byte>>, sep: Byte)
    requires parts != [] && forall i :: 0 <= i < |parts| ==> sep !in parts[i]
    ensures SplitBytes(JoinBytes(parts, sep), sep) == parts
    decreases |parts|
  {
    var p := parts[0];
    if |parts| == 1 {
      WholePart(p, sep);
    } else {
      var rest := JoinBytes(parts[1..], sep);
      SplitOfJoin(parts[1..], sep);
      var s := p + [sep] + rest;
      assert s[..|p|] == p && s[|p|] == sep && s[|p| + 1..] == rest;
      FirstAt(s, sep, |p|);
    }
  }

  lemma WholePart(p: seq<Byte>, sep: Byte)
    requires sep !in p
    ensures SplitBytes(p, sep) == [p]
  {
    if ByteAt(p, sep) < |p| { assert false; }
  }

  lemma FirstAt(s: seq<Byte>, sep: Byte, i: nat)
    requires i < |s| && s[i] == sep && sep !in s[..i]
    ensures ByteAt(s, sep) == i
  {
    var k := ByteAt(s, sep);
    InPrefix(s, sep, k, i);
    InPrefix(s, sep, i, k);
  }

  lemma InPrefix(s: seq<Byte>, sep: Byte, k: nat, i: nat)
    requires i <= |s|
    ensures k < i && s[k] == sep ==> sep in s[..i]
  {
    if k < i { assert s[..i][k] == s[k]; }
  }

  // ----- bytes standing at a place in a message -----

  ghost predicate Holds(msg: seq<Byte>, pos: nat, bytes: seq<Byte>) {
    pos + |bytes| <= |msg| && msg[pos..pos + |bytes|] == bytes
  }

  lemma HoldsParts(msg: seq<Byte>, pos: nat, a: seq<Byte>, b: seq<Byte>)
    requires Holds(msg, pos, a + b)
    ensures Holds(msg, pos, a) && Holds(msg, pos + |a|, b)
  {
    assert msg[pos..pos + |a|] == (a + b)[..|a|];
    assert msg[pos + |a|..pos + |a| + |b|] == (a + b)[|a|..];
  }

  lemma Standing(before: seq<Byte>, wire: seq<Byte>, after: seq<Byte>)
    ensures Holds(before + wire + after, |before|, wire)
  {
  }

  lemma HeldBytes(msg: seq<Byte>, pos: nat, bytes: seq<Byte>)
    requires Holds(msg, pos, bytes)
    ensures pos + |bytes| <= |msg| && msg[pos..pos + |bytes|] == bytes
  {
  }
}

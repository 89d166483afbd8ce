/** The string operations the source takes from Rust's standard library: trim, split, join, lines. */
module Text {
  import opened Results

  /** The white-space characters beyond ASCII. */
  const WIDE_SPACES: set<int> :=
    {0x85, 0xA0, 0x1680, 0x2000, 0x2001, 0x2002, 0x2003, 0x2004, 0x2005, 0x2006, 0x2007, 0x2008, 0x2009, 0x200A,
     0x2028, 0x2029, 0x202F, 0x205F, 0x3000}

  /** Rust's char::is_whitespace (Unicode White_Space). */
  predicate IsSpace(c: char) {
    var n := c as int;
    if n < 0x80 then 9 <= n <= 13 || n == 0x20 else n in WIDE_SPACES
  }

  function TrimStart(s: string): (r: string)
    ensures r == [] || !IsSpace(r[0])
    ensures |r| <= |s| && r == s[|s| - |r|..]
  {
    if s != [] && IsSpace(s[0]) then TrimStart(s[1..]) else s
  }

  function TrimEnd(s: string): (r: string)
    ensures r == [] || !IsSpace(r[|r| - 1])
    ensures |r| <= |s| && r == s[..|r|]
  {
    if s != [] && IsSpace(s[|s| - 1]) then TrimEnd(s[..|s| - 1]) else s
  }

  function Trim(s: string): (r: string)
    ensures Trimmed(r)
  {
    TrimEnd(TrimStart(s))
  }

  predicate Trimmed(s: string) {
    s == [] || (!IsSpace(s[0]) && !IsSpace(s[|s| - 1]))
  }

  lemma TrimOfTrimmed(s: string)
    requires Trimmed(s)
    ensures Trim(s) == s && TrimStart(s) == s && TrimEnd(s) == s
  {
  }

  /** One leading space before a trimmed text goes away. */
  lemma TrimLeadingSpace(s: string)
    requires Trimmed(s)
    ensures Trim([' '] + s) == s
  {
    assert ([' '] + s)[1..] == s;
    assert TrimStart([' '] + s) == TrimStart(s);
  }

  /** trim_end_matches('.'). */
  function TrimDots(s: string): string {
    if s != [] && s[|s| - 1] == '.' then TrimDots(s[..|s| - 1]) else s
  }

  /** Dots behind a text that does not end with one come off, all of them. */
  lemma {:induction false} DotsComeOff(s: string, dots: string)
    requires (s == [] || s[|s| - 1] != '.') && forall i :: 0 <= i < |dots| ==> dots[i] == '.'
    ensures TrimDots(s + dots) == s
    decreases |dots|
  {
    if dots == [] {
      assert s + dots == s;
    } else {
      assert (s + dots)[..|s + dots| - 1] == s + dots[..|dots| - 1];
      DotsComeOff(s, dots[..|dots| - 1]);
    }
  }

  /** Index of the first c, or the length. */
  function Find(s: string, c: char): (i: nat)
    ensures i <= |s|
    ensures forall j :: 0 <= j < i ==> s[j] != c
    ensures i < |s| ==> s[i] == c
  {
    if s == [] then 0
    else if s[0] == c then 0
    else
      var k := Find(s[1..], c);
      assert forall j :: 1 <= j < k + 1 ==> s[j] == s[1..][j - 1];
      1 + k
  }

  lemma FindUnique(s: string, c: char, i: nat)
    requires i <= |s| && (forall j :: 0 <= j < i ==> s[j] != c) && (i < |s| ==> s[i] == c)
    ensures Find(s, c) == i
  {
    var k := Find(s, c);
    if k < i { assert false; }
    if i < k { assert false; }
  }

  /** Find in a concatenation whose first part lacks c and whose second starts with c or is empty. */
  lemma FindAfter(a: string, c: char, b: string)
    requires c !in a && (b == [] || b[0] == c)
    ensures Find(a + b, c) == |a|
  {
    FindUnique(a + b, c, |a|);
  }

  function Split(s: string, c: char): (parts: seq<string>)
    ensures parts != []
    ensures forall i :: 0 <= i < |parts| ==> c !in parts[i]
    decreases |s|
  {
    var i := Find(s, c);
    assert c !in s[..i];
    if i == |s| then [s] else [s[..i]] + Split(s[i + 1..], c)
  }

  function Join(parts: seq<string>, sep: string): string {
    if parts == [] then []
    else if |parts| == 1 then parts[0]
    else parts[0] + sep + Join(parts[1..], sep)
  }

  lemma {:induction false} SplitJoin(parts: seq<string>, c: char)
    requires parts != [] && forall i :: 0 <= i < |parts| ==> c !in parts[i]
    ensures Split(Join(parts, [c]), c) == parts
    decreases |parts|
  {
    var p := parts[0];
    if |parts| == 1 {
      assert p + [] == p;
      FindAfter(p, c, []);
    } else {
      var rest := Join(parts[1..], [c]);
      assert Join(parts, [c]) == p + ([c] + rest);
      FindAfter(p, c, [c] + rest);
      assert (p + ([c] + rest))[..|p|] == p;
      assert (p + ([c] + rest))[|p| + 1..] == rest;
      SplitJoin(parts[1..], c);
    }
  }

  lemma ConcatAssoc<T>(a: seq<T>, b: seq<T>, c: seq<T>)
    ensures a + (b + c) == a + b + c
  {
  }

  function StripCr(s: string): string {
    if s != [] && s[|s| - 1] == '\r' then s[..|s| - 1] else s
  }

  /** Lines ended by LF or CRLF; the last may be unterminated. */
  function Lines(s: string): seq<string>
    decreases |s|
  {
    if s == [] then [] else
      var i := Find(s, '\n');
      if i == |s| then [s] else [StripCr(s[..i])] + Lines(s[i + 1..])
  }

  lemma LinesFirst(line: string, rest: string)
    requires '\n' !in line && (line == [] || line[|line| - 1] != '\r')
    ensures Lines(line + "\n" + rest) == [line] + Lines(rest)
  {
    var s := line + "\n" + rest;
    assert s == line + ("\n" + rest);
    FindAfter(line, '\n', "\n" + rest);
    assert s[..|line|] == line && s[|line| + 1..] == rest;
  }

  /** Position of the first occurrence of a pattern. */
  function FindText(s: string, pat: string): (i: Option<nat>)
    ensures i.Some? ==> i.value + |pat| <= |s|
  {
    if pat <= s then Some(0)
    else if s == [] then None
    else
      var k := FindText(s[1..], pat);
      if k == None then None else Some(k.value + 1)
  }

  function LowerAscii(s: string): (r: string)
    ensures |r| == |s|
  {
    seq(|s|, i requires 0 <= i < |s| => if 'A' <= s[i] <= 'Z' then (s[i] as int + 32) as char else s[i])
  }

  // ----- decimal numbers -----

  predicate AllDigits(s: string) {
    forall i :: 0 <= i < |s| ==> '0' <= s[i] <= '9'
  }

  function Decimal(n: nat): (s: string)
    ensures s != [] && AllDigits(s)
  {
    var d := ['0' + (n % 10) as char];
    if n < 10 then d else Decimal(n / 10) + d
  }

  function DigitsValue(s: string): nat
    requires AllDigits(s)
  {
    if s == [] then 0 else
      10 * DigitsValue(s[..|s| - 1]) + (s[|s| - 1] as int - '0' as int)
  }

  /** Rust's parse of an unsigned integer: digits after an optional plus, at most max. */
  function ParseUnsigned(s: string, max: nat): (n: Option<nat>)
    ensures n.Some? ==> n.value <= max
  {
    var digits := if s != [] && s[0] == '+' then s[1..] else s;
    if digits != [] && AllDigits(digits) && DigitsValue(digits) <= max then Some(DigitsValue(digits)) else None
  }

  lemma {:induction false} DecimalValue(n: nat)
    ensures DigitsValue(Decimal(n)) == n
    decreases n
  {
    if n >= 10 {
      DecimalValue(n / 10);
      var d := ['0' + (n % 10) as char];
      assert (Decimal(n / 10) + d)[..|Decimal(n / 10)|] == Decimal(n / 10);
    }
  }

  /** Numbers are read as written, with or without a plus sign, up to the limit; nothing else is a number. */
  lemma NumbersRead(n: nat, s: string, max: nat)
    ensures ParseUnsigned(Decimal(n), max) == (if n <= max then Some(n) else None)
    ensures ParseUnsigned("+" + Decimal(n), max) == (if n <= max then Some(n) else None)
    ensures (exists i :: 0 <= i < |s| && !('0' <= s[i] <= '9') && !(i == 0 && s[0] == '+')) || s == "" || s == "+" ==>
              ParseUnsigned(s, max) == None
  {
    hide Decimal, DigitsValue;
    DecimalValue(n);
    assert Decimal(n)[0] != '+';
    assert ("+" + Decimal(n))[1..] == Decimal(n);
    if i :| 0 <= i < |s| && !('0' <= s[i] <= '9') && !(i == 0 && s[0] == '+') {
      assert s[0] == '+' ==> s[1..][i - 1] == s[i];
    }
  }
}

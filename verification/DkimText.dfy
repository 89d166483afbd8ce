/** Message text for DKIM: headers and body, folding, and the canonical forms of section 3.4 of RFC 6376. */
module DkimText {
  import opened Text

  predicate IsWsp(c: char) {
    c == ' ' || c == '\t'
  }

  // ----- unfolding and white space -----

  /** Drops every CRLF and every LF. */
  function Unfolded(s: string): string
    decreases |s|
  {
    if s == [] then []
    else if s[0] == '\r' && |s| > 1 && s[1] == '\n' then Unfolded(s[2..])
    else if s[0] == '\n' then Unfolded(s[1..])
    else [s[0]] + Unfolded(s[1..])
  }

  method Unfold(value: string) returns (out: string)
    ensures out == Unfolded(value)
  {
    out := [];
    var i := 0;
    assert value[0..] == value;
    while i < |value|
      invariant 0 <= i <= |value| && out + Unfolded(value[i..]) == Unfolded(value)
    {
      assert value[i..][1..] == value[i + 1..];
      if value[i] == '\r' && i + 1 < |value| && value[i + 1] == '\n' {
        assert value[i..][2..] == value[i + 2..];
        i := i + 2;
        continue;
      }
      if value[i] == '\n' {
        i := i + 1;
        continue;
      }
      assert out + ([value[i]] + Unfolded(value[i + 1..])) == out + [value[i]] + Unfolded(value[i + 1..]);
      out := out + [value[i]];
      i := i + 1;
    }
    assert out + [] == out;
  }

  /** Runs of spaces and tabs become one space. */
  function Collapsed(s: string, prevWsp: bool): string {
    if s == [] then []
    else if IsWsp(s[0]) then (if prevWsp then [] else " ") + Collapsed(s[1..], true)
    else [s[0]] + Collapsed(s[1..], false)
  }

  lemma CollapsedStep(s: string, i: nat, prevWsp: bool)
    requires i < |s|
    ensures var rest := Collapsed(s[i + 1..], IsWsp(s[i]));
            Collapsed(s[i..], prevWsp) == if !IsWsp(s[i]) then [s[i]] + rest else if prevWsp then rest else " " + rest
  {
    assert s[i..][1..] == s[i + 1..];
  }

  method Collapse(s: string) returns (out: string)
    ensures out == Collapsed(s, false)
  {
    out := [];
    var prevWsp := false;
    assert s[0..] == s;
    for i := 0 to |s|
      invariant out + Collapsed(s[i..], prevWsp) == Collapsed(s, false)
    {
      CollapsedStep(s, i, prevWsp);
      ghost var rest := Collapsed(s[i + 1..], IsWsp(s[i]));
      if IsWsp(s[i]) {
        if !prevWsp {
          ConcatAssoc(out, " ", rest);
          out := out + " ";
          prevWsp := true;
        }
      } else {
        ConcatAssoc(out, [s[i]], rest);
        out := out + [s[i]];
        prevWsp := false;
      }
    }
    assert out + [] == out;
  }

  function TrimWspEnd(s: string): (r: string)
    ensures |r| <= |s| && r == s[..|r|]
    ensures r == [] || !IsWsp(r[|r| - 1])
  {
    if s != [] && IsWsp(s[|s| - 1]) then TrimWspEnd(s[..|s| - 1]) else s
  }

  function TrimWspStart(s: string): (r: string)
    ensures |r| <= |s| && r == s[|s| - |r|..]
    ensures r == [] || !IsWsp(r[0])
  {
    if s != [] && IsWsp(s[0]) then TrimWspStart(s[1..]) else s
  }

  // ----- header canonical forms -----

  function NameOf(field: string): string {
    field[..Find(field, ':')]
  }

  function ValueOf(field: string): string {
    var colon := Find(field, ':');
    if colon < |field| then field[colon + 1..] else []
  }

  const CRLF: string := "\r\n"

  function RelaxedHeader(field: string): string {
    Trim(LowerAscii(NameOf(field))) + ":"
    + TrimWspStart(TrimWspEnd(Collapsed(Unfolded(ValueOf(field)), false))) + CRLF
  }

  method CanonicalizeHeaderRelaxed(field: string) returns (out: string)
    ensures out == RelaxedHeader(field)
  {
    var name := Trim(LowerAscii(NameOf(field)));
    var unfolded := Unfold(ValueOf(field));
    var collapsed := Collapse(unfolded);
    out := name + ":" + TrimWspStart(TrimWspEnd(collapsed)) + CRLF;
  }

  function EndsWithCrlf(s: string): bool {
    |s| >= 2 && s[|s| - 2..] == CRLF
  }

  function SimpleHeader(field: string): string {
    var out := Unfolded(field);
    if EndsWithCrlf(out) then out else out + CRLF
  }

  method CanonicalizeHeaderSimple(field: string) returns (out: string)
    ensures out == SimpleHeader(field)
  {
    out := Unfold(field);
    if !EndsWithCrlf(out) { out := out + CRLF; }
  }

  function TrimCrlf(s: string): string {
    if EndsWithCrlf(s) then TrimCrlf(s[..|s| - 2]) else s
  }

  // ----- body canonical forms -----

  /** Lines ended by CRLF or LF, from a partly read line; the last may be unterminated. */
  function BodyLines(s: string, cur: string): seq<string>
    decreases |s|
  {
    if s == [] then (if cur == [] then [] else [cur])
    else if s[0] == '\r' && |s| > 1 && s[1] == '\n' then [cur] + BodyLines(s[2..], [])
    else if s[0] == '\n' then [cur] + BodyLines(s[1..], [])
    else BodyLines(s[1..], cur + [s[0]])
  }

  method SplitBodyLines(body: string) returns (lines: seq<string>)
    ensures lines == BodyLines(body, [])
  {
    lines := [];
    var cur: string, i := [], 0;
    assert body[0..] == body;
    while i < |body|
      invariant 0 <= i <= |body| && lines + BodyLines(body[i..], cur) == BodyLines(body, [])
    {
      assert body[i..][1..] == body[i + 1..];
      if body[i] == '\r' && i + 1 < |body| && body[i + 1] == '\n' {
        assert body[i..][2..] == body[i + 2..];
        assert lines + ([cur] + BodyLines(body[i + 2..], [])) == lines + [cur] + BodyLines(body[i + 2..], []);
        lines, cur, i := lines + [cur], [], i + 2;
      } else if body[i] == '\n' {
        assert lines + ([cur] + BodyLines(body[i + 1..], [])) == lines + [cur] + BodyLines(body[i + 1..], []);
        lines, cur, i := lines + [cur], [], i + 1;
      } else {
        cur, i := cur + [body[i]], i + 1;
      }
    }
    assert lines + [] == lines;
    if cur != [] { lines := lines + [cur]; }
  }

  function DropEmptyEnd(lines: seq<string>): (r: seq<string>)
    ensures |r| <= |lines| && r == lines[..|r|]
    ensures r == [] || r[|r| - 1] != []
  {
    if lines != [] && lines[|lines| - 1] == [] then DropEmptyEnd(lines[..|lines| - 1]) else lines
  }

  function Terminated(lines: seq<string>): string {
    if lines == [] then [] else lines[0] + CRLF + Terminated(lines[1..])
  }

  function RelaxedLine(line: string): string {
    Collapsed(TrimWspEnd(line), false)
  }

  function RelaxedLines(lines: seq<string>): (r: seq<string>)
    ensures |r| == |lines|
  {
    if lines == [] then [] else [RelaxedLine(lines[0])] + RelaxedLines(lines[1..])
  }

  function RelaxedBody(body: string): string {
    Terminated(DropEmptyEnd(RelaxedLines(BodyLines(body, []))))
  }

  function SimpleBody(body: string): string {
    Terminated(DropEmptyEnd(BodyLines(body, [])))
  }

  method WriteLines(lines: seq<string>) returns (out: string)
    ensures out == Terminated(lines)
  {
    out := [];
    assert lines[0..] == lines;
    for i := 0 to |lines|
      invariant out + Terminated(lines[i..]) == Terminated(lines)
    {
      assert lines[i..][1..] == lines[i + 1..];
      assert out + (lines[i] + CRLF + Terminated(lines[i + 1..])) == out + lines[i] + CRLF + Terminated(lines[i + 1..]);
      out := out + lines[i];
      out := out + CRLF;
    }
    assert out + [] == out;
  }

  method PopEmptyEnd(all: seq<string>) returns (lines: seq<string>)
    ensures lines == DropEmptyEnd(all)
  {
    lines := all;
    while lines != [] && lines[|lines| - 1] == []
      invariant DropEmptyEnd(lines) == DropEmptyEnd(all)
      decreases |lines|
    {
      lines := lines[..|lines| - 1];
    }
  }

  method CanonicalizeBodyRelaxed(body: string) returns (out: string)
    ensures out == RelaxedBody(body)
  {
    var lines := SplitBodyLines(body);
    var processed: seq<string> := [];
    assert lines[0..] == lines;
    for i := 0 to |lines|
      invariant processed + RelaxedLines(lines[i..]) == RelaxedLines(lines)
    {
      assert lines[i..][1..] == lines[i + 1..];
      var line := lines[i];
      while line != [] && IsWsp(line[|line| - 1])
        invariant TrimWspEnd(line) == TrimWspEnd(lines[i])
        decreases |line|
      {
        line := line[..|line| - 1];
      }
      var collapsed := Collapse(line);
      assert processed + ([collapsed] + RelaxedLines(lines[i + 1..])) == processed + [collapsed]
            + RelaxedLines(lines[i + 1..]);
      processed := processed + [collapsed];
    }
    assert processed + [] == processed;
    processed := PopEmptyEnd(processed);
    if processed == [] { return []; }
    out := WriteLines(processed);
  }

  method CanonicalizeBodySimple(body: string) returns (out: string)
    ensures out == SimpleBody(body)
  {
    var lines := SplitBodyLines(body);
    lines := PopEmptyEnd(lines);
    if lines == [] { return []; }
    out := WriteLines(lines);
  }

  // ----- the relaxed body is a normal form -----

  lemma {:induction false} CollapsedAgain(s: string, prevWsp: bool)
    ensures Collapsed(Collapsed(s, prevWsp), prevWsp) == Collapsed(s, prevWsp)
    decreases |s|
  {
    if s == [] {
    } else {
      CollapsedAgain(s[1..], IsWsp(s[0]));
      var rest := Collapsed(s[1..], IsWsp(s[0]));
      if IsWsp(s[0]) {
        assert prevWsp ==> [] + rest == rest;
        assert (" " + rest)[1..] == rest;
      } else {
        assert ([s[0]] + rest)[1..] == rest;
      }
    }
  }

  lemma {:induction false} CollapsedLast(s: string, prevWsp: bool)
    requires s != [] && !IsWsp(s[|s| - 1])
    ensures var c := Collapsed(s, prevWsp); c != [] && c[|c| - 1] == s[|s| - 1]
    decreases |s|
  {
    if |s| > 1 {
      CollapsedLast(s[1..], IsWsp(s[0]));
    }
  }

  lemma {:induction false} CollapsedKeepsLf(s: string, prevWsp: bool)
    requires '\n' !in s
    ensures '\n' !in Collapsed(s, prevWsp)
    decreases |s|
  {
    if s == [] {
    } else {
      CollapsedKeepsLf(s[1..], IsWsp(s[0]));
    }
  }

  /** A line without LF whose relaxed form is itself. */
  predicate NormalLine(line: string) {
    '\n' !in line && RelaxedLine(line) == line
  }

  lemma RelaxedLineNormal(line: string)
    requires '\n' !in line
    ensures NormalLine(RelaxedLine(line))
  {
    var t := TrimWspEnd(line);
    CollapsedKeepsLf(t, false);
    CollapsedAgain(t, false);
    if t != [] {
      CollapsedLast(t, false);
    }
  }

  lemma {:induction false} LinesWithoutLf(s: string, cur: string)
    requires '\n' !in cur
    ensures forall i :: 0 <= i < |BodyLines(s, cur)| ==> '\n' !in BodyLines(s, cur)[i]
    decreases |s|
  {
    if s == [] {
    } else if s[0] == '\r' && |s| > 1 && s[1] == '\n' {
      LinesWithoutLf(s[2..], []);
    } else if s[0] == '\n' {
      LinesWithoutLf(s[1..], []);
    } else {
      LinesWithoutLf(s[1..], cur + [s[0]]);
    }
  }

  predicate NormalLines(lines: seq<string>) {
    forall i :: 0 <= i < |lines| ==> NormalLine(lines[i])
  }

  lemma {:induction false} RelaxedLinesNormal(lines: seq<string>)
    requires forall i :: 0 <= i < |lines| ==> '\n' !in lines[i]
    ensures NormalLines(RelaxedLines(lines))
    decreases |lines|
  {
    hide NormalLine, RelaxedLine;
    if lines == [] {
    } else {
      RelaxedLineNormal(lines[0]);
      RelaxedLinesNormal(lines[1..]);
    }
  }

  lemma {:induction false} NormalLinesStay(lines: seq<string>)
    requires NormalLines(lines)
    ensures RelaxedLines(lines) == lines
    decreases |lines|
  {
    hide RelaxedLine;
    if lines == [] {
    } else {
      assert NormalLine(lines[0]);
      NormalLinesStay(lines[1..]);
    }
  }

  /** A terminated line is read back as it was. */
  lemma {:induction false} LineReadBack(line: string, cur: string, rest: string)
    requires '\n' !in line
    ensures BodyLines(line + (CRLF + rest), cur) == [cur + line] + BodyLines(rest, [])
    decreases |line|
  {
    var s := line + (CRLF + rest);
    if line == [] {
      assert s == CRLF + rest && s[2..] == rest && cur + [] == cur;
    } else {
      assert s[1..] == line[1..] + (CRLF + rest);
      assert |s| > 1 && s[1] != '\n';
      LineReadBack(line[1..], cur + [line[0]], rest);
      assert cur + [line[0]] + line[1..] == cur + line;
    }
  }

  lemma {:induction false} LinesReadBack(lines: seq<string>)
    requires NormalLines(lines)
    ensures BodyLines(Terminated(lines), []) == lines
    decreases |lines|
  {
    hide NormalLine;
    if lines == [] {
    } else {
      var rest := Terminated(lines[1..]);
      assert Terminated(lines) == lines[0] + (CRLF + rest);
      assert NormalLine(lines[0]);
      assert '\n' !in lines[0] by { NormalHasNoLf(lines[0]); }
      LineReadBack(lines[0], [], rest);
      assert [] + lines[0] == lines[0];
      LinesReadBack(lines[1..]);
    }
  }

  lemma NormalHasNoLf(line: string)
    requires NormalLine(line)
    ensures '\n' !in line
  {
  }

  /** Canonicalizing a canonical body changes nothing. */
  lemma RelaxedBodyIdempotent(body: string)
    ensures RelaxedBody(RelaxedBody(body)) == RelaxedBody(body)
  {
    var all := RelaxedLines(BodyLines(body, []));
    LinesWithoutLf(body, []);
    RelaxedLinesNormal(BodyLines(body, []));
    hide NormalLine, BodyLines, RelaxedLines, Terminated;
    var lines := DropEmptyEnd(all);
    LinesReadBack(lines);
    NormalLinesStay(lines);
  }

  // ----- header and body of a message -----

  /** Header text and body: cut at the first CRLF CRLF, or failing that at the first LF LF. */
  function SplitText(raw: string): (string, string) {
    var crlf := FindText(raw, "\r\n\r\n");
    if crlf.Some? then (raw[..crlf.value], raw[crlf.value + 4..])
    else
      var lf := FindText(raw, "\n\n");
      if lf.Some? then (raw[..lf.value], raw[lf.value + 2..]) else (raw, [])
  }

  predicate Continues(line: string) {
    line != [] && IsWsp(line[0])
  }

  /** Header fields from lines, continuations kept behind an LF; cur is the field being read. */
  function FieldsFrom(lines: seq<string>, cur: string): seq<string>
    decreases |lines|
  {
    if lines == [] then (if cur == [] then [] else [cur])
    else
      var line := StripCr(lines[0]);
      if line == [] && cur == [] then FieldsFrom(lines[1..], cur)
      else if cur != [] && Continues(line) then FieldsFrom(lines[1..], cur + "\n" + line)
      else (if cur == [] then [] else [cur]) + FieldsFrom(lines[1..], line)
  }

  function Fields(header: string): seq<string> {
    FieldsFrom(Split(header, '\n'), [])
  }

  method ParseHeaderFields(header: string) returns (fields: seq<string>)
    ensures fields == Fields(header)
  {
    fields := [];
    var cur: string := [];
    var lines := Split(header, '\n');
    assert lines[0..] == lines;
    for i := 0 to |lines|
      invariant fields + FieldsFrom(lines[i..], cur) == FieldsFrom(lines, [])
    {
      assert lines[i..][1..] == lines[i + 1..];
      var line := StripCr(lines[i]);
      if line == [] && cur == [] { continue; }
      if cur != [] && Continues(line) {
        cur := cur + "\n";
        cur := cur + line;
      } else {
        ghost var rest := FieldsFrom(lines[i + 1..], line);
        assert fields + ((if cur == [] then [] else [cur]) + rest) == fields + (if cur == [] then [] else [cur]) + rest;
        assert fields + [] == fields;
        if cur != [] { fields := fields + [cur]; }
        cur := line;
      }
    }
    assert fields + [] == fields;
    if cur != [] { fields := fields + [cur]; }
  }

  method SplitMessage(raw: string) returns (headers: seq<string>, body: string)
    ensures headers == Fields(SplitText(raw).0) && body == SplitText(raw).1
  {
    var (header, rest) := SplitText(raw);
    headers := ParseHeaderFields(header);
    body := rest;
  }
}

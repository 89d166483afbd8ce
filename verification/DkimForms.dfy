/** What the canonical forms of section 3.4 of RFC 6376 are, for texts given line by line and word by word. */
module DkimForms {
  import opened Results
  import opened Text
  import opened DkimText

  // ----- words and blanks -----

  predicate Blank(s: string) {
    forall i :: 0 <= i < |s| ==> s[i] == ' ' || s[i] == '\t'
  }

  predicate Word(s: string) {
    s != [] && forall i :: 0 <= i < |s| ==> s[i] != ' ' && s[i] != '\t'
  }

  predicate Parts(blanks: seq<string>, words: seq<string>) {
    |blanks| == |words|
    && (forall i :: 0 <= i < |words| ==> Word(words[i]) && Blank(blanks[i]))
    && (forall i :: 0 < i < |words| ==> blanks[i] != [])
  }

  /** A line: words, the blanks before each, and the blanks behind the last. */
  datatype Spaced = Spaced(blanks: seq<string>, words: seq<string>, tail: string) {
    predicate Valid() {
      Parts(blanks, words) && Blank(tail)
    }

    function Text(): string
      requires |blanks| == |words|
    {
      Spread(blanks, words) + tail
    }
  }

  function Spread(blanks: seq<string>, words: seq<string>): string
    requires |blanks| == |words|
  {
    if words == [] then [] else blanks[0] + words[0] + Spread(blanks[1..], words[1..])
  }

  lemma {:induction false} CollapsedBlank(b: string, rest: string, prev: bool)
    requires Blank(b)
    ensures Collapsed(b + rest, prev)
         == (if b == [] || prev then [] else " ") + Collapsed(rest, prev || b != [])
    decreases |b|
  {
    if b == [] {
      assert b + rest == rest && [] + Collapsed(rest, prev) == Collapsed(rest, prev);
    } else {
      assert (b + rest)[0] == b[0] && (b + rest)[1..] == b[1..] + rest;
      CollapsedBlank(b[1..], rest, true);
      assert [] + Collapsed(rest, true) == Collapsed(rest, true);
    }
  }

  lemma {:induction false} CollapsedWord(w: string, rest: string, prev: bool)
    requires Word(w)
    ensures Collapsed(w + rest, prev) == w + Collapsed(rest, false)
    decreases |w|
  {
    assert (w + rest)[0] == w[0] && (w + rest)[1..] == w[1..] + rest;
    if |w| == 1 {
      assert w[1..] + rest == rest && w == [w[0]];
    } else {
      CollapsedWord(w[1..], rest, false);
      assert [w[0]] + (w[1..] + Collapsed(rest, false)) == w + Collapsed(rest, false);
    }
  }

  /** Words with one space before each but possibly the first. */
  function Spaces(leading: bool, words: seq<string>): string
    decreases |words|
  {
    if words == [] then [] else (if leading then " " else "") + words[0] + Spaces(true, words[1..])
  }

  lemma {:induction false} SpacesJoin(leading: bool, words: seq<string>)
    requires words != []
    ensures Spaces(leading, words) == (if leading then " " else "") + Join(words, " ")
    decreases |words|
  {
    if |words| == 1 {
      assert words[0] + [] == words[0];
    } else {
      SpacesJoin(true, words[1..]);
    }
  }

  lemma {:induction false} CollapsedSpread(blanks: seq<string>, words: seq<string>, tail: string)
    requires Parts(blanks, words) && words != [] && Blank(tail)
    ensures Collapsed(Spread(blanks, words) + tail, false)
         == Spaces(blanks[0] != [], words) + (if tail == [] then "" else " ")
    decreases |words|
  {
    hide Blank, Word, Collapsed;
    var b, w, rest := blanks[0], words[0], Spread(blanks[1..], words[1..]) + tail;
    var last := if tail == [] then "" else " ";
    SpreadStep(blanks, words, tail);
    CollapsedBlank(b, w + rest, false);
    CollapsedWord(w, rest, b != []);
    if |words| == 1 {
      assert rest == tail + [];
      CollapsedBlank(tail, [], false);
      NothingCollapsed(tail != []);
      assert Collapsed(rest, false) == [] + last;
    } else {
      CollapsedSpread(blanks[1..], words[1..], tail);
      assert Collapsed(rest, false) == Spaces(true, words[1..]) + last;
    }
    SpacesStep(b != [], words, last);
  }

  lemma SpreadStep(blanks: seq<string>, words: seq<string>, tail: string)
    requires |blanks| == |words| > 0
    ensures Spread(blanks, words) + tail == blanks[0] + (words[0] + (Spread(blanks[1..], words[1..]) + tail))
  {
  }

  lemma SpacesStep(leading: bool, words: seq<string>, last: string)
    requires words != []
    ensures Spaces(leading, words) + last
         == (if leading then " " else "") + (words[0] + (Spaces(true, words[1..]) + last))
  {
  }

  lemma NothingCollapsed(prev: bool)
    ensures Collapsed([], prev) == []
  {
  }

  lemma {:induction false} TrimTail(s: string, tail: string)
    requires Blank(tail) && (s == [] || !IsWsp(s[|s| - 1]))
    ensures TrimWspEnd(s + tail) == s
    decreases |tail|
  {
    if tail == [] {
      assert s + tail == s;
    } else {
      assert (s + tail)[..|s + tail| - 1] == s + tail[..|tail| - 1];
      TrimTail(s, tail[..|tail| - 1]);
    }
  }

  lemma {:induction false} SpreadEnds(blanks: seq<string>, words: seq<string>)
    requires Parts(blanks, words) && words != []
    ensures var s := Spread(blanks, words); s != [] && !IsWsp(s[|s| - 1])
    decreases |words|
  {
    if |words| > 1 {
      SpreadEnds(blanks[1..], words[1..]);
    }
  }

  /** A line in relaxed form: its words with one space between, one before the first if any was there, none behind. */
  lemma RelaxedLineForm(l: Spaced)
    requires l.Valid()
    ensures RelaxedLine(l.Text())
         == if l.words == [] then "" else (if l.blanks[0] == [] then "" else " ") + Join(l.words, " ")
  {
    hide Collapsed, TrimWspEnd, Blank, Word;
    var s := Spread(l.blanks, l.words);
    if l.words == [] {
      TrimTail([], l.tail);
      NothingCollapsed(false);
    } else {
      SpreadEnds(l.blanks, l.words);
      TrimTail(s, l.tail);
      NoBlank();
      CollapsedSpread(l.blanks, l.words, []);
      SpacesJoin(l.blanks[0] != [], l.words);
      assert s + [] == s;
    }
  }

  lemma NoBlank()
    ensures Blank([])
  {
  }

  lemma {:induction false} SpacesEnd(leading: bool, words: seq<string>)
    requires words != [] && forall i :: 0 <= i < |words| ==> Word(words[i])
    ensures var s := Spaces(leading, words); s != [] && !IsWsp(s[|s| - 1])
    ensures !IsWsp(Spaces(false, words)[0])
    decreases |words|
  {
    if |words| > 1 {
      SpacesEnd(true, words[1..]);
    }
  }

  /** A value in relaxed form: its words with one space between. */
  lemma RelaxedValueForm(l: Spaced)
    requires l.Valid()
    ensures TrimWspStart(TrimWspEnd(Collapsed(l.Text(), false))) == Join(l.words, " ")
  {
    hide Collapsed, TrimWspEnd, Blank, Word, Spaces;
    if l.words == [] {
      assert Spread(l.blanks, l.words) + l.tail == l.tail + [];
      CollapsedBlank(l.tail, [], false);
      NothingCollapsed(true);
      NothingCollapsed(false);
      OneSpace();
      TrimTail([], if l.tail == [] then "" else " ");
    } else {
      var lead := l.blanks[0] != [];
      CollapsedSpread(l.blanks, l.words, l.tail);
      SpacesEnd(lead, l.words);
      OneSpace();
      TrimTail(Spaces(lead, l.words), if l.tail == [] then "" else " ");
      SpacesJoin(lead, l.words);
      SpacesJoin(false, l.words);
      SpacesEnd(false, l.words);
      LeadOff(lead, Join(l.words, " "));
      assert Spaces(lead, l.words) == (if lead then " " else "") + Join(l.words, " ");
      assert Spaces(false, l.words) == Join(l.words, " ");
    }
  }

  lemma OneSpace()
    ensures Blank(" ") && Blank("")
  {
  }

  lemma LeadOff(lead: bool, s: string)
    requires s == [] || !IsWsp(s[0])
    ensures TrimWspStart((if lead then " " else "") + s) == s
  {
    if lead {
      assert (" " + s)[1..] == s;
    } else {
      assert "" + s == s;
    }
  }

  // ----- lines and their ends -----

  predicate LineEnd(e: string) {
    e == "\r\n" || e == "\n"
  }

  /** A line without LF in it; one that ends with CR has CR LF behind it. */
  predicate Bounded(line: string, end: string) {
    LineEnd(end) && '\n' !in line && (end == "\n" && line != [] ==> line[|line| - 1] != '\r')
  }

  predicate AllBounded(lines: seq<string>, ends: seq<string>) {
    |ends| == |lines| && forall i :: 0 <= i < |lines| ==> Bounded(lines[i], ends[i])
  }

  function Ended(lines: seq<string>, ends: seq<string>): string
    requires |ends| == |lines|
  {
    if lines == [] then [] else lines[0] + ends[0] + Ended(lines[1..], ends[1..])
  }

  function Crlfs(n: nat): seq<string> {
    seq(n, _ => "\r\n")
  }

  function Flat(lines: seq<string>): string {
    if lines == [] then [] else lines[0] + Flat(lines[1..])
  }

  lemma {:induction false} LineRead(line: string, end: string, cur: string, rest: string)
    requires Bounded(line, end)
    ensures BodyLines(line + (end + rest), cur) == [cur + line] + BodyLines(rest, [])
    decreases |line|
  {
    var s := line + (end + rest);
    if line == [] {
      assert s == end + rest && cur + [] == cur;
      if end == "\n" {
        assert s[0] == '\n' && s[1..] == rest;
      } else {
        assert s[0] == '\r' && s[1] == '\n' && s[2..] == rest;
      }
    } else {
      assert s[0] == line[0] && s[1..] == line[1..] + (end + rest);
      assert |line| > 1 ==> s[1] == line[1];
      LineRead(line[1..], end, cur + [line[0]], rest);
      assert cur + [line[0]] + line[1..] == cur + line;
    }
  }

  lemma {:induction false} LastRead(last: string, cur: string)
    requires '\n' !in last
    ensures BodyLines(last, cur) == if cur + last == [] then [] else [cur + last]
    decreases |last|
  {
    if last == [] {
      assert cur + last == cur;
    } else {
      LastRead(last[1..], cur + [last[0]]);
      assert cur + [last[0]] + last[1..] == cur + last;
    }
  }

  /** The lines of a text, the last one without an end. */
  function AllLines(lines: seq<string>, last: string): seq<string> {
    lines + if last == [] then [] else [last]
  }

  lemma {:induction false} LinesRead(lines: seq<string>, ends: seq<string>, last: string)
    requires AllBounded(lines, ends) && '\n' !in last
    ensures BodyLines(Ended(lines, ends) + last, []) == AllLines(lines, last)
    decreases |lines|
  {
    hide Bounded;
    if lines == [] {
      LastRead(last, []);
      assert [] + last == last;
    } else {
      var rest := Ended(lines[1..], ends[1..]) + last;
      assert Ended(lines, ends) + last == lines[0] + (ends[0] + rest);
      LineRead(lines[0], ends[0], [], rest);
      assert [] + lines[0] == lines[0];
      LinesRead(lines[1..], ends[1..], last);
    }
  }

  lemma {:induction false} TerminatedIs(lines: seq<string>)
    ensures Terminated(lines) == Ended(lines, Crlfs(|lines|))
    decreases |lines|
  {
    if lines == [] {
    } else {
      assert Crlfs(|lines|)[1..] == Crlfs(|lines| - 1);
      TerminatedIs(lines[1..]);
    }
  }

  lemma {:induction false} EmptyEndDropped(lines: seq<string>, k: nat)
    requires k <= |lines| && (k > 0 ==> lines[k - 1] != []) && forall i :: k <= i < |lines| ==> lines[i] == []
    ensures DropEmptyEnd(lines) == lines[..k]
    decreases |lines|
  {
    if k == |lines| {
      assert lines[..k] == lines;
    } else {
      EmptyEndDropped(lines[..|lines| - 1], k);
      assert lines[..|lines| - 1][..k] == lines[..k];
    }
  }

  /** The simple form: every line with CR LF behind it, up to the last that is not empty. */
  lemma SimpleForm(lines: seq<string>, ends: seq<string>, last: string, k: nat)
    requires AllBounded(lines, ends) && '\n' !in last
    requires var all := AllLines(lines, last);
             k <= |all| && (k > 0 ==> all[k - 1] != []) && forall i :: k <= i < |all| ==> all[i] == []
    ensures SimpleBody(Ended(lines, ends) + last) == Ended(AllLines(lines, last)[..k], Crlfs(k))
  {
    hide BodyLines, Bounded, Ended, Terminated, DropEmptyEnd;
    LinesRead(lines, ends, last);
    EmptyEndDropped(AllLines(lines, last), k);
    TerminatedIs(AllLines(lines, last)[..k]);
  }

  lemma {:induction false} EachRelaxed(lines: seq<string>)
    ensures |RelaxedLines(lines)| == |lines|
    ensures forall i :: 0 <= i < |lines| ==> RelaxedLines(lines)[i] == RelaxedLine(lines[i])
    decreases |lines|
  {
    hide RelaxedLine;
    if lines == [] {
    } else {
      EachRelaxed(lines[1..]);
    }
  }

  /** The relaxed form: every line with its words one space apart and CR LF behind it, up to the last with a word. */
  lemma RelaxedForm(lines: seq<string>, ends: seq<string>, last: string, shape: seq<Spaced>, k: nat)
    requires AllBounded(lines, ends) && '\n' !in last && |shape| == |AllLines(lines, last)|
    requires forall i :: 0 <= i < |shape| ==> shape[i].Valid() && shape[i].Text() == AllLines(lines, last)[i]
    requires k <= |shape| && (k > 0 ==> shape[k - 1].words != [])
    requires forall i :: k <= i < |shape| ==> shape[i].words == []
    ensures RelaxedBody(Ended(lines, ends) + last)
         == Ended(seq(k, i requires 0 <= i < k => SpacedForm(shape[i])), Crlfs(k))
  {
    hide BodyLines, Bounded, Ended, Terminated, DropEmptyEnd, RelaxedLine, SpacedForm, Spaced.Text, Spaced.Valid;
    var all := AllLines(lines, last);
    LinesRead(lines, ends, last);
    EachRelaxed(all);
    forall i | 0 <= i < |all| ensures RelaxedLines(all)[i] == SpacedForm(shape[i]) {
      RelaxedLineForm(shape[i]);
      SpacedFormIs(shape[i]);
    }
    forall i | 0 <= i < |all| ensures SpacedForm(shape[i]) == [] <==> shape[i].words == [] {
      SpacedFormEmpty(shape[i]);
    }
    EmptyEndDropped(RelaxedLines(all), k);
    var kept := seq(k, i requires 0 <= i < k => SpacedForm(shape[i]));
    assert RelaxedLines(all)[..k] == kept;
    TerminatedIs(kept);
  }

  function SpacedForm(l: Spaced): string {
    if l.words == [] || l.blanks == [] then "" else (if l.blanks[0] == [] then "" else " ") + Join(l.words, " ")
  }

  lemma SpacedFormIs(l: Spaced)
    requires l.Valid()
    ensures SpacedForm(l)
         == if l.words == [] then "" else (if l.blanks[0] == [] then "" else " ") + Join(l.words, " ")
  {
    hide Join, Blank, Word;
  }

  lemma SpacedFormEmpty(l: Spaced)
    requires l.Valid()
    ensures SpacedForm(l) == [] <==> l.words == []
  {
    hide Blank;
  }

  // ----- header fields -----

  lemma {:induction false} UnfoldedLine(line: string, end: string, rest: string)
    requires Bounded(line, end)
    ensures Unfolded(line + (end + rest)) == line + Unfolded(rest)
    decreases |line|
  {
    var s := line + (end + rest);
    if line == [] {
      assert s == end + rest && [] + Unfolded(rest) == Unfolded(rest);
      if end == "\n" {
        assert s[0] == '\n' && s[1..] == rest;
      } else {
        assert s[0] == '\r' && s[1] == '\n' && s[2..] == rest;
      }
    } else {
      assert s[0] == line[0] && s[1..] == line[1..] + (end + rest);
      assert |line| > 1 ==> s[1] == line[1];
      UnfoldedLine(line[1..], end, rest);
      assert [line[0]] + (line[1..] + Unfolded(rest)) == line + Unfolded(rest);
    }
  }

  lemma {:induction false} UnfoldedLast(last: string)
    requires '\n' !in last
    ensures Unfolded(last) == last
    decreases |last|
  {
    if last != [] {
      UnfoldedLast(last[1..]);
    }
  }

  /** Unfolding takes out the line ends and nothing else. */
  lemma {:induction false} UnfoldedForm(lines: seq<string>, ends: seq<string>, last: string)
    requires AllBounded(lines, ends) && '\n' !in last
    ensures Unfolded(Ended(lines, ends) + last) == Flat(lines) + last
    decreases |lines|
  {
    hide Bounded;
    if lines == [] {
      UnfoldedLast(last);
      assert Ended(lines, ends) + last == last && Flat(lines) + last == last;
    } else {
      var rest := Ended(lines[1..], ends[1..]) + last;
      assert Ended(lines, ends) + last == lines[0] + (ends[0] + rest);
      UnfoldedLine(lines[0], ends[0], rest);
      UnfoldedForm(lines[1..], ends[1..], last);
    }
  }

  /** A field in relaxed form: the name in lower case, a colon, the words of the value one space apart, CR LF. */
  lemma RelaxedFieldForm(name: string, lines: seq<string>, ends: seq<string>, last: string, shape: Spaced)
    requires ':' !in name && AllBounded(lines, ends) && '\n' !in last
    requires shape.Valid() && shape.Text() == Flat(lines) + last
    ensures RelaxedHeader(name + (":" + (Ended(lines, ends) + last)))
         == Trim(LowerAscii(name)) + ":" + Join(shape.words, " ") + "\r\n"
  {
    hide Ended, Flat, Bounded, Spaced.Valid, Spaced.Text, Unfolded, Collapsed, Join;
    UnfoldedForm(lines, ends, last);
    RelaxedValueForm(shape);
    hide Find, NameOf, ValueOf, TrimWspStart, TrimWspEnd, Trim, LowerAscii;
    FieldParts(name, Ended(lines, ends) + last);
  }

  lemma FieldParts(name: string, value: string)
    requires ':' !in name
    ensures NameOf(name + (":" + value)) == name && ValueOf(name + (":" + value)) == value
  {
    var field := name + (":" + value);
    FindAfter(name, ':', ":" + value);
    assert field[..|name|] == name && field[|name| + 1..] == value;
  }

  /** A field in simple form: unfolded, with CR LF behind it. */
  lemma SimpleFieldForm(lines: seq<string>, ends: seq<string>, last: string)
    requires AllBounded(lines, ends) && '\n' !in last
    ensures SimpleHeader(Ended(lines, ends) + last) == Flat(lines) + last + "\r\n"
  {
    hide Ended, Unfolded;
    UnfoldedForm(lines, ends, last);
    NoLfLeft(lines, last);
    NoCrlfEnd(Flat(lines) + last);
  }

  lemma NoCrlfEnd(s: string)
    requires '\n' !in s
    ensures !EndsWithCrlf(s)
  {
    if |s| >= 2 { assert s[|s| - 2..][1] == s[|s| - 1]; }
  }

  lemma {:induction false} NoLfLeft(lines: seq<string>, last: string)
    requires (forall i :: 0 <= i < |lines| ==> '\n' !in lines[i]) && '\n' !in last
    ensures '\n' !in Flat(lines) + last
    decreases |lines|
  {
    if lines == [] {
    } else {
      NoLfLeft(lines[1..], last);
    }
  }

  // ----- a whole message -----

  predicate Plain(line: string) {
    forall i :: 0 <= i < |line| ==> line[i] != '\r' && line[i] != '\n'
  }

  /** A field: a line that does not begin with a blank, and continuation lines that do. */
  predicate FieldLines(lines: seq<string>) {
    lines != [] && lines[0] != [] && !IsWsp(lines[0][0])
    && (forall i :: 0 <= i < |lines| ==> Plain(lines[i]))
    && forall i :: 0 < i < |lines| ==> lines[i] != [] && IsWsp(lines[i][0])
  }

  predicate AllFields(fields: seq<seq<string>>) {
    forall i :: 0 <= i < |fields| ==> FieldLines(fields[i])
  }

  function LinesOf(fields: seq<seq<string>>): seq<string> {
    if fields == [] then [] else fields[0] + LinesOf(fields[1..])
  }

  /** The fields as the parser returns them: continuation lines behind an LF. */
  function FieldTexts(fields: seq<seq<string>>): seq<string> {
    if fields == [] then [] else [Join(fields[0], "\n")] + FieldTexts(fields[1..])
  }

  /** The same lines, each with or without a CR behind it. */
  predicate Stripped(raw: seq<string>, lines: seq<string>) {
    |raw| == |lines| && forall i :: 0 <= i < |raw| ==> StripCr(raw[i]) == lines[i]
  }

  function Folded(lines: seq<string>): string {
    if lines == [] then [] else "\n" + lines[0] + Folded(lines[1..])
  }

  lemma {:induction false} FoldedJoin(first: string, more: seq<string>)
    ensures first + Folded(more) == Join([first] + more, "\n")
    decreases |more|
  {
    assert ([first] + more)[1..] == more;
    if more == [] {
      assert first + [] == first && [first] + more == [first];
    } else {
      FoldedJoin(more[0], more[1..]);
      assert [more[0]] + more[1..] == more;
      assert first + Folded(more) == first + "\n" + (more[0] + Folded(more[1..]));
    }
  }

  lemma {:induction false} Continued(raw: seq<string>, lines: seq<string>, rest: seq<string>, cur: string)
    requires Stripped(raw, lines) && cur != [] && forall i :: 0 <= i < |lines| ==> Continues(lines[i])
    ensures FieldsFrom(raw + rest, cur) == FieldsFrom(rest, cur + Folded(lines))
    decreases |raw|
  {
    hide StripCr;
    if raw == [] {
      assert raw + rest == rest && cur + [] == cur;
    } else {
      assert (raw + rest)[0] == raw[0] && (raw + rest)[1..] == raw[1..] + rest;
      Continued(raw[1..], lines[1..], rest, cur + "\n" + lines[0]);
      assert cur + "\n" + lines[0] + Folded(lines[1..]) == cur + Folded(lines);
    }
  }

  lemma StartsNew(first: string, line: string, rest: seq<string>, cur: string)
    requires StripCr(first) == line && line != [] && !Continues(line)
    ensures FieldsFrom([first] + rest, cur) == (if cur == [] then [] else [cur]) + FieldsFrom(rest, line)
  {
    hide StripCr;
    assert ([first] + rest)[0] == first && ([first] + rest)[1..] == rest;
  }

  /** Fields are read one by one. */
  lemma {:induction false} FieldsRead(fields: seq<seq<string>>, raw: seq<string>, cur: string)
    requires AllFields(fields) && Stripped(raw, LinesOf(fields))
    ensures FieldsFrom(raw, cur) == (if cur == [] then [] else [cur]) + FieldTexts(fields)
    decreases |fields|
  {
    hide StripCr, Plain;
    if fields == [] {
      assert (if cur == [] then [] else [cur]) + [] == if cur == [] then [] else [cur];
    } else {
      assert FieldLines(fields[0]);
      var n := |fields[0]|;
      var lines, head, more := fields[0], raw[..n], raw[n..];
      assert LinesOf(fields)[..n] == lines && LinesOf(fields)[n..] == LinesOf(fields[1..]);
      forall i | 0 <= i < n ensures StripCr(head[i]) == lines[i] {
        assert raw[i] == head[i] && LinesOf(fields)[i] == lines[i];
      }
      forall i | 0 <= i < |more| ensures StripCr(more[i]) == LinesOf(fields[1..])[i] {
        assert more[i] == raw[n + i] && LinesOf(fields[1..])[i] == LinesOf(fields)[n + i];
      }
      assert raw == [head[0]] + (head[1..] + more);
      StartsNew(head[0], lines[0], head[1..] + more, cur);
      Continued(head[1..], lines[1..], more, lines[0]);
      FoldedJoin(lines[0], lines[1..]);
      assert [lines[0]] + lines[1..] == lines;
      hide FieldsFrom, Join, Folded;
      assert lines[0] + Folded(lines[1..]) == Join(lines, "\n") != [];
      FieldsRead(fields[1..], more, Join(lines, "\n"));
      assert (if cur == [] then [] else [cur]) + ([Join(lines, "\n")] + FieldTexts(fields[1..]))
          == (if cur == [] then [] else [cur]) + FieldTexts(fields);
    }
  }

  // ----- header and body -----

  lemma SplitOne(line: string)
    requires Plain(line)
    ensures Split(line, '\n') == [line] && StripCr(line) == line
  {
    FindUnique(line, '\n', |line|);
  }

  lemma SplitNext(line: string, rest: string)
    requires Plain(line)
    ensures Split(line + "\r\n" + rest, '\n') == [line + "\r"] + Split(rest, '\n') && StripCr(line + "\r") == line
  {
    var head := line + "\r";
    var t := head + ("\n" + rest);
    assert line + "\r\n" + rest == t;
    FindAfter(head, '\n', "\n" + rest);
    assert t[..|head|] == head && t[|head| + 1..] == rest && head[..|line|] == line;
  }

  lemma {:induction false} SplitCrlf(lines: seq<string>)
    requires lines != [] && forall i :: 0 <= i < |lines| ==> Plain(lines[i])
    ensures Stripped(Split(Join(lines, "\r\n"), '\n'), lines)
    decreases |lines|
  {
    hide Split, StripCr, Plain;
    if |lines| == 1 {
      SplitOne(lines[0]);
    } else {
      SplitNext(lines[0], Join(lines[1..], "\r\n"));
      SplitCrlf(lines[1..]);
    }
  }

  lemma NotPrefix(pat: string, s: string, i: nat)
    requires i < |pat| && i < |s| && s[i] != pat[i]
    ensures !(pat <= s)
  {
  }

  lemma NextPlace(pat: string, s: string)
    requires s != [] && !(pat <= s) && FindText(s[1..], pat).Some?
    ensures FindText(s, pat) == Some(FindText(s[1..], pat).value + 1)
  {
  }

  /** Scanning for the empty line passes over a line and its end. */
  lemma {:induction false} PassLine(line: string, rest: string)
    requires Plain(line) && rest != [] && rest[0] != '\r' && FindText(rest, "\r\n\r\n").Some?
    ensures FindText(line + ("\r\n" + rest), "\r\n\r\n") == Some(|line| + 2 + FindText(rest, "\r\n\r\n").value)
    decreases |line|
  {
    hide FindText;
    var pat := "\r\n\r\n";
    var s := line + ("\r\n" + rest);
    if line == [] {
      assert s == "\r\n" + rest && s[2] == rest[0] && s[1..] == "\n" + rest && s[1..][1..] == rest;
      NotPrefix(pat, s, 2);
      NotPrefix(pat, s[1..], 0);
      NextPlace(pat, s[1..]);
      NextPlace(pat, s);
    } else {
      assert s[0] == line[0] && s[1..] == line[1..] + ("\r\n" + rest);
      NotPrefix(pat, s, 0);
      PassLine(line[1..], rest);
      NextPlace(pat, s);
    }
  }

  lemma {:induction false} FoundBehind(line: string, body: string)
    requires Plain(line)
    ensures FindText(line + ("\r\n\r\n" + body), "\r\n\r\n") == Some(|line|)
    decreases |line|
  {
    var pat := "\r\n\r\n";
    var s := line + (pat + body);
    if line == [] {
      assert s == pat + body && s[..4] == pat;
    } else {
      assert s[0] == line[0] && s[1..] == line[1..] + (pat + body);
      NotPrefix(pat, s, 0);
      FoundBehind(line[1..], body);
    }
  }

  lemma {:induction false} HeaderEnds(lines: seq<string>, body: string)
    requires lines != [] && forall i :: 0 <= i < |lines| ==> Plain(lines[i]) && lines[i] != []
    ensures FindText(Join(lines, "\r\n") + ("\r\n\r\n" + body), "\r\n\r\n") == Some(|Join(lines, "\r\n")|)
    decreases |lines|
  {
    var line := lines[0];
    if |lines| == 1 {
      FoundBehind(line, body);
    } else {
      var rest := Join(lines[1..], "\r\n") + ("\r\n\r\n" + body);
      HeaderEnds(lines[1..], body);
      assert Join(lines[1..], "\r\n")[0] == lines[1][0];
      assert rest[0] == lines[1][0];
      assert Join(lines, "\r\n") + ("\r\n\r\n" + body) == line + ("\r\n" + rest);
      PassLine(line, rest);
    }
  }

  lemma {:induction false} FieldLinesNonEmpty(fields: seq<seq<string>>)
    requires AllFields(fields)
    ensures forall i :: 0 <= i < |LinesOf(fields)| ==> Plain(LinesOf(fields)[i]) && LinesOf(fields)[i] != []
    decreases |fields|
  {
    if fields == [] {
    } else {
      assert FieldLines(fields[0]);
      FieldLinesNonEmpty(fields[1..]);
    }
  }

  /** A message of header fields, an empty line and a body is taken apart into just these. */
  lemma MessageForm(fields: seq<seq<string>>, body: string)
    requires AllFields(fields) && fields != []
    ensures var raw := Join(LinesOf(fields), "\r\n") + ("\r\n\r\n" + body);
            Fields(SplitText(raw).0) == FieldTexts(fields) && SplitText(raw).1 == body
  {
    hide Split, Join, FieldsFrom, FindText, FieldTexts;
    var lines := LinesOf(fields);
    assert FieldLines(fields[0]);
    FieldLinesNonEmpty(fields);
    HeaderEnds(lines, body);
    var head := Join(lines, "\r\n");
    var raw := head + ("\r\n\r\n" + body);
    assert raw[..|head|] == head && raw[|head| + 4..] == body;
    SplitCrlf(lines);
    FieldsRead(fields, Split(head, '\n'), []);
    assert [] + FieldTexts(fields) == FieldTexts(fields);
  }
}

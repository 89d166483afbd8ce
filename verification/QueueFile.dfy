/** The on-disk form of a queued message (src/queue.rs): written by enqueue and rewrite, read by load. */
module QueueFile {
  import opened Results
  import opened Text

  datatype QueueMessage = QueueMessage(
    id: string, sender: string, recipients: seq<string>,
    retryCount: nat, nextAttempt: nat, created: nat, raw: string)

  datatype LoadError = MissingSeparator

  const SEPARATOR: string := "\n---\n"
  const MAX_U32: nat := 0xFFFF_FFFF
  const MAX_U64: nat := 0xFFFF_FFFF_FFFF_FFFF

  // ----- numbers in fields -----

  /** parse with unwrap_or(0). */
  function ParseOrZero(s: string, max: nat): (n: nat)
    ensures n <= max
  {
    var n := ParseUnsigned(s, max);
    if n.Some? then n.value else 0
  }

  lemma DecimalReadBack(n: nat, max: nat)
    requires n <= max
    ensures ParseOrZero(Decimal(n), max) == n
    ensures CleanField(Decimal(n))
  {
    DecimalValue(n);
  }

  // ----- writing -----

  function Line(name: string, value: string): string {
    name + ": " + value
  }

  datatype Key = Id | Sender | Recipients | RetryCount | NextAttempt | Created

  function NameOf(k: Key): string {
    match k
    case Id => "id"
    case Sender => "sender"
    case Recipients => "recipients"
    case RetryCount => "retry_count"
    case NextAttempt => "next_attempt"
    case Created => "created"
  }

  function HeaderLines(m: QueueMessage): seq<string> {
    [Line(NameOf(Id), m.id), Line(NameOf(Sender), m.sender), Line(NameOf(Recipients), Join(m.recipients, ",")),
     Line(NameOf(RetryCount), Decimal(m.retryCount)), Line(NameOf(NextAttempt), Decimal(m.nextAttempt)),
     Line(NameOf(Created), Decimal(m.created))]
  }

  /** What enqueue and rewrite_message put in the file. */
  function Serialize(m: QueueMessage): string {
    Join(HeaderLines(m), "\n") + (SEPARATOR + m.raw)
  }

  /** The file, line by line: six named fields, a line of three hyphens, the message. */
  lemma FileLayout(m: QueueMessage)
    ensures Serialize(m)
         == Join(["id: " + m.id, "sender: " + m.sender, "recipients: " + Join(m.recipients, ","),
                  "retry_count: " + Decimal(m.retryCount), "next_attempt: " + Decimal(m.nextAttempt),
                  "created: " + Decimal(m.created)], "\n")
            + ("\n---\n" + m.raw)
  {
    hide Decimal, Join;
    assert "id" + ": " == "id: " && "sender" + ": " == "sender: " && "recipients" + ": " == "recipients: ";
    assert "retry_count" + ": " == "retry_count: " && "next_attempt" + ": " == "next_attempt: ";
    assert "created" + ": " == "created: ";
  }

  // ----- reading -----

  /** Key and value of a header line; None for an empty line or one without a colon. */
  function ParseLine(line: string): Option<(string, string)> {
    var l := Trim(line);
    var colon := Find(l, ':');
    if l == [] || colon == |l| then None
    else Some((LowerAscii(Trim(l[..colon])), Trim(l[colon + 1..])))
  }

  function NonEmptyTrimmed(parts: seq<string>): (r: seq<string>)
    ensures forall x :: x in r ==> x != [] && Trimmed(x)
  {
    if parts == [] then [] else
      var t := Trim(parts[0]);
      (if t == [] then [] else [t]) + NonEmptyTrimmed(parts[1..])
  }

  function ParseRecipients(val: string): seq<string> {
    NonEmptyTrimmed(Split(val, ','))
  }

  function KeyOf(name: string): Option<Key> {
    if name == NameOf(Id) then Some(Id)
    else if name == NameOf(Sender) then Some(Sender)
    else if name == NameOf(Recipients) then Some(Recipients)
    else if name == NameOf(RetryCount) then Some(RetryCount)
    else if name == NameOf(NextAttempt) then Some(NextAttempt)
    else if name == NameOf(Created) then Some(Created)
    else None
  }

  function Apply(m: QueueMessage, key: Key, val: string): QueueMessage {
    match key
    case Id => m.(id := val)
    case Sender => m.(sender := val)
    case Recipients => m.(recipients := ParseRecipients(val))
    case RetryCount => m.(retryCount := ParseOrZero(val, MAX_U32))
    case NextAttempt => m.(nextAttempt := ParseOrZero(val, MAX_U64))
    case Created => m.(created := ParseOrZero(val, MAX_U64))
  }

  /** Unknown keys, empty lines and lines without a colon change nothing. */
  function ApplyLine(m: QueueMessage, line: string): QueueMessage {
    var kv := ParseLine(line);
    if kv == None then m else
      var key := KeyOf(kv.value.0);
      if key == None then m else Apply(m, key.value, kv.value.1)
  }

  function ApplyLines(m: QueueMessage, lines: seq<string>): QueueMessage
    decreases |lines|
  {
    if lines == [] then m else ApplyLines(ApplyLine(m, lines[0]), lines[1..])
  }

  const BLANK := QueueMessage([], [], [], 0, 0, 0, [])

  /** The message a file stands for; an empty id is replaced by the file's stem. */
  function Loaded(content: string, stem: string): Result<QueueMessage, LoadError> {
    var sep := FindText(content, SEPARATOR);
    if sep == None then Err(MissingSeparator)
    else Ok(FromParts(Lines(content[..sep.value]), content[sep.value + |SEPARATOR|..], stem))
  }

  function FromParts(lines: seq<string>, raw: string, stem: string): QueueMessage {
    var m := ApplyLines(BLANK, lines).(raw := raw);
    if m.id == [] then m.(id := stem) else m
  }

  /** load_message. */
  method LoadMessage(content: string, stem: string) returns (r: Result<QueueMessage, LoadError>)
    ensures r == Loaded(content, stem)
  {
    var sep := FindText(content, SEPARATOR);
    if sep == None { return Err(MissingSeparator); }
    var m := ReadHeader(Lines(content[..sep.value]));
    m := m.(raw := content[sep.value + |SEPARATOR|..]);
    if m.id == [] { m := m.(id := stem); }
    r := Ok(m);
  }

  method ReadHeader(lines: seq<string>) returns (m: QueueMessage)
    ensures m == ApplyLines(BLANK, lines)
  {
    hide KeyOf, ParseLine, Apply;
    m := BLANK;
    var i := 0;
    assert lines[0..] == lines;
    while i < |lines|
      invariant 0 <= i <= |lines|
      invariant ApplyLines(m, lines[i..]) == ApplyLines(BLANK, lines)
    {
      assert lines[i..][0] == lines[i] && lines[i..][1..] == lines[i + 1..];
      var kv := ParseLine(lines[i]);
      if kv.Some? {
        var key := KeyOf(kv.value.0);
        if key.Some? { m := Apply(m, key.value, kv.value.1); }
      }
      i := i + 1;
    }
  }

  // ----- what survives the file -----

  /** A value that stays on its line and has no space at its edges. */
  predicate CleanField(s: string) {
    Trimmed(s) && '\n' !in s
  }

  /** What a command line can carry: no line end. */
  predicate OneLine(s: string) {
    '\n' !in s
  }

  predicate OneLines(rs: seq<string>) {
    forall i :: 0 <= i < |rs| ==> OneLine(rs[i])
  }

  /** An address that survives the comma-joined list. */
  predicate CleanAddress(s: string) {
    s != [] && CleanField(s) && ',' !in s
  }

  predicate CleanAddresses(rs: seq<string>) {
    forall i :: 0 <= i < |rs| ==> CleanAddress(rs[i])
  }

  predicate KeyName(name: string) {
    name != [] && forall i :: 0 <= i < |name| ==> 'a' <= name[i] <= 'z' || name[i] == '_'
  }

  lemma KeyNameStable(name: string)
    requires KeyName(name)
    ensures Trimmed(name) && LowerAscii(name) == name && ':' !in name && '\n' !in name
  {
  }

  ghost predicate AllSpace(s: string) {
    forall i :: 0 <= i < |s| ==> IsSpace(s[i])
  }

  lemma {:induction false} TrimStartSplits(s: string) returns (pre: string)
    ensures s == pre + TrimStart(s) && AllSpace(pre)
    decreases |s|
  {
    hide IsSpace;
    if s == [] || !IsSpace(s[0]) {
      pre := [];
    } else {
      var rest := TrimStartSplits(s[1..]);
      pre := [s[0]] + rest;
    }
  }

  lemma {:induction false} TrimEndSplits(s: string) returns (post: string)
    ensures s == TrimEnd(s) + post && AllSpace(post)
    decreases |s|
  {
    hide IsSpace;
    if s == [] || !IsSpace(s[|s| - 1]) {
      post := [];
    } else {
      var rest := TrimEndSplits(s[..|s| - 1]);
      post := rest + [s[|s| - 1]];
    }
  }

  lemma {:induction false} TrimStartOf(pre: string, s: string)
    requires AllSpace(pre)
    ensures TrimStart(pre + s) == TrimStart(s)
    decreases |pre|
  {
    hide IsSpace;
    if pre == [] {
      assert pre + s == s;
    } else {
      assert (pre + s)[1..] == pre[1..] + s;
      TrimStartOf(pre[1..], s);
    }
  }

  lemma {:induction false} TrimEndOf(s: string, post: string)
    requires AllSpace(post)
    ensures TrimEnd(s + post) == TrimEnd(s)
    decreases |post|
  {
    hide IsSpace;
    if post == [] {
      assert s + post == s;
    } else {
      assert (s + post)[..|s + post| - 1] == s + post[..|post| - 1];
      TrimEndOf(s, post[..|post| - 1]);
    }
  }

  lemma StartsTrimmed(t: string, post: string)
    requires t != [] && !IsSpace(t[0])
    ensures TrimStart(t + post) == t + post
  {
    hide IsSpace;
    assert (t + post)[0] == t[0];
  }

  /** White space around a text without any at its edges is what trim takes off. */
  lemma TrimPadded(pre: string, t: string, post: string)
    requires AllSpace(pre) && AllSpace(post) && Trimmed(t)
    ensures Trim(pre + t + post) == t
  {
    hide AllSpace, IsSpace, TrimStart, TrimEnd;
    assert pre + t + post == pre + (t + post);
    TrimStartOf(pre, t + post);
    TrimOfTrimmed(t);
    if t == [] {
      assert t + post == post + [];
      TrimStartOf(post, []);
    } else {
      StartsTrimmed(t, post);
      TrimEndOf(t, post);
    }
  }

  lemma TrimSplits(s: string) returns (pre: string, post: string)
    ensures s == pre + Trim(s) + post && AllSpace(pre) && AllSpace(post)
  {
    hide IsSpace, AllSpace, TrimStart, TrimEnd;
    pre := TrimStartSplits(s);
    post := TrimEndSplits(TrimStart(s));
    assert pre + (Trim(s) + post) == pre + Trim(s) + post;
  }

  /** A line end that is white space may be missing. */
  lemma CrIsSpace(head: string, post: string) returns (post': string)
    requires AllSpace(post) && head != [] && head[|head| - 1] != '\r'
    ensures StripCr(head + post) == head + post' && AllSpace(post')
  {
    hide IsSpace;
    if post == [] {
      assert head + post == head;
      post' := [];
    } else if post[|post| - 1] == '\r' {
      post' := post[..|post| - 1];
      assert (head + post)[..|head + post| - 1] == head + post';
    } else {
      assert (head + post)[|head + post| - 1] == post[|post| - 1];
      post' := post;
    }
  }

  lemma ParsePadded(name: string, pre: string, t: string, post: string)
    requires KeyName(name) && AllSpace(pre) && AllSpace(post) && Trimmed(t)
    ensures ParseLine(name + ":" + pre + t + post) == Some((name, t))
  {
    hide IsSpace, Trim, LowerAscii, ParseLine, AllSpace;
    KeyNameStable(name);
    var tail := if t == [] then ":" else ":" + pre + t;
    var core := name + tail;
    assert core[0] == name[0] && core[|core| - 1] == if t == [] then ':' else t[|t| - 1];
    ColonNoSpace();
    var line := name + ":" + pre + t + post;
    if t == [] {
      AllSpaceConcat(pre, post);
      assert line == [] + core + (pre + post);
      TrimPadded([], core, pre + post);
    } else {
      assert line == [] + core + post;
      TrimPadded([], core, post);
    }
    ColonSplits(line, name, tail);
    TrimOfTrimmed(name);
    assert tail[1..] == if t == [] then [] else pre + t + [];
    if t == [] { TrimOfTrimmed(t); } else { TrimPadded(pre, t, []); }
  }

  lemma ColonNoSpace()
    ensures !IsSpace(':') && IsSpace(' ') && AllSpace([]) && IsSpace('\r')
  {
  }

  lemma AllSpaceConcat(a: string, b: string)
    requires AllSpace(a) && AllSpace(b)
    ensures AllSpace(a + b)
  {
    hide IsSpace;
  }

  /** A written line reads back as its key and its trimmed value, with or without a carriage return at its end. */
  lemma ParseOwnLine(name: string, v: string)
    requires KeyName(name)
    ensures ParseLine(Line(name, v)) == Some((name, Trim(v)))
    ensures ParseLine(StripCr(Line(name, v))) == Some((name, Trim(v)))
  {
    hide IsSpace, Trim, ParseLine, AllSpace, KeyName, StripCr;
    var pre, post := TrimSplits(v);
    var t := Trim(v);
    var l := Line(name, v);
    ColonNoSpace();
    OneSpace(pre);
    assert l == name + ":" + ([' '] + pre) + t + post;
    ParsePadded(name, [' '] + pre, t, post);
    if t == [] {
      AllSpaceConcat([' '] + pre, post);
      var sp := ([' '] + pre) + post;
      assert l == (name + ":") + sp;
      var sp' := CrIsSpace(name + ":", sp);
      assert StripCr(l) == name + ":" + [] + [] + sp';
      ParsePadded(name, [], [], sp');
    } else {
      var head := name + ":" + ([' '] + pre) + t;
      assert l == head + post && head[|head| - 1] == t[|t| - 1];
      var post' := CrIsSpace(head, post);
      ParsePadded(name, [' '] + pre, t, post');
    }
  }

  lemma OneSpace(pre: string)
    requires AllSpace(pre)
    ensures AllSpace([' '] + pre)
  {
  }

  lemma ColonSplits(line: string, name: string, tail: string)
    requires Trim(line) == name + tail && ':' !in name && tail != [] && tail[0] == ':'
    ensures ParseLine(line) == Some((LowerAscii(Trim(name)), Trim(tail[1..])))
  {
    FindAfter(name, ':', tail);
    hide Trim, LowerAscii, Find;
    assert (name + tail)[..|name|] == name && (name + tail)[|name| + 1..] == tail[1..];
  }

  lemma {:induction false} JoinOneLine(rs: seq<string>)
    requires OneLines(rs)
    ensures OneLine(Join(rs, ","))
    decreases |rs|
  {
    if |rs| > 1 {
      JoinOneLine(rs[1..]);
    }
  }

  lemma {:induction false} JoinClean(rs: seq<string>)
    requires CleanAddresses(rs)
    ensures Trimmed(Join(rs, ","))
    ensures rs != [] ==> Join(rs, ",") != [] && Join(rs, ",")[0] == rs[0][0]
    decreases |rs|
  {
    if rs == [] {
    } else {
      JoinClean(rs[1..]);
    }
  }

  lemma {:induction false} KeepsClean(rs: seq<string>)
    requires CleanAddresses(rs)
    ensures NonEmptyTrimmed(rs) == rs
    decreases |rs|
  {
    hide Trim;
    if rs == [] {
    } else {
      TrimOfTrimmed(rs[0]);
      KeepsClean(rs[1..]);
    }
  }

  /** The recipients a list becomes when it is written and loaded. */
  function ReadBack(rs: seq<string>): seq<string> {
    ParseRecipients(Trim(Join(rs, ",")))
  }

  lemma RecipientsReadBack(rs: seq<string>)
    requires CleanAddresses(rs)
    ensures ReadBack(rs) == rs
  {
    JoinClean(rs);
    TrimOfTrimmed(Join(rs, ","));
    if rs == [] {
      assert Split([], ',') == [[]];
      assert Trim([]) == [];
      assert NonEmptyTrimmed([[]]) == [] + NonEmptyTrimmed([[]][1..]);
    } else {
      assert forall i :: 0 <= i < |rs| ==> ',' !in rs[i];
      SplitJoin(rs, ',');
      KeepsClean(rs);
    }
  }

  /** Whatever list was written, the addresses read back are clean ones. */
  lemma ReadBackIsClean(rs: seq<string>)
    requires OneLines(rs)
    ensures CleanAddresses(ReadBack(rs))
  {
    hide CleanAddresses, ParseRecipients, CleanField;
    JoinOneLine(rs);
    TrimIsClean(Join(rs, ","));
    RecipientsClean(Trim(Join(rs, ",")));
  }

  lemma TrimIsClean(s: string)
    requires OneLine(s)
    ensures CleanField(Trim(s))
  {
    TrimKeeps(s, '\n');
  }

  predicate HeaderLine(l: string) {
    l != [] && '\n' !in l && l[0] != '-'
  }

  /** No line of the header starts the separator early. */
  lemma {:induction false} SeparatorAfterHeader(lines: seq<string>, raw: string)
    requires lines != [] && forall i :: 0 <= i < |lines| ==> HeaderLine(lines[i])
    ensures FindText(Join(lines, "\n") + (SEPARATOR + raw), SEPARATOR) == Some(|Join(lines, "\n")|)
    decreases |lines|
  {
    var line := lines[0];
    if |lines| == 1 {
      FindHere(raw);
      SkipLine(line, SEPARATOR + raw);
    } else {
      var rest := Join(lines[1..], "\n") + (SEPARATOR + raw);
      SeparatorAfterHeader(lines[1..], raw);
      assert rest[0] == lines[1][0];
      NotYet(rest);
      SkipLine(line, "\n" + rest);
      assert Join(lines, "\n") + (SEPARATOR + raw) == line + ("\n" + rest);
    }
  }

  lemma FindHere(raw: string)
    ensures FindText(SEPARATOR + raw, SEPARATOR) == Some(0)
  {
    assert (SEPARATOR + raw)[..|SEPARATOR|] == SEPARATOR;
  }

  lemma NotYet(rest: string)
    requires rest != [] && rest[0] != '-' && FindText(rest, SEPARATOR).Some?
    ensures FindText("\n" + rest, SEPARATOR) == Some(1 + FindText(rest, SEPARATOR).value)
  {
    assert ("\n" + rest)[1] == rest[0] && ("\n" + rest)[1..] == rest;
    assert SEPARATOR[1] == '-';
    if SEPARATOR <= "\n" + rest { assert false; }
  }

  /** Scanning passes over text without a newline. */
  lemma {:induction false} SkipLine(line: string, rest: string)
    requires '\n' !in line && FindText(rest, SEPARATOR).Some?
    ensures FindText(line + rest, SEPARATOR) == Some(|line| + FindText(rest, SEPARATOR).value)
    decreases |line|
  {
    if line == [] {
      assert line + rest == rest;
    } else {
      assert (line + rest)[0] != SEPARATOR[0];
      assert (line + rest)[1..] == line[1..] + rest;
      SkipLine(line[1..], rest);
    }
  }

  /** lines() takes one carriage return off every line but the last. */
  function StrippedLines(lines: seq<string>): seq<string> {
    if |lines| <= 1 then lines else [StripCr(lines[0])] + StrippedLines(lines[1..])
  }

  lemma {:induction false} LinesOfJoin(lines: seq<string>)
    requires lines != [] && forall i :: 0 <= i < |lines| ==> HeaderLine(lines[i])
    ensures Lines(Join(lines, "\n")) == StrippedLines(lines)
    decreases |lines|
  {
    var line := lines[0];
    if |lines| == 1 {
      FindUnique(line, '\n', |line|);
    } else {
      LinesOfJoin(lines[1..]);
      LineThenRest(line, Join(lines[1..], "\n"));
    }
  }

  lemma LineThenRest(line: string, rest: string)
    requires '\n' !in line
    ensures Lines(line + "\n" + rest) == [StripCr(line)] + Lines(rest)
  {
    var s := line + "\n" + rest;
    assert s == line + ("\n" + rest);
    FindAfter(line, '\n', "\n" + rest);
    assert s[..|line|] == line && s[|line| + 1..] == rest;
  }

  /** What enqueue is given: numbers in range, texts of one line. */
  predicate Writable(m: QueueMessage) {
    OneLine(m.id) && OneLine(m.sender) && OneLines(m.recipients)
    && m.retryCount <= MAX_U32 && m.nextAttempt <= MAX_U64 && m.created <= MAX_U64
  }

  /** The message a written one comes back as: texts trimmed, the recipient list cut at every comma. */
  function AsRead(m: QueueMessage, stem: string): QueueMessage {
    m.(id := if Trim(m.id) == [] then stem else Trim(m.id), sender := Trim(m.sender),
          recipients := ReadBack(m.recipients))
  }

  predicate FitsFile(m: QueueMessage) {
    m.id != [] && CleanField(m.id) && CleanField(m.sender)
    && m.retryCount <= MAX_U32 && m.nextAttempt <= MAX_U64 && m.created <= MAX_U64
  }

  lemma NamesAreKeys(k: Key)
    ensures KeyName(NameOf(k)) && KeyOf(NameOf(k)) == Some(k)
  {
    match k
    case Id =>
    case Sender => assert NameOf(k)[0] == 's';
    case Recipients => assert NameOf(k)[2] == 'c';
    case RetryCount =>
    case NextAttempt =>
    case Created =>
  }

  lemma OwnLine(m: QueueMessage, k: Key, v: string)
    requires OneLine(v)
    ensures ApplyLine(m, Line(NameOf(k), v)) == Apply(m, k, Trim(v))
    ensures ApplyLine(m, StripCr(Line(NameOf(k), v))) == Apply(m, k, Trim(v))
    ensures HeaderLine(Line(NameOf(k), v))
  {
    hide ParseLine, NameOf, KeyOf, Line, HeaderLine, KeyName, Apply, OneLine, StripCr, Trim;
    NamesAreKeys(k);
    ParseOwnLine(NameOf(k), v);
    LineShape(NameOf(k), v);
  }

  lemma LineShape(name: string, v: string)
    requires KeyName(name) && OneLine(v)
    ensures HeaderLine(Line(name, v))
  {
  }

  /** A number comes back as itself. */
  lemma OwnNumber(m: QueueMessage, k: Key, n: nat, max: nat)
    requires n <= max
    ensures ApplyLine(m, Line(NameOf(k), Decimal(n))) == Apply(m, k, Decimal(n))
    ensures ApplyLine(m, StripCr(Line(NameOf(k), Decimal(n)))) == Apply(m, k, Decimal(n))
    ensures HeaderLine(Line(NameOf(k), Decimal(n))) && ParseOrZero(Decimal(n), max) == n
  {
    hide ApplyLine, Apply, NameOf, Line, HeaderLine, Decimal, ParseOrZero, StripCr;
    DecimalReadBack(n, max);
    TrimOfTrimmed(Decimal(n));
    OwnLine(m, k, Decimal(n));
  }

  lemma OwnHeader(m: QueueMessage)
    requires Writable(m)
    ensures |HeaderLines(m)| == 6 && forall i :: 0 <= i < 6 ==> HeaderLine(HeaderLines(m)[i])
    ensures ApplyLines(BLANK, StrippedLines(HeaderLines(m)))
         == m.(id := Trim(m.id), sender := Trim(m.sender), recipients := ReadBack(m.recipients), raw := [])
  {
    hide ApplyLine, NameOf, Line, HeaderLine, Decimal, ParseOrZero, ParseRecipients, ApplyLines, Join, Trim, OneLine,
         StrippedLines;
    JoinOneLine(m.recipients);
    OwnLine(BLANK, Id, m.id);
    var m1 := BLANK.(id := Trim(m.id));
    OwnLine(m1, Sender, m.sender);
    var m2 := m1.(sender := Trim(m.sender));
    OwnLine(m2, Recipients, Join(m.recipients, ","));
    var m3 := m2.(recipients := ReadBack(m.recipients));
    OwnNumber(m3, RetryCount, m.retryCount, MAX_U32);
    var m4 := m3.(retryCount := m.retryCount);
    OwnNumber(m4, NextAttempt, m.nextAttempt, MAX_U64);
    var m5 := m4.(nextAttempt := m.nextAttempt);
    OwnNumber(m5, Created, m.created, MAX_U64);
    SixLines(BLANK, HeaderLines(m));
  }

  lemma SixLines(m: QueueMessage, ls: seq<string>)
    requires |ls| == 6
    ensures ApplyLines(m, StrippedLines(ls))
         == ApplyLine(ApplyLine(ApplyLine(ApplyLine(ApplyLine(ApplyLine(m,
              StripCr(ls[0])), StripCr(ls[1])), StripCr(ls[2])), StripCr(ls[3])), StripCr(ls[4])), ls[5])
  {
    hide ApplyLine, StripCr;
    var a := ApplyLine(m, StripCr(ls[0]));
    var b := ApplyLine(a, StripCr(ls[1]));
    var c := ApplyLine(b, StripCr(ls[2]));
    var d := ApplyLine(c, StripCr(ls[3]));
    var e := ApplyLine(d, StripCr(ls[4]));
    OneMore(m, ls, 0);
    OneMore(a, ls, 1);
    OneMore(b, ls, 2);
    OneMore(c, ls, 3);
    OneMore(d, ls, 4);
    OneMore(e, ls, 5);
    assert ls[0..] == ls;
  }

  lemma OneMore(m: QueueMessage, ls: seq<string>, i: nat)
    requires i < |ls|
    ensures i + 1 < |ls| ==>
              ApplyLines(m, StrippedLines(ls[i..]))
                    == ApplyLines(ApplyLine(m, StripCr(ls[i])), StrippedLines(ls[i + 1..]))
    ensures i + 1 == |ls| ==> ApplyLines(m, StrippedLines(ls[i..])) == ApplyLine(m, ls[i])
  {
    hide ApplyLine, StripCr;
    assert ls[i..][0] == ls[i] && ls[i..][1..] == ls[i + 1..];
    if i + 1 < |ls| {
      var rest := StrippedLines(ls[i + 1..]);
      assert ([StripCr(ls[i])] + rest)[1..] == rest;
    } else {
      assert ls[i..] == [ls[i]] && [ls[i]][1..] == [];
    }
  }

  /** What any written message is loaded as. */
  lemma FileReads(m: QueueMessage, stem: string)
    requires Writable(m)
    ensures Loaded(Serialize(m), stem) == Ok(AsRead(m, stem))
  {
    hide ApplyLines, FindText, Lines, HeaderLines, HeaderLine, Join, ReadBack, Trim, OneLine, OneLines, StrippedLines;
    OwnHeader(m);
    FileParts(HeaderLines(m), m.raw);
    assert FromParts(StrippedLines(HeaderLines(m)), m.raw, stem) == AsRead(m, stem);
  }

  /** A message with clean fields is read back as it was written. */
  lemma FileRoundTrip(m: QueueMessage, stem: string)
    requires FitsFile(m) && CleanAddresses(m.recipients)
    ensures Loaded(Serialize(m), stem) == Ok(m)
  {
    CleanIsWritable(m);
    hide *;
    FileReads(m, stem);
    RecipientsReadBack(m.recipients);
    AsReadClean(m, stem);
  }

  lemma CleanIsWritable(m: QueueMessage)
    requires FitsFile(m) && CleanAddresses(m.recipients)
    ensures Writable(m) && m.id != [] && Trimmed(m.id) && Trimmed(m.sender)
  {
    hide Trimmed;
  }

  lemma AsReadClean(m: QueueMessage, stem: string)
    requires m.id != [] && Trimmed(m.id) && Trimmed(m.sender) && ReadBack(m.recipients) == m.recipients
    ensures AsRead(m, stem) == m
  {
    hide Trim, Trimmed, ReadBack;
    TrimOfTrimmed(m.id);
    TrimOfTrimmed(m.sender);
  }

  lemma FileParts(lines: seq<string>, raw: string)
    requires lines != [] && forall i :: 0 <= i < |lines| ==> HeaderLine(lines[i])
    ensures var content := Join(lines, "\n") + (SEPARATOR + raw);
            var sep := FindText(content, SEPARATOR);
            sep.Some? && Lines(content[..sep.value]) == StrippedLines(lines) && content[sep.value + |SEPARATOR|..]
                  == raw
  {
    SeparatorAfterHeader(lines, raw);
    LinesOfJoin(lines);
    hide FindText, Lines, HeaderLine, StrippedLines;
    var head := Join(lines, "\n");
    var content := head + (SEPARATOR + raw);
    assert content[..|head|] == head;
    assert content[|head| + |SEPARATOR|..] == raw;
  }

  /** Whatever a file holds, the recipients read from it are clean. */
  lemma LoadedIsClean(content: string, stem: string)
    requires Loaded(content, stem).Ok? && stem != [] && CleanField(stem)
    ensures CleanAddresses(Loaded(content, stem).value.recipients) && FitsFile(Loaded(content, stem).value)
  {
    var sep := FindText(content, SEPARATOR).value;
    LinesClean(content[..sep]);
    ApplyLinesClean(BLANK, Lines(content[..sep]));
  }

  ghost predicate CleanMessage(m: QueueMessage) {
    CleanAddresses(m.recipients) && CleanField(m.id) && CleanField(m.sender)
    && m.retryCount <= MAX_U32 && m.nextAttempt <= MAX_U64 && m.created <= MAX_U64
  }

  lemma {:induction false} LinesClean(s: string)
    ensures forall i :: 0 <= i < |Lines(s)| ==> '\n' !in Lines(s)[i]
    decreases |s|
  {
    if s == [] {
    } else {
      var i := Find(s, '\n');
      if i < |s| { LinesClean(s[i + 1..]); }
    }
  }

  lemma {:induction false} ApplyLinesClean(m: QueueMessage, lines: seq<string>)
    requires CleanMessage(m) && forall i :: 0 <= i < |lines| ==> '\n' !in lines[i]
    ensures CleanMessage(ApplyLines(m, lines))
    decreases |lines|
  {
    hide ApplyLine, CleanMessage;
    if lines == [] {
    } else {
      ApplyLineClean(m, lines[0]);
      ApplyLinesClean(ApplyLine(m, lines[0]), lines[1..]);
    }
  }

  lemma ApplyLineClean(m: QueueMessage, line: string)
    requires CleanMessage(m) && '\n' !in line
    ensures CleanMessage(ApplyLine(m, line))
  {
    hide ParseLine, KeyOf, Apply, CleanMessage;
    ParsedValueClean(line);
    var kv := ParseLine(line);
    if kv.Some? {
      var key := KeyOf(kv.value.0);
      if key.Some? { ApplyClean(m, key.value, kv.value.1); }
    }
  }

  lemma ApplyClean(m: QueueMessage, key: Key, val: string)
    requires CleanMessage(m) && CleanField(val)
    ensures CleanMessage(Apply(m, key, val))
  {
    hide CleanAddresses, ParseRecipients, CleanField, ParseOrZero;
    RecipientsClean(val);
  }

  lemma ParsedValueClean(line: string)
    requires '\n' !in line
    ensures ParseLine(line).Some? ==> CleanField(ParseLine(line).value.1)
  {
    hide LowerAscii;
    var l := Trim(line);
    TrimKeeps(line, '\n');
    if Find(l, ':') < |l| { TrimKeeps(l[Find(l, ':') + 1..], '\n'); }
  }

  /** Trimming brings in no new character. */
  lemma TrimKeeps(s: string, c: char)
    ensures c !in s ==> c !in Trim(s)
  {
    var a := TrimStart(s);
    assert a == s[|s| - |a|..];
  }

  lemma RecipientsClean(val: string)
    requires CleanField(val)
    ensures CleanAddresses(ParseRecipients(val))
  {
    SplitKeeps(val, ',', '\n');
    FilterClean(Split(val, ','));
  }

  lemma {:induction false} SplitKeeps(s: string, sep: char, c: char)
    requires c !in s
    ensures forall i :: 0 <= i < |Split(s, sep)| ==> c !in Split(s, sep)[i]
    decreases |s|
  {
    var i := Find(s, sep);
    if i < |s| { SplitKeeps(s[i + 1..], sep, c); }
  }

  lemma {:induction false} FilterClean(parts: seq<string>)
    requires forall i :: 0 <= i < |parts| ==> '\n' !in parts[i] && ',' !in parts[i]
    ensures CleanAddresses(NonEmptyTrimmed(parts))
    decreases |parts|
  {
    hide Trim;
    if parts == [] {
    } else {
      TrimKeeps(parts[0], '\n');
      TrimKeeps(parts[0], ',');
      FilterClean(parts[1..]);
    }
  }

  /** The recipient list survives the file exactly when every address is clean. */
  lemma RecipientsSurviveIffClean(m: QueueMessage, stem: string)
    requires Writable(m)
    ensures CleanAddresses(m.recipients)
       <==> Loaded(Serialize(m), stem).Ok? && Loaded(Serialize(m), stem).value.recipients == m.recipients
  {
    hide Loaded, Serialize, ReadBack, CleanAddresses;
    FileReads(m, stem);
    ReadBackIsClean(m.recipients);
    if CleanAddresses(m.recipients) { RecipientsReadBack(m.recipients); }
  }

  /** A comma inside one address makes two of it: the list read back is longer. */
  lemma CommaSplitsAnAddress()
    ensures ReadBack(["\"a,b\"@x.org"]) == ["\"a", "b\"@x.org"]
  {
    var a, b := "\"a", "b\"@x.org";
    var joined := "\"a,b\"@x.org";
    assert joined == a + "," + b;
    TwoFromComma(a, b);
    assert Join([joined], ",") == joined;
  }

  lemma TwoFromComma(a: string, b: string)
    requires CleanAddress(a) && CleanAddress(b)
    ensures ParseRecipients(Trim(a + "," + b)) == [a, b]
  {
    hide CleanAddress, Trim, ParseRecipients;
    RecipientsReadBack([a, b]);
    assert [a, b][1..] == [b];
    assert Join([b], ",") == b;
  }
}

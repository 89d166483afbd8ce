/** Dot transparency (section 4.5.2 of RFC 5321): the sender's stuffing and the receiver's DATA loop. */
module DataLoop {
  import opened Results
  import opened Octets
  import opened Utf8

  const LF: Byte := 10
  const CR: Byte := 13
  const DOT: Byte := 46
  const CRLF: seq<Byte> := [CR, LF]
  const MAX_LINE_BYTES: nat := 0x10_0000

  datatype LineError = TooLong | NotUtf8

  // ----- lines of a byte stream, as values -----

  /** Bytes up to and including the first LF; all of them if there is none. */
  function LineLen(s: seq<Byte>): (n: nat)
    ensures n <= |s|
    ensures s != [] ==> n > 0
    ensures forall i :: 0 <= i < n - 1 ==> s[i] != LF
    ensures n < |s| ==> s[n - 1] == LF
    ensures n > 0 && s[n - 1] != LF ==> n == |s|
  {
    if s == [] then 0 else if s[0] == LF then 1 else
      var k := LineLen(s[1..]);
      assert forall i :: 1 <= i < k ==> s[i] == s[1..][i - 1];
      if k == 0 then 1 else k + 1
  }

  function StripCr(s: seq<Byte>): seq<Byte> {
    if s != [] && s[|s| - 1] == CR then s[..|s| - 1] else s
  }

  /** The line without its CRLF or LF. */
  function StripEol(s: seq<Byte>): seq<Byte> {
    if s != [] && s[|s| - 1] == LF then StripCr(s[..|s| - 1]) else s
  }

  /** What read_line yields, by the bytes ahead alone. */
  function NextLine(s: seq<Byte>): Result<Option<seq<Byte>>, LineError> {
    if s == [] then Ok(None)
    else if LineLen(s) > MAX_LINE_BYTES then Err(TooLong)
    else if !ValidUtf8(s[..LineLen(s)]) then Err(NotUtf8)
    else Ok(Some(StripEol(s[..LineLen(s)])))
  }

  // ----- the buffered reader -----

  function Concat(chunks: seq<seq<Byte>>): seq<Byte> {
    if chunks == [] then [] else chunks[0] + Concat(chunks[1..])
  }

  /** A buffered reader: the stream arrives in chunks that fill_buf exposes one at a time. */
  class Reader {
    var chunks: seq<seq<Byte>>

    constructor (chunks: seq<seq<Byte>>)
      requires forall i :: 0 <= i < |chunks| ==> chunks[i] != []
      ensures this.chunks == chunks && Valid()
    {
      this.chunks := chunks;
    }

    predicate Valid()
      reads this
    {
      forall i :: 0 <= i < |chunks| ==> chunks[i] != []
    }

    function Ahead(): seq<Byte>
      reads this
    {
      Concat(chunks)
    }

    /** fill_buf: the buffered bytes, empty only at the end of the stream. */
    function FillBuf(): (a: seq<Byte>)
      reads this
      requires Valid()
      ensures a <= Ahead() && (a == [] ==> Ahead() == [])
    {
      if chunks == [] then [] else chunks[0]
    }

    method Consume(n: nat)
      requires Valid() && n <= |FillBuf()|
      modifies this
      ensures Valid() && Ahead() == old(Ahead())[n..]
      ensures n > 0 && n == |old(FillBuf())| ==> |chunks| == |old(chunks)| - 1
      ensures |chunks| <= |old(chunks)|
    {
      if chunks != [] {
        var c := chunks[0];
        assert Concat(chunks) == c + Concat(chunks[1..]);
        if n == |c| {
          chunks := chunks[1..];
        } else {
          chunks := [c[n..]] + chunks[1..];
          assert chunks[1..] == old(chunks)[1..];
        }
      }
    }
  }

  function PositionOfLf(s: seq<Byte>): (p: Option<nat>)
    ensures p.None? ==> LineLen(s) == |s| && LF !in s
    ensures p.Some? ==> p.value < |s| && s[p.value] == LF && LineLen(s) == p.value + 1
  {
    var n := LineLen(s);
    if n > 0 && s[n - 1] == LF then Some(n - 1) else None
  }

  lemma LineLenAcross(a: seq<Byte>, b: seq<Byte>)
    requires LF !in a
    ensures LineLen(a + b) == |a| + LineLen(b)
  {
    LineLenUnique(a + b, |a| + LineLen(b));
  }

  lemma LineLenUnique(s: seq<Byte>, n: nat)
    requires n <= |s| && (s != [] ==> n > 0) && (forall i :: 0 <= i < n - 1 ==> s[i] != LF)
    requires n > 0 && s[n - 1] != LF ==> n == |s|
    ensures LineLen(s) == n
  {
    var k := LineLen(s);
    if k < n { assert false; }
    if n < k { assert false; }
  }

  datatype Status = AtEnd | GotLine | LineTooLong | NeedMore

  /** One turn of read_line's loop; s is the line's stream from its first byte on. */
  method ReadPiece(r: Reader, buf: seq<Byte>, ghost s: seq<Byte>) returns (status: Status, buf': seq<Byte>)
    requires r.Valid() && s == buf + r.Ahead() && LF !in buf && |buf| <= MAX_LINE_BYTES
    modifies r
    ensures r.Valid()
    ensures match status
            case AtEnd => s == buf == buf' && r.Ahead() == []
            case GotLine => buf' == s[..LineLen(s)] && r.Ahead() == s[LineLen(s)..] && 0 < LineLen(s) <= MAX_LINE_BYTES
            case LineTooLong => LineLen(s) > MAX_LINE_BYTES
            case NeedMore => s == buf' + r.Ahead() && LF !in buf' && |buf'| <= MAX_LINE_BYTES
                             && |r.chunks| < |old(r.chunks)|
  {
    hide LineLen, PositionOfLf, Concat;
    buf' := buf;
    var available := r.FillBuf();
    if available == [] {
      assert s == buf;
      return AtEnd, buf;
    }
    ghost var ahead := r.Ahead();
    LineLenAcross(buf, ahead);
    FirstPiece(available, ahead);
    match PositionOfLf(available)
    case Some(pos) =>
      r.Consume(pos + 1);
      if |buf| + pos + 1 > MAX_LINE_BYTES { return LineTooLong, buf; }
      assert available[..pos + 1] == ahead[..pos + 1];
      buf' := buf + available[..pos + 1];
      Cut(buf, ahead, pos + 1);
      status := GotLine;
    case None =>
      r.Consume(|available|);
      if |buf| + |available| > MAX_LINE_BYTES { return LineTooLong, buf; }
      buf' := buf + available;
      assert buf + (available + ahead[|available|..]) == buf' + ahead[|available|..];
      status := NeedMore;
  }

  lemma Cut(a: seq<Byte>, b: seq<Byte>, n: nat)
    requires n <= |b|
    ensures (a + b)[..|a| + n] == a + b[..n] && (a + b)[|a| + n..] == b[n..]
  {
  }

  /** read_line: gathers chunks until a newline; the outcome does not depend on how they were cut. */
  method ReadLine(r: Reader) returns (line: Result<Option<seq<Byte>>, LineError>)
    requires r.Valid()
    modifies r
    ensures r.Valid()
    ensures line == NextLine(old(r.Ahead()))
    ensures line.Ok? ==> r.Ahead() == old(r.Ahead())[LineLen(old(r.Ahead()))..]
  {
    hide LineLen, ValidUtf8, StripEol, Concat;
    ghost var s := r.Ahead();
    var buf: seq<Byte> := [];
    var status := NeedMore;
    while status == NeedMore
      invariant r.Valid()
      invariant match status
            case AtEnd => s == buf && LF !in buf && |buf| <= MAX_LINE_BYTES && r.Ahead() == []
            case GotLine => buf == s[..LineLen(s)] && r.Ahead() == s[LineLen(s)..] && 0 < LineLen(s) <= MAX_LINE_BYTES
            case LineTooLong => LineLen(s) > MAX_LINE_BYTES
            case NeedMore => s == buf + r.Ahead() && LF !in buf && |buf| <= MAX_LINE_BYTES
      decreases status == NeedMore, |r.chunks|
    {
      status, buf := ReadPiece(r, buf, s);
    }
    if status == LineTooLong { return Err(TooLong); }
    if status == AtEnd {
      if buf == [] { return Ok(None); }
      LineLenUnique(s, |s|);
      assert s[..|s|] == s;
    }
    if !ValidUtf8(buf) { return Err(NotUtf8); }
    line := Ok(Some(StripEol(buf)));
  }

  lemma FirstPiece(a: seq<Byte>, s: seq<Byte>)
    requires a <= s && a != []
    ensures PositionOfLf(a).Some? ==> LineLen(s) == PositionOfLf(a).value + 1
    ensures PositionOfLf(a).None? ==> LineLen(s) >= |a| && s == a + s[|a|..]
  {
    assert s == a + s[|a|..];
    if PositionOfLf(a).Some? {
      LineLenUnique(s, PositionOfLf(a).value + 1);
    } else {
      LineLenAcross(a, s[|a|..]);
    }
  }

  // ----- the receiver -----

  datatype DataEnd = Message(data: seq<Byte>) | Oversized

  /** The DATA loop by the bytes ahead: ends at ".", at the end of the stream, or at a line error. */
  function Collected(s: seq<Byte>, buf: seq<Byte>, oversized: bool, max: nat): Result<DataEnd, LineError>
    decreases |s|
  {
    var line := NextLine(s);
    if line.Err? then Err(line.error)
    else if line.value == None || line.value.value == [DOT] then Ok(if oversized then Oversized else Message(buf))
    else
      var n := LineLen(s);
      if oversized then Collected(s[n..], buf, true, max)
      else
        var content := Unstuffed(line.value.value);
        if |buf| + (|content| + 2) > max then Collected(s[n..], [], true, max)
        else Collected(s[n..], buf + content + CRLF, false, max)
  }

  /** Where the DATA loop stops reading. */
  function AfterData(s: seq<Byte>): seq<Byte>
    decreases |s|
  {
    var line := NextLine(s);
    if line.Err? || line.value == None then []
    else if line.value.value == [DOT] then s[LineLen(s)..]
    else AfterData(s[LineLen(s)..])
  }

  function Unstuffed(line: seq<Byte>): seq<Byte> {
    if line != [] && line[0] == DOT then line[1..] else line
  }

  // ----- where the loop ends, and what it has collected by then -----

  /** A line that is "." starts at i: at the start of a line, and followed by LF, by CR LF or by the end of the
      stream. */
  predicate TerminatorAt(s: seq<Byte>, i: nat) {
    i < |s| && s[i] == DOT && (i == 0 || s[i - 1] == LF)
    && (i + 1 == |s| || s[i + 1] == LF || (i + 2 < |s| && s[i + 1] == CR && s[i + 2] == LF))
  }

  ghost predicate Terminated(s: seq<Byte>) {
    exists i :: TerminatorAt(s, i)
  }

  /** The start of the line the loop stops at, or the end of the stream. */
  function EndAt(s: seq<Byte>): (e: nat)
    ensures e <= |s|
    decreases |s|
  {
    if s == [] || StripEol(s[..LineLen(s)]) == [DOT] then 0 else LineLen(s) + EndAt(s[LineLen(s)..])
  }

  /** All lines before that, unstuffed, with CRLF ends. */
  function Kept(s: seq<Byte>): seq<Byte>
    decreases |s|
  {
    if s == [] || StripEol(s[..LineLen(s)]) == [DOT] then []
    else Unstuffed(StripEol(s[..LineLen(s)])) + CRLF + Kept(s[LineLen(s)..])
  }

  function Within(data: seq<Byte>, max: nat): DataEnd {
    if |data| <= max then Message(data) else Oversized
  }

  /** The first line is "." exactly when a terminator stands at its start. */
  lemma FirstIsDot(s: seq<Byte>)
    requires s != []
    ensures StripEol(s[..LineLen(s)]) == [DOT] <==> TerminatorAt(s, 0)
  {
    hide LineLen;
    var n := LineLen(s);
    var l := s[..n];
    assert forall i :: 0 <= i < n ==> l[i] == s[i];
    if TerminatorAt(s, 0) {
      LineLenUnique(s, if |s| == 1 then 1 else if s[1] == LF then 2 else 3);
      assert l == if |s| == 1 then [DOT] else if s[1] == LF then [DOT, LF] else [DOT, CR, LF];
      assert [DOT, LF][..1] == [DOT] && [DOT, CR, LF][..2] == [DOT, CR] && [DOT, CR][..1] == [DOT];
    }
  }

  /** No terminator stands inside a line. */
  lemma NotInside(s: seq<Byte>, i: nat)
    requires s != [] && 0 < i < LineLen(s)
    ensures !TerminatorAt(s, i)
  {
    hide LineLen;
    assert s[i - 1] != LF;
  }

  /** Behind the first line, terminators are those of the rest. */
  lemma Behind(s: seq<Byte>, i: nat)
    requires s != [] && LineLen(s) <= i
    ensures TerminatorAt(s, i) <==> TerminatorAt(s[LineLen(s)..], i - LineLen(s))
  {
    hide LineLen;
    var n := LineLen(s);
    var t := s[n..];
    if i < |s| {
      assert n < |s| && s[n - 1] == LF && t[i - n] == s[i];
      assert i > n ==> t[i - n - 1] == s[i - 1];
      assert i + 1 < |s| ==> t[i - n + 1] == s[i + 1];
      assert i + 2 < |s| ==> t[i - n + 2] == s[i + 2];
    }
  }

  /** The loop's end, by the bytes: the first terminator, or the end of the stream when there is none. */
  lemma {:induction false} EndIsFirstTerminator(s: seq<Byte>)
    ensures EndAt(s) < |s| <==> Terminated(s)
    ensures EndAt(s) < |s| ==> TerminatorAt(s, EndAt(s))
    ensures forall i :: 0 <= i < EndAt(s) ==> !TerminatorAt(s, i)
    decreases |s|
  {
    hide LineLen, StripEol, TerminatorAt;
    if s == [] {
      NoTerminator(s);
    } else {
      var n := LineLen(s);
      FirstIsDot(s);
      if StripEol(s[..n]) != [DOT] {
        EndIsFirstTerminator(s[n..]);
        forall i: nat ensures TerminatorAt(s, i) <==> n <= i && TerminatorAt(s[n..], i - n) {
          if i < n {
            if i > 0 { NotInside(s, i); }
          } else {
            Behind(s, i);
          }
        }
        if i: nat :| TerminatorAt(s[n..], i) { assert TerminatorAt(s, n + i); }
      }
    }
  }

  lemma NoTerminator(s: seq<Byte>)
    requires s == []
    ensures !Terminated(s)
  {
  }

  /** A stream without a line error: the loop keeps the lines before its end, and goes on behind the terminator; when
      there is none, the end of the stream is taken for the end of the message and everything collected is returned. */
  lemma {:induction false} EndOfData(s: seq<Byte>, max: nat)
    requires Collected(s, [], false, max).Ok?
    ensures Collected(s, [], false, max) == Ok(Within(Kept(s), max))
    ensures if Terminated(s) then AfterData(s) == s[EndAt(s)..][LineLen(s[EndAt(s)..])..] else AfterData(s) == []
  {
    hide LineLen, StripEol, TerminatorAt, Terminated;
    KeptFrom(s, [], max);
    assert [] + Kept(s) == Kept(s);
    EndIsFirstTerminator(s);
    StopsAtEnd(s, [], false, max);
  }

  /** Every line fits and is UTF-8. */
  predicate AllReadable(s: seq<Byte>)
    decreases |s|
  {
    s == [] || (LineLen(s) <= MAX_LINE_BYTES && ValidUtf8(s[..LineLen(s)]) && AllReadable(s[LineLen(s)..]))
  }

  /** Such a stream has no line error. */
  lemma {:induction false} ReadableCollected(s: seq<Byte>, buf: seq<Byte>, oversized: bool, max: nat)
    requires AllReadable(s)
    ensures Collected(s, buf, oversized, max).Ok?
    decreases |s|
  {
    hide LineLen, StripEol, ValidUtf8, Unstuffed;
    if s == [] || StripEol(s[..LineLen(s)]) == [DOT] {
    } else {
      var t := s[LineLen(s)..];
      var c := Unstuffed(StripEol(s[..LineLen(s)]));
      if oversized {
        ReadableCollected(t, buf, true, max);
      } else if |buf| + (|c| + 2) > max {
        ReadableCollected(t, [], true, max);
      } else {
        ReadableCollected(t, buf + c + CRLF, false, max);
      }
    }
  }

  lemma {:induction false} KeptFrom(s: seq<Byte>, buf: seq<Byte>, max: nat)
    requires |buf| <= max && Collected(s, buf, false, max).Ok?
    ensures Collected(s, buf, false, max) == Ok(Within(buf + Kept(s), max))
    decreases |s|
  {
    hide LineLen, StripEol, ValidUtf8;
    if s == [] || StripEol(s[..LineLen(s)]) == [DOT] {
      assert buf + [] == buf;
    } else {
      var n := LineLen(s);
      var c := Unstuffed(StripEol(s[..n]));
      if |buf| + (|c| + 2) > max {
        StaysOversized(s[n..], [], max);
      } else {
        KeptFrom(s[n..], buf + c + CRLF, max);
        assert buf + (c + CRLF + Kept(s[n..])) == buf + c + CRLF + Kept(s[n..]);
      }
    }
  }

  lemma {:induction false} StaysOversized(s: seq<Byte>, buf: seq<Byte>, max: nat)
    requires Collected(s, buf, true, max).Ok?
    ensures Collected(s, buf, true, max) == Ok(Oversized)
    decreases |s|
  {
    hide LineLen, StripEol, ValidUtf8;
    if s == [] || StripEol(s[..LineLen(s)]) == [DOT] {
    } else {
      StaysOversized(s[LineLen(s)..], buf, max);
    }
  }

  lemma {:induction false} StopsAtEnd(s: seq<Byte>, buf: seq<Byte>, oversized: bool, max: nat)
    requires Collected(s, buf, oversized, max).Ok?
    ensures AfterData(s) == if EndAt(s) < |s| then s[EndAt(s)..][LineLen(s[EndAt(s)..])..] else []
    decreases |s|
  {
    hide LineLen, StripEol, ValidUtf8, Unstuffed;
    if s == [] {
    } else if StripEol(s[..LineLen(s)]) == [DOT] {
      assert s[0..] == s;
    } else {
      var n := LineLen(s);
      var t := s[n..];
      if oversized {
        StopsAtEnd(t, buf, true, max);
      } else {
        var c := Unstuffed(StripEol(s[..n]));
        if |buf| + (|c| + 2) > max {
          StopsAtEnd(t, [], true, max);
        } else {
          StopsAtEnd(t, buf + c + CRLF, false, max);
        }
      }
      assert t[EndAt(t)..] == s[EndAt(s)..];
    }
  }

  method ReadData(r: Reader, max: nat) returns (end: Result<DataEnd, LineError>)
    requires r.Valid()
    modifies r
    ensures r.Valid()
    ensures end == Collected(old(r.Ahead()), [], false, max)
    ensures end.Ok? ==> r.Ahead() == AfterData(old(r.Ahead()))
    ensures end.Ok? ==> end.value == Within(Kept(old(r.Ahead())), max)
    ensures end.Ok? && !Terminated(old(r.Ahead())) ==> r.Ahead() == []
  {
    var buf: seq<Byte>, oversized := [], false;
    while true
      invariant r.Valid()
      invariant Collected(r.Ahead(), buf, oversized, max) == Collected(old(r.Ahead()), [], false, max)
      invariant AfterData(r.Ahead()) == AfterData(old(r.Ahead()))
      decreases |r.Ahead()|
    {
      ghost var s := r.Ahead();
      var line := ReadLine(r);
      if line.Err? { return Err(line.error); }
      if line.value == None || line.value.value == [DOT] { break; }
      if oversized { continue; }
      var content := Unstuffed(line.value.value);
      if |buf| + (|content| + 2) > max {
        oversized := true;
        buf := [];
        continue;
      }
      buf := buf + content;
      buf := buf + CRLF;
    }
    end := Ok(if oversized then Oversized else Message(buf));
    EndOfData(old(r.Ahead()), max);
  }

  // ----- the sender -----

  /** Doubles a dot that starts a line. */
  function Stuffed(s: seq<Byte>, lineStart: bool): seq<Byte> {
    if s == [] then []
    else (if lineStart && s[0] == DOT then [DOT] else []) + [s[0]] + Stuffed(s[1..], s[0] == LF)
  }

  /** A final line without LF gets CRLF. */
  function Completed(raw: seq<Byte>): seq<Byte> {
    if raw != [] && raw[|raw| - 1] == LF then raw else raw + CRLF
  }

  method DotStuff(raw: seq<Byte>) returns (out: seq<Byte>)
    ensures out == Stuffed(Completed(raw), true)
  {
    hide Stuffed;
    out := [];
    var lineStart := true;
    assert raw[0..] == raw;
    for i := 0 to |raw|
      invariant out + Stuffed(raw[i..], lineStart) == Stuffed(raw, true)
      invariant i > 0 ==> out != [] && out[|out| - 1] == raw[i - 1] && lineStart == (raw[i - 1] == LF)
      invariant i == 0 ==> out == []
    {
      var b := raw[i];
      assert raw[i..][1..] == raw[i + 1..];
      StuffedStep(raw[i..], lineStart);
      Appended(out, if lineStart && b == DOT then [DOT] else [], b, Stuffed(raw[i + 1..], b == LF));
      if lineStart && b == DOT { out := out + [DOT]; }
      out := out + [b];
      lineStart := b == LF;
    }
    NothingLeft(raw, lineStart);
    assert out + [] == out;
    if !(|out| >= 2 && out[|out| - 2..] == CRLF) {
      if |out| >= 1 && out[|out| - 1] == LF {
      } else {
        StuffedEnd(raw, true);
        out := out + CRLF;
      }
    }
  }

  lemma Appended(out: seq<Byte>, dot: seq<Byte>, b: Byte, rest: seq<Byte>)
    ensures out + (dot + [b] + rest) == out + dot + [b] + rest
    ensures dot == [] ==> out + dot == out
  {
  }

  lemma NothingLeft(raw: seq<Byte>, lineStart: bool)
    ensures Stuffed(raw[|raw|..], lineStart) == []
  {
  }

  lemma {:induction false} StuffedEnd(raw: seq<Byte>, lineStart: bool)
    ensures Stuffed(raw + CRLF, lineStart) == Stuffed(raw, lineStart) + CRLF
    decreases |raw|
  {
    if raw == [] {
      assert raw + CRLF == [CR] + [LF];
      assert Stuffed([LF], false) == [LF] + Stuffed([], true) by { assert [LF][1..] == []; }
      assert ([CR] + [LF])[1..] == [LF];
    } else {
      assert (raw + CRLF)[1..] == raw[1..] + CRLF;
      StuffedEnd(raw[1..], raw[0] == LF);
    }
  }

  // ----- both ends together -----

  /** Text with every line end made CRLF. */
  function Normalized(s: seq<Byte>): seq<Byte>
    decreases |s|
  {
    if s == [] then [] else StripEol(s[..LineLen(s)]) + CRLF + Normalized(s[LineLen(s)..])
  }

  /** Every line, with the dot it may get in front, fits the reader's limit. */
  predicate LinesFit(s: seq<Byte>)
    decreases |s|
  {
    s == [] || (LineLen(s) + (if s[0] == DOT then 1 else 0) <= MAX_LINE_BYTES && LinesFit(s[LineLen(s)..]))
  }

  lemma {:induction false} StuffedInner(line: seq<Byte>, rest: seq<Byte>)
    requires LF !in line
    ensures Stuffed(line + ([LF] + rest), false) == line + ([LF] + Stuffed(rest, true))
    decreases |line|
  {
    if line == [] {
      assert line + ([LF] + rest) == [LF] + rest;
      assert ([LF] + rest)[1..] == rest;
    } else {
      assert (line + ([LF] + rest))[1..] == line[1..] + ([LF] + rest);
      StuffedInner(line[1..], rest);
    }
  }

  /** A line with the dot it gets in front. */
  function Prefixed(line: seq<Byte>): seq<Byte> {
    (if line != [] && line[0] == DOT then [DOT] else []) + line
  }

  /** Stuffing works line by line. */
  lemma StuffedLine(line: seq<Byte>, rest: seq<Byte>)
    requires LF !in line
    ensures Stuffed(line + ([LF] + rest), true) == Prefixed(line) + ([LF] + Stuffed(rest, true))
  {
    hide Stuffed;
    var all := line + ([LF] + rest);
    StuffedStep(all, true);
    if line == [] {
      assert all == [LF] + rest && all[1..] == rest;
      assert Prefixed(line) == [];
    } else {
      assert all[1..] == line[1..] + ([LF] + rest);
      StuffedInner(line[1..], rest);
      Regroup(line, [LF] + Stuffed(rest, true));
    }
  }

  lemma Regroup(line: seq<Byte>, rest: seq<Byte>)
    requires line != []
    ensures (if line[0] == DOT then [DOT] else []) + [line[0]] + (line[1..] + rest) == Prefixed(line) + rest
  {
    assert [line[0]] + line[1..] == line;
  }

  lemma StuffedStep(s: seq<Byte>, lineStart: bool)
    requires s != []
    ensures Stuffed(s, lineStart)
         == (if lineStart && s[0] == DOT then [DOT] else []) + [s[0]] + Stuffed(s[1..], s[0] == LF)
  {
  }

  const END: seq<Byte> := [DOT, CR, LF]

  lemma FirstLine(p: seq<Byte>, more: seq<Byte>)
    requires LF !in p
    ensures var s := p + ([LF] + more);
            LineLen(s) == |p| + 1 && s[..|p| + 1] == p + [LF] && s[|p| + 1..] == more
            && StripEol(s[..|p| + 1]) == StripCr(p)
  {
    var s := p + ([LF] + more);
    LineLenUnique(s, |p| + 1);
    assert s[..|p| + 1] == p + [LF];
    assert (p + [LF])[..|p|] == p;
  }

  /** A stuffed line is never the terminator, and unstuffing it gives the line back. */
  lemma PrefixUndone(line: seq<Byte>)
    ensures StripCr(Prefixed(line)) != [DOT] && Unstuffed(StripCr(Prefixed(line))) == StripCr(line)
  {
    if line != [] && line[0] == DOT {
      assert StripCr(Prefixed(line)) == [DOT] + StripCr(line);
    } else {
      assert Prefixed(line) == line;
    }
  }

  lemma AsciiValid(b: Byte)
    requires b < 0x80
    ensures ValidUtf8([b])
  {
    assert [b][1..] == [];
  }

  lemma StuffedLineRead(line: seq<Byte>, more: seq<Byte>)
    requires LF !in line && |Prefixed(line)| + 1 <= MAX_LINE_BYTES && ValidUtf8(line)
    ensures var s := Prefixed(line) + ([LF] + more);
            NextLine(s) == Ok(Some(StripCr(Prefixed(line)))) && s[LineLen(s)..] == more
  {
    PrefixedValid(line);
    hide ValidUtf8, LineLen, StripEol, StripCr, Prefixed;
    FirstLine(Prefixed(line), more);
  }

  lemma PrefixedValid(line: seq<Byte>)
    requires ValidUtf8(line)
    ensures ValidUtf8(Prefixed(line) + [LF])
    ensures LF !in line ==> LF !in Prefixed(line)
  {
    AsciiValid(LF);
    AsciiValid(DOT);
    hide ValidUtf8;
    Utf8Join([DOT], line);
    assert [] + line == line;
    Utf8Join(Prefixed(line), [LF]);
  }

  lemma TerminatorRead(rest: seq<Byte>)
    ensures NextLine(END + rest) == Ok(Some([DOT])) && (END + rest)[LineLen(END + rest)..] == rest
  {
    var p := [DOT, CR];
    assert END + rest == p + ([LF] + rest);
    FirstLine(p, rest);
    AsciiValid(DOT);
    AsciiValid(CR);
    AsciiValid(LF);
    Utf8Join([DOT], [CR]);
    assert [DOT] + [CR] == p;
    Utf8Join(p, [LF]);
    assert StripCr(p) == [DOT];
  }

  predicate Complete(t: seq<Byte>) {
    t == [] || t[|t| - 1] == LF
  }

  /** The first line of a complete text, and what is left. */
  lemma SplitFirst(t: seq<Byte>)
    requires t != [] && Complete(t)
    ensures var n := LineLen(t);
            n > 0 && LF !in t[..n - 1] && t == t[..n - 1] + ([LF] + t[n..]) && Complete(t[n..])
            && StripEol(t[..n]) == StripCr(t[..n - 1])
  {
    hide LineLen;
    var n := LineLen(t);
    assert t[n - 1] == LF;
    assert t[..n][..n - 1] == t[..n - 1];
    assert t == t[..n - 1] + ([LF] + t[n..]);
  }

  lemma SplitValid(line: seq<Byte>, t: seq<Byte>)
    requires ValidUtf8(line + ([LF] + t))
    ensures ValidUtf8(line) && ValidUtf8(t)
  {
    Utf8Cut(line, [LF] + t);
    assert ([LF] + t)[1..] == t;
  }

  ghost predicate Readable(t: seq<Byte>) {
    Complete(t) && ValidUtf8(t) && LinesFit(t)
  }

  lemma StuffedSplit(line: seq<Byte>, t: seq<Byte>, tail: seq<Byte>)
    requires LF !in line
    ensures Stuffed(line + ([LF] + t), true) + tail == Prefixed(line) + ([LF] + (Stuffed(t, true) + tail))
  {
    hide Stuffed, Prefixed;
    StuffedLine(line, t);
    assert Prefixed(line) + ([LF] + Stuffed(t, true)) + tail == Prefixed(line) + ([LF] + (Stuffed(t, true) + tail));
  }

  lemma PrefixedFits(line: seq<Byte>, t: seq<Byte>)
    requires LF !in line && LinesFit(line + ([LF] + t))
    ensures |Prefixed(line)| + 1 <= MAX_LINE_BYTES && LinesFit(t)
  {
    FirstLine(line, t);
  }

  /** Reading the first line of a stuffed text: never the terminator, and the line itself once unstuffed. */
  lemma LineStep(t: seq<Byte>, tail: seq<Byte>)
    requires t != [] && Readable(t)
    ensures var n := LineLen(t); var s := Stuffed(t, true) + tail;
            var read := NextLine(s);
            read.Ok? && read.value.Some? && read.value.value != [DOT]
            && Unstuffed(read.value.value) == StripEol(t[..n])
            && s[LineLen(s)..] == Stuffed(t[n..], true) + tail && s != [] && Readable(t[n..])
  {
    hide Stuffed, NextLine, LineLen, StripEol, StripCr, ValidUtf8, LinesFit, Complete, Unstuffed, Prefixed;
    assert Complete(t) && ValidUtf8(t) && LinesFit(t);
    SplitFirst(t);
    var n := LineLen(t);
    var line, t' := t[..n - 1], t[n..];
    SplitValid(line, t');
    PrefixedFits(line, t');
    StuffedSplit(line, t', tail);
    PrefixUndone(line);
    StuffedLineRead(line, Stuffed(t', true) + tail);
  }

  /** Reading a stuffed complete text and the terminator, from any buffer that still fits. */
  lemma {:induction false} Transparent(t: seq<Byte>, rest: seq<Byte>, buf: seq<Byte>, max: nat)
    requires Readable(t) && |buf| <= max
    ensures Collected(Stuffed(t, true) + (END + rest), buf, false, max)
         == Ok(if |buf| + |Normalized(t)| <= max then Message(buf + Normalized(t)) else Oversized)
    decreases |t|
  {
    hide Stuffed, NextLine, LineLen, StripEol, Unstuffed, Readable;
    if t == [] {
      NothingStuffed(END + rest);
      TerminatorRead(rest);
      assert buf + [] == buf;
    } else {
      LineStep(t, END + rest);
      var c, t' := StripEol(t[..LineLen(t)]), t[LineLen(t)..];
      if |buf| + (|c| + 2) > max {
        Drained(t', rest, [], max);
      } else {
        Transparent(t', rest, buf + c + CRLF, max);
        assert buf + (c + CRLF + Normalized(t')) == buf + c + CRLF + Normalized(t');
      }
    }
  }

  lemma NothingStuffed(tail: seq<Byte>)
    ensures Stuffed([], true) + tail == tail
  {
  }

  /** Once oversized, the rest is read up to the terminator and dropped. */
  lemma {:induction false} Drained(t: seq<Byte>, rest: seq<Byte>, buf: seq<Byte>, max: nat)
    requires Readable(t)
    ensures Collected(Stuffed(t, true) + (END + rest), buf, true, max) == Ok(Oversized)
    decreases |t|
  {
    hide Stuffed, NextLine, LineLen, StripEol, Unstuffed, Readable;
    if t == [] {
      NothingStuffed(END + rest);
      TerminatorRead(rest);
    } else {
      LineStep(t, END + rest);
      Drained(t[LineLen(t)..], rest, buf, max);
    }
  }

  /** The loop stops exactly behind the terminator. */
  lemma {:induction false} StopsAtTerminator(t: seq<Byte>, rest: seq<Byte>)
    requires Readable(t)
    ensures AfterData(Stuffed(t, true) + (END + rest)) == rest
    decreases |t|
  {
    hide Stuffed, NextLine, LineLen, StripEol, Unstuffed, Readable;
    if t == [] {
      NothingStuffed(END + rest);
      TerminatorRead(rest);
    } else {
      LineStep(t, END + rest);
      StopsAtTerminator(t[LineLen(t)..], rest);
    }
  }

  lemma CompletedValid(raw: seq<Byte>)
    requires ValidUtf8(raw)
    ensures Complete(Completed(raw)) && ValidUtf8(Completed(raw))
  {
    AsciiValid(CR);
    AsciiValid(LF);
    Utf8Join([CR], [LF]);
    assert [CR] + [LF] == CRLF;
    Utf8Join(raw, CRLF);
  }

  /** Dot transparency: the receiver gets the text with CRLF line ends, whatever bytes follow the terminator. */
  lemma DotTransparency(raw: seq<Byte>, rest: seq<Byte>, max: nat)
    requires ValidUtf8(raw) && LinesFit(Completed(raw))
    ensures var stream := Stuffed(Completed(raw), true) + (END + rest);
            var text := Normalized(Completed(raw));
            Collected(stream, [], false, max) == Ok(if |text| <= max then Message(text) else Oversized)
            && AfterData(stream) == rest
  {
    CompletedValid(raw);
    Transparent(Completed(raw), rest, [], max);
    StopsAtTerminator(Completed(raw), rest);
    assert [] + Normalized(Completed(raw)) == Normalized(Completed(raw));
  }

  // ----- in bytes -----

  /** Lines behind their ends of 13 and 10. */
  function PlainLines(lines: seq<seq<Byte>>): seq<Byte> {
    if lines == [] then [] else lines[0] + [13, 10] + PlainLines(lines[1..])
  }

  /** The same with a line that starts with 46 given one more. */
  function WireLines(lines: seq<seq<Byte>>): seq<Byte> {
    if lines == [] then []
    else (if lines[0] != [] && lines[0][0] == 46 then [46] else []) + lines[0] + [13, 10] + WireLines(lines[1..])
  }

  /** Lines that can be sent: without LF, valid, and short enough for one more byte. */
  predicate Sendable(lines: seq<seq<Byte>>) {
    forall i :: 0 <= i < |lines| ==> 10 !in lines[i] && ValidUtf8(lines[i]) && |lines[i]| + 3 <= 1048576
  }

  lemma {:induction false} WireIsStuffed(lines: seq<seq<Byte>>)
    requires Sendable(lines)
    ensures Stuffed(PlainLines(lines), true) == WireLines(lines)
    decreases |lines|
  {
    hide Stuffed, ValidUtf8;
    if lines == [] {
      NothingStuffed([]);
      assert Stuffed([], true) + [] == Stuffed([], true);
    } else {
      WireIsStuffed(lines[1..]);
      OneStuffed(lines[0], PlainLines(lines[1..]));
    }
  }

  lemma OneStuffed(l: seq<Byte>, rest: seq<Byte>)
    requires 10 !in l
    ensures Stuffed(l + [13, 10] + rest, true)
         == (if l != [] && l[0] == 46 then [46] else []) + l + [13, 10] + Stuffed(rest, true)
  {
    hide Stuffed;
    var line := l + [13];
    assert l + [13, 10] + rest == line + ([LF] + rest);
    StuffedLine(line, rest);
    assert l != [] ==> line[0] == l[0];
    assert Prefixed(line) == (if l != [] && l[0] == 46 then [46] else []) + line;
  }

  lemma {:induction false} PlainReadable(lines: seq<seq<Byte>>)
    requires Sendable(lines)
    ensures Readable(PlainLines(lines)) && EveryLfAfterCr(PlainLines(lines))
    decreases |lines|
  {
    hide LineLen, ValidUtf8;
    if lines == [] {
      NothingReadable();
    } else {
      var rest := PlainLines(lines[1..]);
      PlainReadable(lines[1..]);
      PlainFirst(lines[0], rest);
      assert PlainLines(lines) == lines[0] + [13, 10] + rest;
    }
  }

  lemma NothingReadable()
    ensures Readable([]) && EveryLfAfterCr([])
  {
  }

  lemma PlainFirst(line: seq<Byte>, rest: seq<Byte>)
    requires 10 !in line && ValidUtf8(line) && |line| + 3 <= 1048576 && Readable(rest) && EveryLfAfterCr(rest)
    ensures Readable(line + [13, 10] + rest) && EveryLfAfterCr(line + [13, 10] + rest)
  {
    hide LineLen, ValidUtf8, EveryLfAfterCr;
    var t := line + [13, 10] + rest;
    assert t[|line|] == 13 && t[|line| + 1] == 10;
    LineLenUnique(t, |line| + 2);
    assert t[|line| + 2..] == rest;
    assert rest != [] ==> t[|t| - 1] == rest[|rest| - 1];
    PlainValid(line, rest);
    LfAfterCr(line, rest);
  }

  lemma PlainValid(line: seq<Byte>, rest: seq<Byte>)
    requires ValidUtf8(line) && ValidUtf8(rest)
    ensures ValidUtf8(line + [13, 10] + rest)
  {
    hide ValidUtf8;
    AsciiValid(13);
    AsciiValid(10);
    Utf8Join([13], [10]);
    assert [13] + [10] == [13, 10];
    Utf8Join(line, [13, 10]);
    Utf8Join(line + [13, 10], rest);
  }

  lemma LfAfterCr(line: seq<Byte>, rest: seq<Byte>)
    requires 10 !in line && EveryLfAfterCr(rest)
    ensures EveryLfAfterCr(line + [13, 10] + rest)
  {
    var t := line + [13, 10] + rest;
    assert t[|line|] == 13;
    forall i | 0 <= i < |t| && t[i] == LF ensures i > 0 && t[i - 1] == CR {
      if i >= |line| + 2 {
        assert rest[i - |line| - 2] == LF;
        assert i > |line| + 2 ==> rest[i - |line| - 3] == t[i - 1];
      }
    }
  }

  /** Byte for byte: lines sent with a second 46 before a leading one, then 46 13 10, arrive as the lines, or as
      oversized, and reading stops right behind. */
  lemma WireForm(lines: seq<seq<Byte>>, rest: seq<Byte>, max: nat)
    requires Sendable(lines)
    ensures var stream := WireLines(lines) + ([46, 13, 10] + rest);
            && Collected(stream, [], false, max)
               == Ok(if |PlainLines(lines)| <= max then Message(PlainLines(lines)) else Oversized)
            && AfterData(stream) == rest
  {
    hide Stuffed, Collected, AfterData, LinesFit, ValidUtf8, EveryLfAfterCr, Normalized;
    var t := PlainLines(lines);
    WireIsStuffed(lines);
    PlainReadable(lines);
    CrlfUnchanged(t);
    Transparent(t, rest, [], max);
    StopsAtTerminator(t, rest);
    assert [] + t == t;
  }

  lemma LfInside(s: seq<Byte>)
    requires LineLen(s) <= 1048576 < |s|
    ensures 10 in s[..1048576]
  {
    assert s[..1048576][LineLen(s) - 1] == 10;
  }

  /** A line is refused for its length exactly when its first 1048576 bytes hold no LF and more follow. */
  lemma LineLimit(s: seq<Byte>)
    ensures NextLine(s) == Err(TooLong) <==> |s| > 1048576 && 10 !in s[..1048576]
  {
    hide ValidUtf8;
    var n := LineLen(s);
    if n <= 1048576 < |s| { LfInside(s); }
    if n > 1048576 {
      forall i | 0 <= i < 1048576 ensures s[..1048576][i] != 10 {
      }
    }
  }

  /** A stuffed text without its terminator: readable, never ended, and kept as the text itself. */
  lemma {:induction false} StuffedAlone(t: seq<Byte>)
    requires Readable(t)
    ensures var s := Stuffed(t, true) + []; AllReadable(s) && EndAt(s) == |s| && Kept(s) == Normalized(t)
    decreases |t|
  {
    hide Stuffed, LineLen, StripEol, Unstuffed, Readable, ValidUtf8;
    if t == [] {
      NothingStuffed([]);
    } else {
      LineStep(t, []);
      StuffedAlone(t[LineLen(t)..]);
    }
  }

  /** A stream cut off at a line end: what came before is accepted as the whole message. */
  lemma CutOff(t: seq<Byte>, more: seq<Byte>, max: nat)
    requires Readable(t)
    ensures Stuffed(t + more, true) == Stuffed(t, true) + Stuffed(more, true)
    ensures Collected(Stuffed(t, true), [], false, max) == Ok(Within(Normalized(t), max))
    ensures !Terminated(Stuffed(t, true))
  {
    StuffedAlone(t);
    assert Complete(t);
    hide Stuffed, Kept, EndAt, Collected, AllReadable, Terminated, Readable;
    StuffedParts(t, more, true);
    var s := Stuffed(t, true);
    assert s + [] == s;
    ReadableCollected(s, [], false, max);
    EndOfData(s, max);
    EndIsFirstTerminator(s);
  }

  lemma {:induction false} StuffedParts(t: seq<Byte>, more: seq<Byte>, lineStart: bool)
    requires t == [] ==> lineStart
    requires t != [] ==> t[|t| - 1] == LF
    ensures Stuffed(t + more, lineStart) == Stuffed(t, lineStart) + Stuffed(more, true)
    decreases |t|
  {
    if t == [] {
      assert t + more == more;
    } else {
      assert (t + more)[1..] == t[1..] + more;
      hide Stuffed;
      StuffedStep(t + more, lineStart);
      StuffedStep(t, lineStart);
      StuffedParts(t[1..], more, t[0] == LF);
      ConcatThree(if lineStart && t[0] == DOT then [DOT] else [], [t[0]], Stuffed(t[1..], t[0] == LF),
            Stuffed(more, true));
    }
  }

  lemma ConcatThree(a: seq<Byte>, b: seq<Byte>, c: seq<Byte>, d: seq<Byte>)
    ensures a + b + (c + d) == a + b + c + d
  {
  }

  predicate EveryLfAfterCr(s: seq<Byte>) {
    forall i :: 0 <= i < |s| && s[i] == LF ==> i > 0 && s[i - 1] == CR
  }

  /** Text whose line ends are CRLF already arrives unchanged. */
  lemma {:induction false} CrlfUnchanged(t: seq<Byte>)
    requires Complete(t) && EveryLfAfterCr(t)
    ensures Normalized(t) == t
    decreases |t|
  {
    hide LineLen, StripEol, EveryLfAfterCr;
    if t == [] {
    } else {
      var n := LineLen(t);
      SplitFirst(t);
      CrlfLine(t, n);
      CrlfUnchanged(t[n..]);
      assert t[..n] + t[n..] == t;
    }
  }

  lemma CrlfLine(t: seq<Byte>, n: nat)
    requires 0 < n <= |t| && t[n - 1] == LF && EveryLfAfterCr(t)
    ensures StripEol(t[..n]) + CRLF == t[..n] && EveryLfAfterCr(t[n..])
  {
    assert n >= 2 && t[n - 2] == CR;
    assert t[..n][..n - 1][..n - 2] == t[..n - 2];
    assert StripEol(t[..n]) == t[..n - 2];
    forall i | 0 <= i < |t[n..]| && t[n..][i] == LF ensures i > 0 && t[n..][i - 1] == CR {
      assert t[n + i] == LF;
      assert t[n + i - 1] == CR;
    }
  }

  /** A whole transfer, over any cutting of the stream into chunks. */
  method Transfer(raw: seq<Byte>, rest: seq<Byte>, r: Reader, max: nat) returns (end: Result<DataEnd, LineError>)
    requires r.Valid() && ValidUtf8(raw) && LinesFit(Completed(raw))
    requires r.Ahead() == Stuffed(Completed(raw), true) + (END + rest)
    modifies r
    ensures r.Valid() && r.Ahead() == rest
    ensures var text := Normalized(Completed(raw));
            end == Ok(if |text| <= max then Message(text) else Oversized)
  {
    DotTransparency(raw, rest, max);
    end := ReadData(r, max);
  }
}

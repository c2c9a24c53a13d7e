/** cpp/wedpr-computing/ppc-pir/src/Common.h: the scan of a memory-mapped file for the lines that
    start with a prefix. */
module LineScanner {
  import opened Bytes
  import opened Outcome

  type Text = seq<Byte>

  const CR: Byte := 13
  const LF: Byte := 10
  const COMMA: Byte := 44

  predicate Terminator(c: Byte) { c == CR || c == LF }

  /** `c` and `d` form "\r\n" or "\n\r". */
  predicate Pair(c: Byte, d: Byte) { Terminator(c) && Terminator(d) && c != d }

  /** The comparison of an unsigned prefix byte with a signed char: a char of 128 or more is promoted
      to a negative int and differs from every byte. */
  predicate SameChar(p: Byte, c: Byte) { c < 128 && p == c }

  predicate Matched(prefix: Text, line: Text) {
    |prefix| <= |line| && forall i :: 0 <= i < |prefix| ==> SameChar(prefix[i], line[i])
  }

  predicate Ascii(s: Text) { forall i :: 0 <= i < |s| ==> s[i] < 128 }

  lemma {:induction false} MatchedIsAsciiPrefix(prefix: Text, line: Text)
    ensures Matched(prefix, line) <==> Ascii(prefix) && prefix <= line
  {
    if Matched(prefix, line) {
      forall i | 0 <= i < |prefix| ensures prefix[i] < 128 && prefix[i] == line[i] {
        assert SameChar(prefix[i], line[i]);
      }
    }
  }

  method IsPrefixMatched(prefix: Text, buf: Text, begin: nat, end: nat) returns (r: bool)
    requires begin <= end <= |buf|
    ensures r <==> Matched(prefix, buf[begin..end])
  {
    if end - begin < |prefix| {
      return false;
    }
    for i := 0 to |prefix|
      invariant forall j :: 0 <= j < i ==> SameChar(prefix[j], buf[begin..end][j])
    {
      if !SameChar(prefix[i], buf[begin + i]) {
        assert buf[begin..end][i] == buf[begin + i];
        return false;
      }
    }
    return true;
  }

  // ---------------------------------------------------------------------------------------------
  // What a line is
  // ---------------------------------------------------------------------------------------------

  /** The line that starts at `b` ends just before position `e`: everything up to the first
      terminator, plus that terminator itself when the other one follows it. */
  ghost predicate IsLine(buf: Text, b: nat, e: nat) {
    && b <= e <= |buf|
    && (e < |buf| ==> Terminator(buf[e]))
    && ((&& (forall i :: b <= i < e ==> !Terminator(buf[i]))
         && !(e + 1 < |buf| && Pair(buf[e], buf[e + 1])))
        || (&& b < e < |buf| && Pair(buf[e - 1], buf[e])
            && (forall i :: b <= i < e - 1 ==> !Terminator(buf[i]))))
  }

  lemma {:induction false} LineUnique(buf: Text, b: nat, e: nat, e': nat)
    requires IsLine(buf, b, e) && IsLine(buf, b, e')
    ensures e == e'
  {
  }

  function LineEnd(buf: Text, i: nat): (e: nat)
    requires i < |buf|
    ensures i <= e <= |buf|
    decreases |buf| - i
  {
    if !Terminator(buf[i]) then
      if i + 1 < |buf| then LineEnd(buf, i + 1) else i + 1
    else if i + 1 < |buf| && Pair(buf[i], buf[i + 1]) then i + 1
    else i
  }

  lemma {:induction false} LineEndIsLine(buf: Text, i: nat)
    requires i < |buf|
    ensures IsLine(buf, i, LineEnd(buf, i))
    decreases |buf| - i
  {
    if !Terminator(buf[i]) && i + 1 < |buf| {
      LineEndIsLine(buf, i + 1);
    }
  }

  datatype Span = Span(start: nat, stop: nat)

  predicate Inside(buf: Text, lines: seq<Span>) {
    forall i :: 0 <= i < |lines| ==> lines[i].start <= lines[i].stop <= |buf|
  }

  /** All lines from `b` on, by position; one terminator character lies between them. */
  function Lines(buf: Text, b: nat): (lines: seq<Span>)
    ensures Inside(buf, lines)
    decreases |buf| - b
  {
    if b >= |buf| then [] else [Span(b, LineEnd(buf, b))] + Lines(buf, LineEnd(buf, b) + 1)
  }

  /** The character after a line, if there is one. */
  function After(buf: Text, e: nat): Text { if e < |buf| then [buf[e]] else [] }

  function Join(buf: Text, lines: seq<Span>): Text
    requires Inside(buf, lines)
  {
    if lines == [] then []
    else buf[lines[0].start..lines[0].stop] + After(buf, lines[0].stop) + Join(buf, lines[1..])
  }

  lemma JoinFirst(buf: Text, b: nat, e: nat, rest: seq<Span>)
    requires b <= e <= |buf| && Inside(buf, rest)
    ensures Join(buf, [Span(b, e)] + rest) == buf[b..e] + After(buf, e) + Join(buf, rest)
  {
    assert ([Span(b, e)] + rest)[1..] == rest;
  }

  lemma SplitAt(buf: Text, b: nat, e: nat)
    requires b <= e <= |buf|
    ensures buf[b..] == buf[b..e] + After(buf, e) + (if e < |buf| then buf[e + 1..] else [])
  {
    if e < |buf| {
      assert buf[b..] == buf[b..e] + buf[e..];
      assert buf[e..] == [buf[e]] + buf[e + 1..];
    }
  }

  /** One more line in front of lines that already tile what follows it. */
  lemma TileFirst(buf: Text, b: nat, e: nat, rest: seq<Span>)
    requires b <= e <= |buf| && Inside(buf, rest)
    requires Join(buf, rest) == if e < |buf| then buf[e + 1..] else []
    ensures Join(buf, [Span(b, e)] + rest) == buf[b..]
  {
    JoinFirst(buf, b, e, rest);
    SplitAt(buf, b, e);
  }

  /** The lines and the characters after them are the whole buffer, in order, without gap or overlap. */
  lemma {:induction false} LinesTile(buf: Text, b: nat)
    requires b <= |buf|
    ensures Join(buf, Lines(buf, b)) == buf[b..]
    decreases |buf| - b
  {
    if b == |buf| {
      assert Lines(buf, b) == [];
    } else {
      var e := LineEnd(buf, b);
      if e < |buf| {
        LinesTile(buf, e + 1);
      } else {
        assert Lines(buf, e + 1) == [];
      }
      assert Lines(buf, b) == [Span(b, e)] + Lines(buf, e + 1);
      TileFirst(buf, b, e, Lines(buf, e + 1));
    }
  }

  lemma {:induction false} LinesAreLines(buf: Text, b: nat)
    ensures forall i :: 0 <= i < |Lines(buf, b)| ==> IsLine(buf, Lines(buf, b)[i].start, Lines(buf, b)[i].stop)
    decreases |buf| - b
  {
    if b < |buf| {
      LineEndIsLine(buf, b);
      LinesAreLines(buf, LineEnd(buf, b) + 1);
    }
  }

  // ---------------------------------------------------------------------------------------------
  // What is read
  // ---------------------------------------------------------------------------------------------

  function BeforeComma(s: Text): Text {
    if s == [] || s[0] == COMMA then [] else [s[0]] + BeforeComma(s[1..])
  }

  lemma {:induction false} BeforeCommaIsId(s: Text)
    ensures BeforeComma(s) <= s && COMMA !in BeforeComma(s)
    ensures BeforeComma(s) == s || s[|BeforeComma(s)|] == COMMA
  {
    if s == [] || s[0] == COMMA {
    } else {
      BeforeCommaIsId(s[1..]);
      assert s == [s[0]] + s[1..];
    }
  }

  datatype Row = Row(id: Text, record: Text)

  function RowAt(buf: Text, line: Span): Row
    requires line.start <= line.stop <= |buf|
  {
    Row(BeforeComma(buf[line.start..line.stop]), buf[line.start..line.stop])
  }

  /** The line as a reader of the file sees it: without the terminator that a pair leaves inside. */
  function Bare(buf: Text, line: Span): Text
    requires line.start <= line.stop <= |buf|
  {
    if line.start < line.stop && Terminator(buf[line.stop - 1]) then buf[line.start..line.stop - 1]
    else buf[line.start..line.stop]
  }

  lemma BareIsClean(buf: Text, line: Span)
    requires IsLine(buf, line.start, line.stop)
    ensures forall c :: c in Bare(buf, line) ==> !Terminator(c)
    ensures var whole := buf[line.start..line.stop];
            whole == Bare(buf, line) || exists t :: Terminator(t) && whole == Bare(buf, line) + [t]
  {
    var whole := buf[line.start..line.stop];
    if line.start < line.stop && Terminator(buf[line.stop - 1]) {
      assert whole == Bare(buf, line) + [buf[line.stop - 1]];
    }
  }

  lemma {:induction false} CommaDecides(s: Text, t: Byte)
    requires t != COMMA
    ensures COMMA in s ==> BeforeComma(s + [t]) == BeforeComma(s)
    ensures COMMA !in s ==> BeforeComma(s + [t]) == s + [t] && BeforeComma(s) == s
  {
    if s == [] {
      assert [] + [t] == [t];
      assert BeforeComma([]) == [];
      assert BeforeComma([t]) == [t] + BeforeComma([t][1..]);
    } else if s[0] != COMMA {
      CommaDecides(s[1..], t);
      assert s == [s[0]] + s[1..];
      assert (s + [t])[1..] == s[1..] + [t];
    }
  }

  /** The row keeps the id that the line shows. */
  predicate KeepsId(buf: Text, line: Span)
    requires line.start <= line.stop <= |buf|
  {
    Bare(buf, line) == buf[line.start..line.stop] || COMMA in Bare(buf, line)
  }

  /** The id of a row is the one its line shows exactly when no terminator is left inside or a comma
      comes before it; otherwise it is that id and the terminator. */
  lemma RowIdIsBare(buf: Text, line: Span)
    requires IsLine(buf, line.start, line.stop)
    ensures RowAt(buf, line).id == BeforeComma(Bare(buf, line)) <==> KeepsId(buf, line)
    ensures !KeepsId(buf, line) ==>
              && BeforeComma(Bare(buf, line)) == Bare(buf, line)
              && RowAt(buf, line).id == RowAt(buf, line).record
              && |RowAt(buf, line).id| > 0 && Terminator(RowAt(buf, line).id[|RowAt(buf, line).id| - 1])
  {
    BareIsClean(buf, line);
    var bare, whole := Bare(buf, line), buf[line.start..line.stop];
    if whole != bare {
      var t :| Terminator(t) && whole == bare + [t];
      CommaDecides(bare, t);
    }
  }

  /** The rows of the lines that match the prefix, in file order. */
  function Select(prefix: Text, buf: Text, lines: seq<Span>): seq<Row>
    requires Inside(buf, lines)
  {
    if lines == [] then []
    else Kept(prefix, buf, lines[0]) + Select(prefix, buf, lines[1..])
  }

  function Kept(prefix: Text, buf: Text, line: Span): seq<Row>
    requires line.start <= line.stop <= |buf|
  {
    if Matched(prefix, buf[line.start..line.stop]) then [RowAt(buf, line)] else []
  }

  function Rows(prefix: Text, buf: Text): seq<Row> { Select(prefix, buf, Lines(buf, 0)) }

  // ---------------------------------------------------------------------------------------------
  // The rows, by the buffer alone
  // ---------------------------------------------------------------------------------------------

  /** `id` is the text up to the first comma, or all of it if there is none. */
  predicate HasId(text: Text, id: Text) {
    id <= text && COMMA !in id && (id == text || text[|id|] == COMMA)
  }

  lemma HasIdUnique(text: Text, id: Text)
    ensures HasId(text, id) <==> BeforeComma(text) == id
  {
    BeforeCommaIsId(text);
    var b := BeforeComma(text);
    if HasId(text, id) {
      assert id == text[..|id|] && b == text[..|b|];
    }
  }

  predicate StartsWith(prefix: Text, buf: Text, line: Span) {
    line.start <= line.stop <= |buf| && Ascii(prefix) && prefix <= buf[line.start..line.stop]
  }

  predicate Ordered(lines: seq<Span>) {
    forall i, j :: 0 <= i < j < |lines| ==> lines[i].stop < lines[j].start
  }

  /** The rows are those of the spans: the record is the whole line, the id its text before a comma. */
  ghost predicate RowsOf(buf: Text, rows: seq<Row>, spans: seq<Span>)
    requires Inside(buf, spans)
  {
    |rows| == |spans| && forall i :: 0 <= i < |rows| ==>
      rows[i].record == buf[spans[i].start..spans[i].stop] && HasId(rows[i].record, rows[i].id)
  }

  lemma {:induction false} LinesOrdered(buf: Text, b: nat)
    ensures Ordered(Lines(buf, b)) && forall i :: 0 <= i < |Lines(buf, b)| ==> b <= Lines(buf, b)[i].start
    decreases |buf| - b
  {
    if b < |buf| {
      LinesOrdered(buf, LineEnd(buf, b) + 1);
    }
  }

  /** The spans are the lines among `lines` that start with the prefix. */
  ghost predicate Filtered(prefix: Text, buf: Text, lines: seq<Span>, spans: seq<Span>) {
    forall l :: l in spans <==> l in lines && StartsWith(prefix, buf, l)
  }

  lemma FilteredFirst(prefix: Text, buf: Text, first: Span, rest: seq<Span>, tail: seq<Span>)
    requires first.start <= first.stop <= |buf| && Filtered(prefix, buf, rest, tail)
    ensures if StartsWith(prefix, buf, first) then Filtered(prefix, buf, [first] + rest, [first] + tail)
            else Filtered(prefix, buf, [first] + rest, tail)
  {
  }

  lemma RowsOfFirst(buf: Text, first: Span, rows: seq<Row>, tail: seq<Span>)
    requires first.start <= first.stop <= |buf| && Inside(buf, tail) && RowsOf(buf, rows, tail)
    ensures Inside(buf, [first] + tail) && RowsOf(buf, [RowAt(buf, first)] + rows, [first] + tail)
  {
    HasIdUnique(buf[first.start..first.stop], RowAt(buf, first).id);
  }

  lemma {:induction false} SelectSpans(prefix: Text, buf: Text, lines: seq<Span>) returns (spans: seq<Span>)
    requires Inside(buf, lines) && Ordered(lines)
    ensures Inside(buf, spans) && Ordered(spans) && RowsOf(buf, Select(prefix, buf, lines), spans)
    ensures Filtered(prefix, buf, lines, spans)
  {
    if lines == [] {
      spans := [];
    } else {
      var first, rest := lines[0], lines[1..];
      var tail := SelectSpans(prefix, buf, rest);
      var rows := Select(prefix, buf, rest);
      MatchedIsAsciiPrefix(prefix, buf[first.start..first.stop]);
      FilteredFirst(prefix, buf, first, rest, tail);
      assert lines == [first] + rest;
      if StartsWith(prefix, buf, first) {
        spans := [first] + tail;
        RowsOfFirst(buf, first, rows, tail);
        OrderedFirst(lines, tail);
        assert Select(prefix, buf, lines) == [RowAt(buf, first)] + rows;
      } else {
        spans := tail;
        assert Select(prefix, buf, lines) == rows;
      }
    }
  }

  lemma OrderedFirst(lines: seq<Span>, tail: seq<Span>)
    requires lines != [] && Ordered(lines) && Ordered(tail) && forall l :: l in tail ==> l in lines[1..]
    ensures Ordered([lines[0]] + tail)
  {
    forall j | 0 <= j < |tail| ensures lines[0].stop < tail[j].start {
      assert tail[j] in lines[1..];
    }
  }

  /** The rows read are exactly the lines that start with the prefix, each once and in file order: the
      record is the line's text in the buffer, the id its text up to the first comma. */
  lemma {:induction false} RowsAreMatchingLines(prefix: Text, buf: Text) returns (spans: seq<Span>)
    ensures Inside(buf, spans) && Ordered(spans) && RowsOf(buf, Rows(prefix, buf), spans)
    ensures forall l :: l in spans ==> IsLine(buf, l.start, l.stop)
    ensures Filtered(prefix, buf, Lines(buf, 0), spans)
  {
    LinesOrdered(buf, 0);
    LinesAreLines(buf, 0);
    spans := SelectSpans(prefix, buf, Lines(buf, 0));
    forall l | l in spans ensures IsLine(buf, l.start, l.stop) {
      var i :| 0 <= i < |Lines(buf, 0)| && Lines(buf, 0)[i] == l;
    }
  }

  /** The records, each followed by one character. */
  function Glue(rows: seq<Row>, marks: seq<Text>): Text
    requires |rows| == |marks|
  {
    if rows == [] then [] else rows[0].record + marks[0] + Glue(rows[1..], marks[1..])
  }

  /** A terminator after every record but possibly the last. */
  predicate Terminators(marks: seq<Text>) {
    forall i :: 0 <= i < |marks| ==>
      (|marks[i]| == 1 && Terminator(marks[i][0])) || (marks[i] == [] && i == |marks| - 1)
  }

  ghost predicate Tiles(buf: Text, b: nat, rows: seq<Row>, marks: seq<Text>)
    requires b <= |buf|
  {
    |rows| == |marks| && Terminators(marks) && Glue(rows, marks) == buf[b..]
  }

  lemma TileRow(buf: Text, b: nat, e: nat, row: Row, rows: seq<Row>, marks: seq<Text>)
    requires IsLine(buf, b, e) && row.record == buf[b..e]
    requires if e < |buf| then Tiles(buf, e + 1, rows, marks) else rows == [] && marks == []
    ensures Tiles(buf, b, [row] + rows, [After(buf, e)] + marks)
  {
    GlueFirst(row, rows, After(buf, e), marks);
    SplitAt(buf, b, e);
  }

  /** Without a prefix nothing of the file is lost: the records with the terminators between them are the
      buffer. */
  lemma {:induction false} RecordsTile(none: Text, buf: Text, b: nat) returns (marks: seq<Text>)
    requires none == [] && b <= |buf|
    ensures Tiles(buf, b, Select(none, buf, Lines(buf, b)), marks)
    decreases |buf| - b
  {
    if b == |buf| {
      marks := [];
      assert Lines(buf, b) == [];
    } else {
      var e := LineEnd(buf, b);
      var line := Span(b, e);
      LineEndIsLine(buf, b);
      SelectAll(none, buf, b);
      var rest := Select(none, buf, Lines(buf, e + 1));
      var tail := [];
      if e < |buf| {
        tail := RecordsTile(none, buf, e + 1);
      } else {
        assert Lines(buf, e + 1) == [];
      }
      marks := [After(buf, e)] + tail;
      TileRow(buf, b, e, RowAt(buf, line), rest, tail);
    }
  }

  lemma SelectAll(none: Text, buf: Text, b: nat)
    requires none == [] && b < |buf|
    ensures var e := LineEnd(buf, b);
            Select(none, buf, Lines(buf, b)) == [RowAt(buf, Span(b, e))] + Select(none, buf, Lines(buf, e + 1))
  {
    SelectFirst(none, buf, b);
    assert Matched(none, buf[b..LineEnd(buf, b)]);
  }

  lemma GlueFirst(row: Row, rows: seq<Row>, mark: Text, marks: seq<Text>)
    requires |rows| == |marks|
    ensures Glue([row] + rows, [mark] + marks) == row.record + mark + Glue(rows, marks)
  {
    assert ([row] + rows)[1..] == rows && ([mark] + marks)[1..] == marks;
  }

  lemma SelectFirst(prefix: Text, buf: Text, b: nat)
    requires b < |buf|
    ensures Select(prefix, buf, Lines(buf, b))
            == Kept(prefix, buf, Span(b, LineEnd(buf, b))) + Select(prefix, buf, Lines(buf, LineEnd(buf, b) + 1))
  {
    assert Lines(buf, b)[1..] == Lines(buf, LineEnd(buf, b) + 1);
  }

  /** `done` holds the rows of all lines before `b`. */
  ghost predicate Found(prefix: Text, buf: Text, b: nat, done: seq<Row>) {
    done + Select(prefix, buf, Lines(buf, b)) == Rows(prefix, buf)
  }

  lemma FoundNone(prefix: Text, buf: Text)
    ensures Found(prefix, buf, 0, [])
  {
    var all := Select(prefix, buf, Lines(buf, 0));
    assert [] + all == all;
  }

  lemma FoundAll(prefix: Text, buf: Text, b: nat, done: seq<Row>)
    requires b >= |buf| && Found(prefix, buf, b, done)
    ensures done == Rows(prefix, buf)
  {
    assert Lines(buf, b) == [] && Select(prefix, buf, []) == [];
  }

  /** One line further. */
  lemma TakeLine(prefix: Text, buf: Text, b: nat, done: seq<Row>, kept: seq<Row>)
    requires b < |buf| && Found(prefix, buf, b, done) && kept == Kept(prefix, buf, Span(b, LineEnd(buf, b)))
    ensures Found(prefix, buf, LineEnd(buf, b) + 1, done + kept)
  {
    SelectFirst(prefix, buf, b);
    Regroup(done, kept, Select(prefix, buf, Lines(buf, LineEnd(buf, b) + 1)));
  }

  lemma Regroup(a: seq<Row>, b: seq<Row>, c: seq<Row>)
    ensures a + b + c == a + (b + c)
  {
  }

  /** The pointer part of one iteration: either one step inside the line, or its end. */
  method Advance(buf: Text, end: nat) returns (next: nat, inside: bool)
    requires end < |buf|
    ensures inside ==> next == end + 1 < |buf| && LineEnd(buf, next) == LineEnd(buf, end)
    ensures !inside ==> next == LineEnd(buf, end)
  {
    next, inside := end, false;
    if !Terminator(buf[end]) {
      next := end + 1;
      inside := next < |buf|;
    } else if 1 + end < |buf| {
      var c := buf[1 + end];
      if Terminator(c) && c != buf[end] {
        next := end + 1;
      }
    }
  }

  /** A finished line is added to the rows if it matches. */
  method KeepIfMatched(prefix: Text, buf: Text, begin: nat, end: nat, done: seq<Row>) returns (rows: seq<Row>)
    requires begin < |buf| && end == LineEnd(buf, begin) && Found(prefix, buf, begin, done)
    ensures Found(prefix, buf, end + 1, rows)
  {
    var matched := IsPrefixMatched(prefix, buf, begin, end);
    var line := Span(begin, end);
    var kept := if matched then [RowAt(buf, line)] else [];
    assert kept == Kept(prefix, buf, line);
    TakeLine(prefix, buf, begin, done, kept);
    rows := done + kept;
  }

  /** The two-pointer loop. Every read of `buf` is inside it, and mapping an empty file fails. */
  method ReadInputsWithPrefix(prefix: Text, buf: Text) returns (r: Result<seq<Row>>)
    ensures r == if buf == [] then Err(EmptyFile) else Ok(Rows(prefix, buf))
  {
    if |buf| == 0 {
      return Err(EmptyFile);
    }
    var rows: seq<Row> := [];
    FoundNone(prefix, buf);
    var begin, end := 0, 0;
    while true
      invariant 0 <= begin <= end < |buf|
      invariant LineEnd(buf, begin) == LineEnd(buf, end)
      invariant Found(prefix, buf, begin, rows)
      decreases |buf| - end
    {
      var inside;
      end, inside := Advance(buf, end);
      if inside {
        continue;
      }
      rows := KeepIfMatched(prefix, buf, begin, end, rows);
      end := end + 1;
      begin := end;
      if begin >= |buf| {
        FoundAll(prefix, buf, begin, rows);
        break;
      }
    }
    return Ok(rows);
  }
}

/** The whole private lookup: the client sends a prefix and two blinded points, the server answers for
    every line with that prefix, the client opens one answer. It must agree with a plain search of
    the file for the first line whose id is the queried one. */
module PrivateLookup {
  import opened Arith
  import opened Bytes
  import opened Outcome
  import opened LineScanner
  import opened ObliviousTransfer

  /** The record of the first line with this id, or nothing. */
  function Find(buf: Text, lines: seq<Span>, id: Text): Text
    requires Inside(buf, lines)
  {
    if lines == [] then []
    else if RowAt(buf, lines[0]).id == id then RowAt(buf, lines[0]).record
    else Find(buf, lines[1..], id)
  }

  function PlainLookup(buf: Text, id: Text): Text { Find(buf, Lines(buf, 0), id) }

  /** Line k is the first whose text, up to the first comma, is the id. */
  predicate FirstWithId(buf: Text, lines: seq<Span>, id: Text, k: int)
    requires Inside(buf, lines)
  {
    && 0 <= k < |lines| && HasId(buf[lines[k].start..lines[k].stop], id)
    && forall j :: 0 <= j < k ==> !HasId(buf[lines[j].start..lines[j].stop], id)
  }

  ghost predicate NoneWithId(buf: Text, lines: seq<Span>, id: Text)
    requires Inside(buf, lines)
  {
    forall k :: 0 <= k < |lines| ==> !HasId(buf[lines[k].start..lines[k].stop], id)
  }

  lemma FirstShifts(buf: Text, first: Span, rest: seq<Span>, id: Text, k: int)
    requires first.start <= first.stop <= |buf| && Inside(buf, rest)
    requires FirstWithId(buf, [first] + rest, id, k) && k > 0
    ensures FirstWithId(buf, rest, id, k - 1)
  {
    var lines := [first] + rest;
    forall j | 0 <= j < k - 1 ensures !HasId(buf[rest[j].start..rest[j].stop], id) {
      assert rest[j] == lines[j + 1];
    }
  }

  lemma NoneShifts(buf: Text, first: Span, rest: seq<Span>, id: Text)
    requires first.start <= first.stop <= |buf| && Inside(buf, rest) && NoneWithId(buf, [first] + rest, id)
    ensures NoneWithId(buf, rest, id) && !HasId(buf[first.start..first.stop], id)
  {
    var lines := [first] + rest;
    assert lines[0] == first;
    forall k | 0 <= k < |rest| ensures !HasId(buf[rest[k].start..rest[k].stop], id) {
      assert rest[k] == lines[k + 1];
    }
  }

  /** What the plain search returns, by the buffer: the whole text of the first line that has the id. */
  lemma {:induction false} FindIsFirst(buf: Text, lines: seq<Span>, id: Text, k: int)
    requires Inside(buf, lines) && FirstWithId(buf, lines, id, k)
    ensures Find(buf, lines, id) == buf[lines[k].start..lines[k].stop]
    decreases |lines|
  {
    var first, rest := lines[0], lines[1..];
    HasIdUnique(buf[first.start..first.stop], id);
    if k > 0 {
      assert lines == [first] + rest;
      FirstShifts(buf, first, rest, id, k);
      FindIsFirst(buf, rest, id, k - 1);
    }
  }

  lemma {:induction false} FindIsNone(buf: Text, lines: seq<Span>, id: Text)
    requires Inside(buf, lines) && NoneWithId(buf, lines, id)
    ensures Find(buf, lines, id) == []
  {
    if lines == [] {
    } else {
      var first, rest := lines[0], lines[1..];
      assert lines == [first] + rest;
      NoneShifts(buf, first, rest, id);
      HasIdUnique(buf[first.start..first.stop], id);
      FindIsNone(buf, rest, id);
    }
  }

  /** The same search by the ids that the lines show, without terminators. */
  function FindBare(buf: Text, lines: seq<Span>, id: Text): Text
    requires Inside(buf, lines)
  {
    if lines == [] then []
    else if BeforeComma(Bare(buf, lines[0])) == id then RowAt(buf, lines[0]).record
    else FindBare(buf, lines[1..], id)
  }

  function BareLookup(buf: Text, id: Text): Text { FindBare(buf, Lines(buf, 0), id) }

  /** The first line that has the id, with or without a kept terminator, shows it as it is read. */
  predicate FirstKeepsId(buf: Text, lines: seq<Span>, id: Text)
    requires Inside(buf, lines)
  {
    lines == []
    || (if BeforeComma(Bare(buf, lines[0])) == id || RowAt(buf, lines[0]).id == id
        then KeepsId(buf, lines[0]) else FirstKeepsId(buf, lines[1..], id))
  }

  ghost predicate AreLines(buf: Text, lines: seq<Span>) {
    forall i :: 0 <= i < |lines| ==> IsLine(buf, lines[i].start, lines[i].stop)
  }

  /** A record that is found begins with the id, and ends there or at a comma. */
  lemma {:induction false} FoundHasId(buf: Text, lines: seq<Span>, id: Text)
    requires Inside(buf, lines)
    ensures Find(buf, lines, id) == [] || BeforeComma(Find(buf, lines, id)) == id
  {
    if lines == [] || RowAt(buf, lines[0]).id == id {
    } else {
      FoundHasId(buf, lines[1..], id);
    }
  }

  /** An id with a terminator is shown by no line. */
  lemma {:induction false} BareNeverFinds(buf: Text, lines: seq<Span>, id: Text)
    requires Inside(buf, lines) && AreLines(buf, lines) && exists c :: c in id && Terminator(c)
    ensures FindBare(buf, lines, id) == []
  {
    if lines == [] {
    } else {
      BareIsClean(buf, lines[0]);
      BeforeCommaIsId(Bare(buf, lines[0]));
      BareNeverFinds(buf, lines[1..], id);
    }
  }

  /** The program's search and the search by what the lines show agree, for every id, if and only if the
      first line that has the id either way keeps it. */
  lemma {:induction false} FindIsBare(buf: Text, lines: seq<Span>, id: Text)
    requires Inside(buf, lines) && AreLines(buf, lines)
    ensures Find(buf, lines, id) == FindBare(buf, lines, id) <==> FirstKeepsId(buf, lines, id)
  {
    if lines == [] {
    } else {
      var row, bare := RowAt(buf, lines[0]), BeforeComma(Bare(buf, lines[0]));
      RowIdIsBare(buf, lines[0]);
      if !KeepsId(buf, lines[0]) && row.id == id {
        assert row.record[|row.record| - 1] in id;
        BareNeverFinds(buf, lines[1..], id);
      } else if !KeepsId(buf, lines[0]) && bare == id {
        FoundHasId(buf, lines[1..], id);
      } else if row.id != id && bare != id {
        FindIsBare(buf, lines[1..], id);
      }
    }
  }

  function FirstRecord(rows: seq<Row>, id: Text): Text {
    if rows == [] then [] else if rows[0].id == id then rows[0].record else FirstRecord(rows[1..], id)
  }

  /** The prefix filter loses no line that has the queried id, provided the prefix is ASCII. */
  lemma {:induction false} FilterKeepsId(prefix: Text, buf: Text, lines: seq<Span>, id: Text)
    requires prefix <= id && Ascii(prefix) && Inside(buf, lines)
    ensures FirstRecord(Select(prefix, buf, lines), id) == Find(buf, lines, id)
  {
    if lines == [] {
    } else {
      var line := buf[lines[0].start..lines[0].stop];
      var rest := Select(prefix, buf, lines[1..]);
      FilterKeepsId(prefix, buf, lines[1..], id);
      BeforeCommaIsId(line);
      MatchedIsAsciiPrefix(prefix, line);
      if Matched(prefix, line) {
        assert Select(prefix, buf, lines)[1..] == rest;
      } else {
        assert Select(prefix, buf, lines) == rest;
      }
    }
  }

  /** A prefix with a byte of 128 or more filters everything out. */
  lemma {:induction false} NonAsciiKeepsNothing(prefix: Text, buf: Text, lines: seq<Span>)
    requires !Ascii(prefix) && Inside(buf, lines)
    ensures Select(prefix, buf, lines) == []
  {
    if lines == [] {
    } else {
      MatchedIsAsciiPrefix(prefix, buf[lines[0].start..lines[0].stop]);
      NonAsciiKeepsNothing(prefix, buf, lines[1..]);
    }
  }

  // ---------------------------------------------------------------------------------------------
  // What the client opens
  // ---------------------------------------------------------------------------------------------

  /** One run of the protocol up to the random choices. */
  datatype Query = Query(env: Env, choice: Text, order: nat, a: int, b: int) {
    ghost predicate Valid() {
      env.Valid() && order <= |choice| && forall x :: 0 <= x < env.q ==> |env.point(x)| >= 32
    }

    function Sender(): SenderMessage
      requires env.q > 0 && order <= |choice|
    {
      SenderGenerateCipher(env, choice, order, a, b)
    }

    function ServerPoint(row: Row, draw: Draw): Text
      requires env.q > 0 && order <= |choice|
    {
      env.point(ServerKey(env, Sender().pointY, Sender().pointZ, row.id, draw))
    }

    function ClientPoint(draw: Draw): Text
      requires env.q > 0 && order <= |choice|
    {
      env.point(ClientKey(env, PointW(env, Sender().pointX, draw), b))
    }

    /** The two keys agree on the 16 bytes that mask the marker. */
    ghost predicate Hit(row: Row, draw: Draw)
      requires Valid()
    {
      && |ServerPoint(row, draw)| >= 16 && |ClientPoint(draw)| >= 16
      && ServerPoint(row, draw)[..16] == ClientPoint(draw)[..16]
    }
  }

  ghost predicate Usable(q: Query, draws: seq<Draw>)
  {
    q.env.q > 0 && forall i :: 0 <= i < |draws| ==> |draws[i].randomKey| >= 16 && draws[i].s % q.env.q != 0
  }

  /** The unmasked message shows the marker exactly on a hit, and a row whose id hashes like the
      queried one is opened completely. */
  lemma {:induction false} OpenRow(q: Query, rows: seq<Row>, draws: seq<Draw>, m: ReceiverMessage, i: nat)
    requires q.Valid() && Usable(q, draws) && i < |rows| <= |draws|
    requires Answers(q.env, q.Sender(), rows, draws, m) && WellFormed(q.env, q.b, m)
    ensures MARKER <= Unmask(q.env, q.b, m, i) <==> q.Hit(rows[i], draws[i])
    ensures q.env.hash(rows[i].id) == q.env.hash(q.choice) ==>
              q.Hit(rows[i], draws[i])
              && q.env.unseal(Unmask(q.env, q.b, m, i)[16..32], m.ciphers[i]) == rows[i].record
  {
    var k, k' := q.ServerPoint(rows[i], draws[i]), q.ClientPoint(draws[i]);
    var plain := MARKER + draws[i].randomKey[..16];
    var shown := Unmask(q.env, q.b, m, i);
    forall j | 0 <= j < 32 ensures shown[j] == plain[j] <==> k[j] == k'[j] {
      XorTwice(plain, k, k', j);
    }
    if MARKER <= shown {
      forall j | 0 <= j < 16 ensures k[j] == k'[j] {
        assert shown[j] == MARKER[j] == plain[j];
      }
      assert k[..16] == k'[..16];
    }
    if k[..16] == k'[..16] {
      forall j | 0 <= j < 16 ensures shown[j] == MARKER[j] {
        assert k[j] == k[..16][j] == k'[..16][j];
      }
      assert shown[..16] == MARKER;
    }
    if q.env.hash(rows[i].id) == q.env.hash(q.choice) {
      KeysAgree(q.env, q.choice, q.order, q.a, q.b, rows[i].id, draws[i]);
      assert shown == plain;
      assert shown[16..32] == draws[i].randomKey[..16];
    }
  }

  lemma AnswersWellFormed(q: Query, rows: seq<Row>, draws: seq<Draw>, m: ReceiverMessage)
    requires q.Valid() && Usable(q, draws) && |rows| <= |draws| && Answers(q.env, q.Sender(), rows, draws, m)
    ensures WellFormed(q.env, q.b, m)
  {
    forall i | 0 <= i < |m.pointW|
      ensures |m.messages[i]| == 32 && |q.env.point(ClientKey(q.env, m.pointW[i], q.b))| >= 32
    {
      var key := ClientKey(q.env, m.pointW[i], q.b);
      assert 0 <= key < q.env.q;
    }
  }

  /** From row i on, no row before the first one with the queried id is hit by accident. */
  ghost predicate NoFalseHit(q: Query, rows: seq<Row>, draws: seq<Draw>, i: nat)
    requires q.Valid() && |rows| <= |draws|
    decreases |rows| - i
  {
    i >= |rows| || rows[i].id == q.choice
    || (!q.Hit(rows[i], draws[i]) && NoFalseHit(q, rows, draws, i + 1))
  }

  lemma {:induction false} FinishFindsFirst(q: Query, rows: seq<Row>, draws: seq<Draw>, m: ReceiverMessage, i: nat)
    requires q.Valid() && Usable(q, draws) && i <= |rows| <= |draws|
    requires Answers(q.env, q.Sender(), rows, draws, m) && WellFormed(q.env, q.b, m)
    requires NoFalseHit(q, rows, draws, i)
    ensures Finish(q.env, q.b, m, i) == FirstRecord(rows[i..], q.choice)
    decreases |rows| - i
  {
    if i < |rows| {
      FinishStep(q, rows, draws, m, i);
      assert rows[i..][0] == rows[i] && rows[i..][1..] == rows[i + 1..];
      if rows[i].id != q.choice {
        FinishFindsFirst(q, rows, draws, m, i + 1);
      }
    }
  }

  lemma FinishStep(q: Query, rows: seq<Row>, draws: seq<Draw>, m: ReceiverMessage, i: nat)
    requires q.Valid() && Usable(q, draws) && i < |rows| <= |draws|
    requires Answers(q.env, q.Sender(), rows, draws, m) && WellFormed(q.env, q.b, m)
    ensures rows[i].id == q.choice ==> Finish(q.env, q.b, m, i) == rows[i].record
    ensures !q.Hit(rows[i], draws[i]) ==> Finish(q.env, q.b, m, i) == Finish(q.env, q.b, m, i + 1)
  {
    OpenRow(q, rows, draws, m, i);
  }

  /** The private lookup returns what the plain lookup returns, for every file, id, prefix length and
      random choice without an accidental hit, exactly when the prefix is ASCII or there is nothing
      to find. */
  lemma {:induction false} RefinesPlainLookup(q: Query, buf: Text, draws: seq<Draw>, m: ReceiverMessage)
    requires q.Valid() && Usable(q, draws)
    requires |Rows(q.Sender().prefix, buf)| <= |draws|
    requires Answers(q.env, q.Sender(), Rows(q.Sender().prefix, buf), draws, m)
    requires NoFalseHit(q, Rows(q.Sender().prefix, buf), draws, 0)
    ensures WellFormed(q.env, q.b, m)
    ensures Finish(q.env, q.b, m, 0) == PlainLookup(buf, q.choice)
            <==> Ascii(q.choice[..q.order]) || PlainLookup(buf, q.choice) == []
  {
    FinishIsPlain(q, buf, draws, m);
  }

  /** Both outcomes: with an ASCII prefix the plain result, else nothing. */
  lemma {:induction false} FinishIsPlain(q: Query, buf: Text, draws: seq<Draw>, m: ReceiverMessage)
    requires q.Valid() && Usable(q, draws)
    requires |Rows(q.Sender().prefix, buf)| <= |draws|
    requires Answers(q.env, q.Sender(), Rows(q.Sender().prefix, buf), draws, m)
    requires NoFalseHit(q, Rows(q.Sender().prefix, buf), draws, 0)
    ensures WellFormed(q.env, q.b, m)
    ensures Finish(q.env, q.b, m, 0) ==
            if Ascii(q.choice[..q.order]) then PlainLookup(buf, q.choice) else []
  {
    var prefix := q.Sender().prefix;
    var rows := Rows(prefix, buf);
    AnswersWellFormed(q, rows, draws, m);
    FinishFindsFirst(q, rows, draws, m, 0);
    assert rows[0..] == rows;
    if Ascii(prefix) {
      FilterKeepsId(prefix, buf, Lines(buf, 0), q.choice);
    } else {
      NonAsciiKeepsNothing(prefix, buf, Lines(buf, 0));
    }
  }

  /** The same against the search by what the lines show. An id alone on a line of a "\r\n" file is the
      case that fails: both of the program's searches read the terminator as part of the id. */
  lemma {:induction false} RefinesBareLookup(q: Query, buf: Text, draws: seq<Draw>, m: ReceiverMessage)
    requires q.Valid() && Usable(q, draws)
    requires |Rows(q.Sender().prefix, buf)| <= |draws|
    requires Answers(q.env, q.Sender(), Rows(q.Sender().prefix, buf), draws, m)
    requires NoFalseHit(q, Rows(q.Sender().prefix, buf), draws, 0)
    ensures WellFormed(q.env, q.b, m)
    ensures Finish(q.env, q.b, m, 0) == BareLookup(buf, q.choice)
            <==> if Ascii(q.choice[..q.order]) then FirstKeepsId(buf, Lines(buf, 0), q.choice)
                 else BareLookup(buf, q.choice) == []
  {
    FinishIsPlain(q, buf, draws, m);
    LinesAreLines(buf, 0);
    FindIsBare(buf, Lines(buf, 0), q.choice);
  }

  /** It happens: in the file "ab\r\n" a reader sees the id "ab", and neither search finds it. */
  lemma {:induction false} IdAloneIsMissed()
    ensures var buf, id := [97, 98, CR, LF], [97, 98];
            BareLookup(buf, id) == [97, 98, CR] && PlainLookup(buf, id) == []
  {
    var buf: Text, id: Text := [97, 98, CR, LF], [97, 98];
    assert LineEnd(buf, 2) == 3 && LineEnd(buf, 1) == 3 && LineEnd(buf, 0) == 3;
    assert Lines(buf, 4) == [] && Lines(buf, 0) == [Span(0, 3)];
    assert Bare(buf, Span(0, 3)) == id && buf[0..3] == id + [CR];
    CommaDecides(id, CR);
    var lines := Lines(buf, 0);
    assert COMMA !in id && RowAt(buf, lines[0]).id == id + [CR] != id;
    assert lines[1..] == [] && Find(buf, lines[1..], id) == [];
    assert Find(buf, lines, id) == [];
  }

  /** The three calls in a row, as the two parties make them. No key point is ever too short. */
  method Lookup(q: Query, buf: Text, draws: seq<Draw>) returns (r: Result<Text>)
    requires q.Valid() && Usable(q, draws)
    requires |Rows(q.choice[..q.order], buf)| <= |draws|
    requires NoFalseHit(q, Rows(q.choice[..q.order], buf), draws, 0)
    ensures buf == [] ==> r == Err(EmptyFile)
    ensures buf != [] && Ascii(q.choice[..q.order]) ==>
              forall k :: FirstWithId(buf, Lines(buf, 0), q.choice, k) ==>
                && IsLine(buf, Lines(buf, 0)[k].start, Lines(buf, 0)[k].stop)
                && r == Ok(buf[Lines(buf, 0)[k].start..Lines(buf, 0)[k].stop])
    ensures buf != [] && (!Ascii(q.choice[..q.order]) || forall k :: !FirstWithId(buf, Lines(buf, 0), q.choice, k)) ==>
              r == Ok([])
    ensures buf != [] ==> (r == Ok(PlainLookup(buf, q.choice))
                           <==> Ascii(q.choice[..q.order]) || PlainLookup(buf, q.choice) == [])
    ensures buf != [] ==> (r == Ok(BareLookup(buf, q.choice))
                           <==> if Ascii(q.choice[..q.order]) then FirstKeepsId(buf, Lines(buf, 0), q.choice)
                                else BareLookup(buf, q.choice) == [])
  {
    var sender := q.Sender();
    PlainLookupIsLine(buf, q.choice);
    var read := ReadInputsWithPrefix(sender.prefix, buf);
    if read.Err? {
      return Err(read.error);
    }
    var answer := ReceiverGenerateMessage(q.env, sender, read.value, draws);
    KeysLongEnough(q, read.value, draws);
    FinishIsPlain(q, buf, draws, answer.value);
    RefinesBareLookup(q, buf, draws, answer.value);
    r := FinishSender(q.env, sender.blindingB, answer.value);
  }

  lemma PlainLookupIsLine(buf: Text, id: Text)
    ensures forall k :: FirstWithId(buf, Lines(buf, 0), id, k) ==>
              && IsLine(buf, Lines(buf, 0)[k].start, Lines(buf, 0)[k].stop)
              && PlainLookup(buf, id) == buf[Lines(buf, 0)[k].start..Lines(buf, 0)[k].stop]
    ensures (forall k :: !FirstWithId(buf, Lines(buf, 0), id, k)) ==> PlainLookup(buf, id) == []
  {
    var lines := Lines(buf, 0);
    LinesAreLines(buf, 0);
    forall k | FirstWithId(buf, lines, id, k) ensures PlainLookup(buf, id) == buf[lines[k].start..lines[k].stop] {
      FindIsFirst(buf, lines, id, k);
    }
    SomeFirst(buf, lines, id, |lines|);
    if forall k :: !FirstWithId(buf, lines, id, k) {
      FindIsNone(buf, lines, id);
    }
  }

  lemma {:induction false} SomeFirst(buf: Text, lines: seq<Span>, id: Text, n: nat)
    requires Inside(buf, lines) && n <= |lines|
    ensures (exists k :: FirstWithId(buf, lines, id, k))
            || forall k :: 0 <= k < n ==> !HasId(buf[lines[k].start..lines[k].stop], id)
  {
    if n > 0 {
      SomeFirst(buf, lines, id, n - 1);
      if HasId(buf[lines[n - 1].start..lines[n - 1].stop], id) && !exists k :: FirstWithId(buf, lines, id, k) {
        assert FirstWithId(buf, lines, id, n - 1);
      }
    }
  }

  lemma KeysLongEnough(q: Query, rows: seq<Row>, draws: seq<Draw>)
    requires q.Valid() && |rows| <= |draws|
    ensures forall i :: 0 <= i < |rows| ==> LongEnough(q.env, q.Sender(), rows[i], draws[i])
  {
    forall i | 0 <= i < |rows| ensures LongEnough(q.env, q.Sender(), rows[i], draws[i]) {
      var key := ServerKey(q.env, q.Sender().pointY, q.Sender().pointZ, rows[i].id, draws[i]);
      assert 0 <= key < q.env.q;
    }
  }
}

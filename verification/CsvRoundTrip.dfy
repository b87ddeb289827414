/** Reading back what the CSV printer wrote. */
module CsvRoundTrip {
  import opened Common
  import opened Csv

  // ---------- running the reader ----------

  lemma RunAppend(py: bool, r: Reader, text: string, c: char)
    ensures Run(py, r, text + [c]) == Feed(py, Run(py, r, text), c)
  {
    assert (text + [c])[..|text|] == text;
  }

  lemma {:induction false} RunConcat(py: bool, r: Reader, a: string, b: string)
    ensures Run(py, r, a + b) == Run(py, Run(py, r, a), b)
  {
    if b == "" {
      assert a + b == a;
    } else {
      var front := b[..|b| - 1];
      RunConcat(py, r, a, front);
      assert a + b == (a + front) + [b[|b| - 1]];
      RunAppend(py, r, a + front, b[|b| - 1]);
    }
  }

  lemma {:induction false} BadStaysBad(py: bool, text: string)
    ensures Run(py, Bad, text) == Bad
  {
    if text != "" {
      BadStaysBad(py, text[..|text| - 1]);
    }
  }

  // ---------- one field ----------

  /** Ready for the first character of a field. */
  ghost predicate AtField(r: Reader) {
    r.Reader? && r.field == "" && (r.mode == StartField || (r.mode == StartRecord && r.fields == []))
  }

  /** A field has been read; the next comma or newline closes it. */
  ghost predicate HasRead(r: Reader, before: Reader, cell: string)
    requires before.Reader?
  {
    && r.Reader? && r.field == cell && r.fields == before.fields && r.out == before.out
    && (if cell == "" then r.mode == before.mode else r.mode == InField || r.mode == QuoteInQuoted)
  }

  /** Text that an unquoted field can hold. */
  predicate Unquoted(py: bool, text: string) {
    ',' !in text && '\n' !in text && (py ==> '\r' !in text) && (text != "" ==> text[0] != '"')
  }

  /** The reader has room for the field. */
  predicate Fits(py: bool, text: string) {
    !py || |text| <= FIELD_LIMIT
  }

  lemma {:induction false} ReadUnquoted(py: bool, r: Reader, text: string)
    requires AtField(r) && Unquoted(py, text)
    ensures Fits(py, text) ==> HasRead(Run(py, r, text), r, text) && Run(py, r, text).mode != QuoteInQuoted
    ensures !Fits(py, text) ==> Run(py, r, text) == Bad
  {
    if text != "" {
      var front := text[..|text| - 1];
      assert text == front + [text[|text| - 1]];
      ReadUnquoted(py, r, front);
    }
  }

  function Twice(c: char): string {
    if c == '"' then "\"\"" else [c]
  }

  lemma InsideQuotes(py: bool, r: Reader, c: char)
    requires r.Reader? && r.mode == InQuoted
    ensures Run(py, r, Twice(c)) == Put(py, r, c, InQuoted)
  {
    assert Twice(c) == if c == '"' then ("" + ['"']) + ['"'] else "" + [c];
    RunAppend(py, r, "", c);
    if c == '"' {
      RunAppend(py, r, "" + ['"'], '"');
    }
  }

  lemma {:induction false} ReadInsideQuotes(py: bool, r: Reader, cell: string)
    requires r.Reader? && r.mode == InQuoted && r.field == ""
    ensures Run(py, r, Doubled(cell)) == if Fits(py, cell) then r.(field := cell) else Bad
  {
    if cell != "" {
      var front, last := cell[..|cell| - 1], cell[|cell| - 1];
      ReadInsideQuotes(py, r, front);
      InsideQuotes(py, r.(field := front), last);
      BadStaysBad(py, Twice(last));
      RunConcat(py, r, Doubled(front), Twice(last));
      assert cell == front + [last];
    }
  }

  lemma {:induction false} NothingDoubled(cell: string)
    requires '"' !in cell
    ensures Doubled(cell) == cell
  {
    if cell != "" {
      assert forall c :: c in cell[..|cell| - 1] ==> c in cell;
      NothingDoubled(cell[..|cell| - 1]);
    }
  }

  /** A carriage return that the printer leaves unquoted. */
  predicate BareReturn(cell: string) {
    '\r' in cell && !Quoted(cell)
  }

  /** The printed cell reads back, unless it is too long or holds a bare carriage return that the reader
      takes for a line end. */
  lemma ReadCell(py: bool, r: Reader, cell: string)
    requires AtField(r) && (py ==> !BareReturn(cell))
    ensures Fits(py, cell) ==> HasRead(Run(py, r, Escaped(cell)), r, cell)
    ensures !Fits(py, cell) ==> Run(py, r, Escaped(cell)) == Bad
  {
    if Quoted(cell) {
      var open := r.(mode := InQuoted);
      RunAppend(py, r, "", '"');
      assert "" + ['"'] == "\"";
      assert Run(py, r, "\"") == open;
      ReadInsideQuotes(py, open, cell);
      RunConcat(py, r, "\"", Doubled(cell));
      assert Escaped(cell) == ("\"" + Doubled(cell)) + ['"'];
      RunAppend(py, r, "\"" + Doubled(cell), '"');
    } else {
      NothingDoubled(cell);
      ReadUnquoted(py, r, cell);
    }
  }

  /** What a cell that does not read back leaves: an error, or a line that is over before the field is. */
  ghost predicate CutShort(r: Reader, before: Reader, cell: string)
    requires before.Reader?
  {
    || r.Bad?
    || (r.mode == EatNewline && r.field == "" && r.out == before.out
        && ((r.fields == [] && before.fields == [])
            || (|r.fields| == |before.fields| + 1 && r.fields[|before.fields|] != cell)))
  }

  lemma {:induction false} ReadBareReturn(r: Reader, text: string)
    requires AtField(r) && !Quoted(text) && '\r' in text
    ensures EndedEarly(Run(true, r, text), r, |text|)
  {
    var front, c := text[..|text| - 1], text[|text| - 1];
    assert text == front + [c];
    if '\r' in front {
      ReadBareReturn(r, front);
      AfterEarly(Run(true, r, front), r, |front|, c);
    } else {
      assert c == '\r';
      FirstReturn(r, front);
    }
  }

  /** The line is over, and its last field is shorter than the cell it was read from. */
  ghost predicate EndedEarly(s: Reader, before: Reader, length: nat)
    requires before.Reader?
  {
    || s.Bad?
    || (s.mode == EatNewline && s.field == "" && s.out == before.out
        && ((s.fields == [] && before.fields == [])
            || (|s.fields| == |before.fields| + 1 && |s.fields[|before.fields|]| < length)))
  }

  lemma AfterEarly(s: Reader, before: Reader, length: nat, c: char)
    requires before.Reader? && EndedEarly(s, before, length) && c != '\n'
    ensures EndedEarly(Feed(true, s, c), before, length + 1)
  {
  }

  lemma FirstReturn(r: Reader, front: string)
    requires AtField(r) && !Quoted(front) && '\r' !in front
    ensures EndedEarly(Feed(true, Run(true, r, front), '\r'), r, |front| + 1)
  {
    ReadUnquoted(true, r, front);
  }

  // ---------- one line ----------

  /** The printed parts of a line: escaped cells, or headers as they are. */
  ghost predicate PartsFor(py: bool, parts: seq<string>, cells: seq<string>) {
    |parts| == |cells| && forall i :: 0 <= i < |parts| ==> PartFor(py, parts[i], cells[i])
  }

  ghost predicate PartFor(py: bool, part: string, cell: string) {
    part == Escaped(cell) || (part == cell && Unquoted(py, cell))
  }

  ghost predicate GoodPart(py: bool, part: string, cell: string) {
    Fits(py, cell) && ((part == Escaped(cell) && (py ==> !BareReturn(cell))) || (part == cell && Unquoted(py, cell)))
  }

  ghost predicate GoodParts(py: bool, parts: seq<string>, cells: seq<string>) {
    |parts| == |cells| && forall i :: 0 <= i < |parts| ==> GoodPart(py, parts[i], cells[i])
  }

  function Opening(out: seq<seq<string>>): Reader {
    Reader(StartRecord, "", [], out)
  }

  lemma ReadPart(py: bool, r: Reader, part: string, cell: string)
    requires AtField(r) && PartFor(py, part, cell)
    ensures GoodPart(py, part, cell) ==> HasRead(Run(py, r, part), r, cell)
    ensures !GoodPart(py, part, cell) ==> CutShort(Run(py, r, part), r, cell)
  {
    if part == cell && Unquoted(py, cell) {
      ReadUnquoted(py, r, cell);
    } else if py && BareReturn(cell) {
      NothingDoubled(cell);
      ReadBareReturn(r, cell);
    } else {
      ReadCell(py, r, cell);
    }
  }

  /** The reader at the start of the last field of a line whose earlier fields read well. */
  function AtLast(cells: seq<string>, out: seq<seq<string>>): Reader
    requires |cells| >= 1
  {
    Reader(if |cells| == 1 then StartRecord else StartField, "", cells[..|cells| - 1], out)
  }

  /** Where the reader stands before a line's closing newline. */
  ghost predicate LineRead(py: bool, parts: seq<string>, cells: seq<string>, out: seq<seq<string>>, s: Reader)
    requires |cells| >= 1
  {
    LineEnd(GoodParts(py, parts, cells), cells, out, s)
  }

  ghost predicate LineEnd(good: bool, cells: seq<string>, out: seq<seq<string>>, s: Reader)
    requires |cells| >= 1
  {
    var at, cell := AtLast(cells, out), cells[|cells| - 1];
    if good then HasRead(s, at, cell) else CutShort(s, at, cell)
  }

  lemma GoodPartsSplit(py: bool, parts: seq<string>, cells: seq<string>)
    requires |parts| == |cells| >= 1
    ensures var n := |cells| - 1;
            GoodParts(py, parts, cells) <==> GoodParts(py, parts[..n], cells[..n]) && GoodPart(py, parts[n], cells[n])
  {
    var n := |cells| - 1;
    forall i | 0 <= i < n ensures parts[..n][i] == parts[i] && cells[..n][i] == cells[i] {
    }
  }

  lemma {:induction false} ReadLine(py: bool, parts: seq<string>, cells: seq<string>, out: seq<seq<string>>)
    requires PartsFor(py, parts, cells) && |parts| >= 1
    ensures LineRead(py, parts, cells, out, Run(py, Opening(out), Join(parts, ',')))
  {
    var n := |cells| - 1;
    if n == 0 {
      ReadOnlyPart(py, parts[0], cells[0], out);
      assert parts == [parts[0]] && cells == [cells[0]];
    } else {
      ReadLine(py, parts[..n], cells[..n], out);
      ReadNextPart(py, parts, cells, out);
    }
  }

  /** One cell over the limit is enough for an error, wherever it stands in a line of plain cells. */
  lemma {:induction false} ReadLongPlainLine(cells: seq<string>, out: seq<seq<string>>)
    requires |cells| >= 1 && forall i :: 0 <= i < |cells| ==> Unquoted(true, cells[i])
    requires exists i :: 0 <= i < |cells| && !Fits(true, cells[i])
    ensures Run(true, Opening(out), Join(cells, ',')) == Bad
  {
    var n := |cells| - 1;
    if n == 0 {
      ReadUnquoted(true, Opening(out), cells[0]);
    } else {
      RunParts(true, Opening(out), cells);
      if i :| 0 <= i < n && !Fits(true, cells[i]) {
        assert !Fits(true, cells[..n][i]);
        ReadLongPlainLine(cells[..n], out);
        BadStaysBad(true, cells[n]);
      } else {
        LongLastCell(cells, out);
      }
    }
  }

  lemma LongLastCell(cells: seq<string>, out: seq<seq<string>>)
    requires |cells| >= 2 && forall i :: 0 <= i < |cells| ==> Unquoted(true, cells[i])
    requires forall i :: 0 <= i < |cells| - 1 ==> Fits(true, cells[i])
    requires !Fits(true, cells[|cells| - 1])
    ensures var n := |cells| - 1;
            Run(true, Feed(true, Run(true, Opening(out), Join(cells[..n], ',')), ','), cells[n]) == Bad
  {
    var n := |cells| - 1;
    ReadLine(true, cells[..n], cells[..n], out);
    AfterComma(true, cells, out, Run(true, Opening(out), Join(cells[..n], ',')));
    ReadUnquoted(true, AtLast(cells, out), cells[n]);
  }

  lemma RunParts(py: bool, r: Reader, parts: seq<string>)
    requires |parts| >= 2
    ensures var n := |parts| - 1;
            Run(py, r, Join(parts, ',')) == Run(py, Feed(py, Run(py, r, Join(parts[..n], ',')), ','), parts[n])
  {
    var n := |parts| - 1;
    var head := Join(parts[..n], ',');
    RunAppend(py, r, head, ',');
    RunConcat(py, r, head + [','], parts[n]);
  }

  lemma ReadOnlyPart(py: bool, part: string, cell: string, out: seq<seq<string>>)
    requires PartFor(py, part, cell)
    ensures LineRead(py, [part], [cell], out, Run(py, Opening(out), part))
  {
    ReadPart(py, Opening(out), part, cell);
    assert AtLast([cell], out) == Opening(out);
  }

  lemma ReadNextPart(py: bool, parts: seq<string>, cells: seq<string>, out: seq<seq<string>>)
    requires |parts| == |cells| >= 2 && PartFor(py, parts[|parts| - 1], cells[|parts| - 1])
    requires var n := |cells| - 1;
             LineRead(py, parts[..n], cells[..n], out, Run(py, Opening(out), Join(parts[..n], ',')))
    ensures LineRead(py, parts, cells, out, Run(py, Opening(out), Join(parts, ',')))
  {
    var n := |cells| - 1;
    RunParts(py, Opening(out), parts);
    AddPart(py, parts[..n], cells, parts[n], out, Run(py, Opening(out), Join(parts[..n], ',')));
    GoodPartsSplit(py, parts, cells);
  }

  lemma AddPart(py: bool, front: seq<string>, cells: seq<string>, part: string, out: seq<seq<string>>, s: Reader)
    requires |cells| == |front| + 1 >= 2
    requires LineRead(py, front, cells[..|front|], out, s) && PartFor(py, part, cells[|front|])
    ensures var after := Run(py, Feed(py, s, ','), part);
            LineEnd(GoodParts(py, front, cells[..|front|]) && GoodPart(py, part, cells[|front|]), cells, out, after)
  {
    AfterComma(py, cells, out, s);
    BadStaysBad(py, part);
    ReadPart(py, AtLast(cells, out), part, cells[|front|]);
  }

  lemma AfterComma(py: bool, cells: seq<string>, out: seq<seq<string>>, s: Reader)
    requires |cells| >= 2
    ensures var front := cells[..|cells| - 1];
            && (HasRead(s, AtLast(front, out), front[|front| - 1]) ==> Feed(py, s, ',') == AtLast(cells, out))
            && (CutShort(s, AtLast(front, out), front[|front| - 1]) ==> Feed(py, s, ',') == Bad)
  {
    var front := cells[..|cells| - 1];
    assert front[..|front| - 1] + [front[|front| - 1]] == front;
  }

  /** The record a line gives: its cells; nothing for an empty line; a wrong last cell, or nothing, after a
      bare return. */
  ghost predicate Emitted(good: bool, cells: seq<string>, record: seq<string>)
    requires |cells| >= 1
  {
    if good then record == if cells == [""] then [] else cells
    else record == [] || (|record| == |cells| && record[|cells| - 1] != cells[|cells| - 1])
  }

  /** The reader after the newline that closes a line. */
  ghost predicate LineClosed(good: bool, cells: seq<string>, out: seq<seq<string>>, s: Reader)
    requires |cells| >= 1
  {
    && (good ==> s.Reader?)
    && (s.Reader? ==> |s.out| == |out| + 1 && s == Opening(out + [s.out[|out|]]) && Emitted(good, cells, s.out[|out|]))
  }

  lemma CloseLine(py: bool, good: bool, cells: seq<string>, out: seq<seq<string>>, last: Reader)
    requires |cells| >= 1
    requires LineEnd(good, cells, out, last)
    ensures LineClosed(good, cells, out, Feed(py, last, '\n'))
  {
    var n := |cells| - 1;
    assert cells[..n] + [cells[n]] == cells;
  }

  // ---------- all lines ----------

  /** How the cells of one row were turned into the parts of its line. */
  datatype Row = Row(parts: seq<string>, cells: seq<string>)

  function RowLines(rows: seq<Row>): seq<string> {
    seq(|rows|, i requires 0 <= i < |rows| => Join(rows[i].parts, ','))
  }

  ghost predicate Table(py: bool, rows: seq<Row>) {
    forall i :: 0 <= i < |rows| ==> |rows[i].parts| >= 1 && PartsFor(py, rows[i].parts, rows[i].cells)
  }

  ghost predicate GoodRow(py: bool, row: Row) {
    GoodParts(py, row.parts, row.cells)
  }

  /** The records of the first rows, one each. */
  ghost predicate Records(py: bool, rows: seq<Row>, out: seq<seq<string>>)
    requires Table(py, rows)
  {
    |out| == |rows| && forall i :: 0 <= i < |rows| ==> Emitted(GoodRow(py, rows[i]), rows[i].cells, out[i])
  }

  /** The reader after the text and one more newline. */
  function Closed(py: bool, rows: seq<Row>): Reader {
    Feed(py, Run(py, FRESH, Join(RowLines(rows), '\n')), '\n')
  }

  /** The reader at the start of the last line. */
  function LineStart(py: bool, rows: seq<Row>): Reader
    requires |rows| >= 1
  {
    if |rows| == 1 then FRESH else Closed(py, rows[..|rows| - 1])
  }

  lemma RunLines(py: bool, rows: seq<Row>)
    requires |rows| >= 1
    ensures var n := |rows| - 1;
            Run(py, FRESH, Join(RowLines(rows), '\n')) == Run(py, LineStart(py, rows), Join(rows[n].parts, ','))
  {
    var n := |rows| - 1;
    assert RowLines(rows)[..n] == RowLines(rows[..n]);
    if n > 0 {
      var head := Join(RowLines(rows[..n]), '\n');
      RunAppend(py, FRESH, head, '\n');
      RunConcat(py, FRESH, head + ['\n'], RowLines(rows)[n]);
    }
  }

  lemma {:induction false} BadFirstLine(rows: seq<Row>)
    requires |rows| >= 1 && Run(true, FRESH, Join(rows[0].parts, ',')) == Bad
    ensures Closed(true, rows) == Bad
  {
    var n := |rows| - 1;
    RunLines(true, rows);
    if n > 0 {
      BadFirstLine(rows[..n]);
      BadStaysBad(true, Join(rows[n].parts, ','));
    }
  }

  lemma RecordsAppend(py: bool, rows: seq<Row>, out: seq<seq<string>>, record: seq<string>)
    requires |rows| >= 1 && Table(py, rows)
    requires Records(py, rows[..|rows| - 1], out)
             && Emitted(GoodRow(py, rows[|rows| - 1]), rows[|rows| - 1].cells, record)
    ensures Records(py, rows, out + [record])
  {
  }

  ghost predicate TableRead(py: bool, rows: seq<Row>, s: Reader)
    requires Table(py, rows)
  {
    && ((forall i :: 0 <= i < |rows| ==> GoodRow(py, rows[i])) ==> s.Reader?)
    && (s.Reader? ==> s == Opening(s.out) && Records(py, rows, s.out))
  }

  lemma {:induction false} ReadTable(py: bool, rows: seq<Row>)
    requires |rows| >= 1 && Table(py, rows)
    ensures TableRead(py, rows, Closed(py, rows))
  {
    var n := |rows| - 1;
    RunLines(py, rows);
    var start := LineStart(py, rows);
    if n > 0 {
      ReadTable(py, rows[..n]);
    } else {
      assert rows[..n] == [];
    }
    assert TableRead(py, rows[..n], start);
    AddRow(py, rows, start);
  }

  lemma AddRow(py: bool, rows: seq<Row>, start: Reader)
    requires |rows| >= 1 && Table(py, rows) && TableRead(py, rows[..|rows| - 1], start)
    ensures TableRead(py, rows, Feed(py, Run(py, start, Join(rows[|rows| - 1].parts, ',')), '\n'))
  {
    var row := rows[|rows| - 1];
    var s := Feed(py, Run(py, start, Join(row.parts, ',')), '\n');
    if start.Reader? {
      ReadRow(py, row, start.out);
      if s.Reader? {
        RecordsAppend(py, rows, start.out, s.out[|start.out|]);
      }
    } else {
      BadStaysBad(py, Join(row.parts, ','));
    }
  }

  lemma ReadRow(py: bool, row: Row, out: seq<seq<string>>)
    requires |row.parts| >= 1 && PartsFor(py, row.parts, row.cells)
    ensures LineClosed(GoodRow(py, row), row.cells, out, Feed(py, Run(py, Opening(out), Join(row.parts, ',')), '\n'))
  {
    ReadLine(py, row.parts, row.cells, out);
    CloseLine(py, GoodRow(py, row), row.cells, out, Run(py, Opening(out), Join(row.parts, ',')));
  }

  // ---------- the end of the text ----------

  /** Leaving out the last newline loses at most an empty record. */
  lemma FinishWithoutNewline(rows: seq<Row>)
    requires |rows| >= 1 && Table(true, rows)
    ensures AlmostSame(Csv.Records(Join(RowLines(rows), '\n')), Closed(true, rows))
  {
    var row, start := rows[|rows| - 1], LineStart(true, rows);
    RunLines(true, rows);
    StartIsOpening(rows);
    FinishFrom(row, start);
  }

  /** What finishing makes of a text, against the reader after one more newline. */
  ghost predicate AlmostSame(all: Option<seq<seq<string>>>, s: Reader) {
    (all.None? <==> s.Bad?) && (s.Reader? ==> s.out == all.value || s.out == all.value + [[]])
  }

  lemma StartIsOpening(rows: seq<Row>)
    requires |rows| >= 1 && Table(true, rows)
    ensures var start := LineStart(true, rows); start.Reader? ==> start == Opening(start.out)
  {
    if |rows| > 1 {
      ReadTable(true, rows[..|rows| - 1]);
    }
  }

  lemma FinishFrom(row: Row, start: Reader)
    requires |row.parts| >= 1 && PartsFor(true, row.parts, row.cells) && (start.Reader? ==> start == Opening(start.out))
    ensures var last := Run(true, start, Join(row.parts, ',')); AlmostSame(Finish(last), Feed(true, last, '\n'))
  {
    if start.Reader? {
      ReadLine(true, row.parts, row.cells, start.out);
      FinishLine(row, start.out, Run(true, start, Join(row.parts, ',')));
    } else {
      BadStaysBad(true, Join(row.parts, ','));
    }
  }

  lemma FinishLine(row: Row, out: seq<seq<string>>, last: Reader)
    requires |row.cells| >= 1 && LineRead(true, row.parts, row.cells, out, last)
    ensures AlmostSame(Finish(last), Feed(true, last, '\n'))
  {
  }
}

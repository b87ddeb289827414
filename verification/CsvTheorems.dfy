/** The CSV round trip, and that the printed text determines the cells. */
module CsvTheorems {
  import opened Common
  import opened Csv
  import opened CsvRoundTrip

  /** Column names that the printer can write as they are: distinct, and nothing that needs quoting. */
  ghost predicate PlainHeaders(headers: seq<string>) {
    && |headers| >= 1 && headers != [""]
    && (forall i :: 0 <= i < |headers| ==> Unquoted(true, headers[i]))
    && (forall i, j :: 0 <= i < j < |headers| ==> headers[i] != headers[j])
  }

  /** A carriage return only stands in cells that are quoted anyway, and no cell is over the reader's limit. */
  predicate Readable(cells: seq<string>) {
    forall i :: 0 <= i < |cells| ==> !BareReturn(cells[i]) && |cells[i]| <= 131072
  }

  /** Plain headers hold no carriage return, so only their length can matter. */
  predicate Short(headers: seq<string>) {
    forall i :: 0 <= i < |headers| ==> |headers[i]| <= 131072
  }

  ghost predicate NonBlank(cells: seq<string>, white: char -> bool) {
    exists i :: 0 <= i < |cells| && !Blank(cells[i], white)
  }

  /** A row that an import keeps as it was. */
  ghost predicate Importable(cells: seq<string>, white: char -> bool) {
    Readable(cells) && NonBlank(cells, white)
  }

  // ---------- dictionaries ----------

  lemma {:induction false} DictAt(headers: seq<string>, cells: seq<string>)
    requires forall i, j :: 0 <= i < j < |headers| ==> headers[i] != headers[j]
    ensures forall h :: h in Dict(headers, cells) <==> h in headers
    ensures forall i :: 0 <= i < |headers| ==>
              Dict(headers, cells)[headers[i]] == if i < |cells| then Some(cells[i]) else None
  {
    if headers != [] {
      var n := |headers| - 1;
      DictAt(headers[..n], cells);
      assert headers == headers[..n] + [headers[n]];
    }
  }

  lemma KeepsIffNonBlank(headers: seq<string>, cells: seq<string>, white: char -> bool)
    requires PlainHeaders(headers) && |cells| == |headers|
    ensures Keeps(Dict(headers, cells), white) <==> NonBlank(cells, white)
  {
    var d := Dict(headers, cells);
    DictAt(headers, cells);
    if i :| 0 <= i < |cells| && !Blank(cells[i], white) {
      assert headers[i] in d && d[headers[i]] == Some(cells[i]);
    }
    if h :| h in d && d[h].Some? && !Blank(d[h].value, white) {
      var i :| 0 <= i < |headers| && headers[i] == h;
      assert d[headers[i]] == Some(cells[i]);
    }
  }

  /** The row a line gives, and whether it is kept: the original row, and kept, exactly for a good row with content. */
  lemma RowSurvives(headers: seq<string>, cells: seq<string>, record: seq<string>, good: bool, white: char -> bool)
    requires PlainHeaders(headers) && |cells| == |headers| && Emitted(good, cells, record)
    ensures (record != [] && Keeps(Dict(headers, record), white) && Dict(headers, record) == Dict(headers, cells))
       <==> good && NonBlank(cells, white)
  {
    DictAt(headers, cells);
    DictAt(headers, record);
    KeepsIffNonBlank(headers, cells, white);
    if good {
      if cells == [""] {
        assert Blank(cells[0], white);
      }
    } else if record != [] {
      var n := |cells| - 1;
      assert Dict(headers, record)[headers[n]] != Dict(headers, cells)[headers[n]];
    }
  }

  // ---------- tables ----------

  function Dicts(headers: seq<string>, table: seq<seq<string>>): seq<map<string, Option<string>>> {
    seq(|table|, i requires 0 <= i < |table| => Dict(headers, table[i]))
  }

  lemma {:induction false} CleanedIsShorter(headers: seq<string>, records: seq<seq<string>>, white: char -> bool)
    ensures |Cleaned(headers, records, white)| <= |records|
  {
    if records != [] {
      CleanedIsShorter(headers, records[..|records| - 1], white);
    }
  }

  /** Row i of the table was printed from `table[i]` and read as `records[i]`. */
  ghost predicate ReadAs(good: seq<bool>, table: seq<seq<string>>, records: seq<seq<string>>, width: nat) {
    && |good| == |table| == |records| && width >= 1
    && forall i :: 0 <= i < |table| ==> |table[i]| == width && Emitted(good[i], table[i], records[i])
  }

  ghost predicate AllSurvive(good: seq<bool>, table: seq<seq<string>>, white: char -> bool)
    requires |good| == |table|
  {
    forall i :: 0 <= i < |table| ==> good[i] && NonBlank(table[i], white)
  }

  lemma AllSurviveSplit(good: seq<bool>, table: seq<seq<string>>, white: char -> bool)
    requires |good| == |table| >= 1
    ensures var n := |table| - 1;
            AllSurvive(good, table, white)
            <==> AllSurvive(good[..n], table[..n], white) && good[n] && NonBlank(table[n], white)
  {
    var n := |table| - 1;
    if AllSurvive(good[..n], table[..n], white) && good[n] && NonBlank(table[n], white) {
      forall i | 0 <= i < |table| ensures good[i] && NonBlank(table[i], white) {
        assert i < n ==> good[..n][i] && NonBlank(table[..n][i], white);
      }
    }
  }

  lemma {:induction false} TableSurvives(
      headers: seq<string>, good: seq<bool>, table: seq<seq<string>>, records: seq<seq<string>>, white: char -> bool)
    requires PlainHeaders(headers) && ReadAs(good, table, records, |headers|)
    ensures Cleaned(headers, records, white) == Dicts(headers, table) <==> AllSurvive(good, table, white)
  {
    var n := |table| - 1;
    if n >= 0 {
      TableSurvives(headers, good[..n], table[..n], records[..n], white);
      RowSurvives(headers, table[n], records[n], good[n], white);
      CleanedIsShorter(headers, records[..n], white);
      LastRow(headers, table, records, white);
      AllSurviveSplit(good, table, white);
    }
  }

  lemma LastRow(headers: seq<string>, table: seq<seq<string>>, records: seq<seq<string>>, white: char -> bool)
    requires |table| == |records| >= 1
    requires |Cleaned(headers, records[..|records| - 1], white)| < |records|
    ensures var n := |table| - 1;
            Cleaned(headers, records, white) == Dicts(headers, table)
            <==> (Cleaned(headers, records[..n], white) == Dicts(headers, table[..n])
                  && records[n] != [] && Keeps(Dict(headers, records[n]), white)
                  && Dict(headers, records[n]) == Dict(headers, table[n]))
  {
    var n := |table| - 1;
    var before, all := Cleaned(headers, records[..n], white), Cleaned(headers, records, white);
    assert Dicts(headers, table) == Dicts(headers, table[..n]) + [Dict(headers, table[n])];
    assert |Dicts(headers, table)| == |records|;
    if records[n] != [] && Keeps(Dict(headers, records[n]), white) {
      assert all == before + [Dict(headers, records[n])];
      assert all[..|all| - 1] == before && all[|all| - 1] == Dict(headers, records[n]);
      assert Dicts(headers, table)[..n] == Dicts(headers, table[..n]);
    }
  }

  // ---------- from the printer to the reader ----------

  function BodyRow(cells: seq<string>): Row {
    Row(seq(|cells|, i requires 0 <= i < |cells| => Escaped(cells[i])), cells)
  }

  function RowsOf(headers: seq<string>, table: seq<seq<string>>): seq<Row> {
    [Row(headers, headers)] + seq(|table|, i requires 0 <= i < |table| => BodyRow(table[i]))
  }

  function TableOf(rows: seq<Record>, headers: seq<string>): seq<seq<string>> {
    seq(|rows|, i requires 0 <= i < |rows| => Cells(rows[i], headers))
  }

  lemma PrintedIsTable(rows: seq<Record>)
    requires rows != []
    ensures Printed(rows) == Join(RowLines(RowsOf(rows[0].keys, TableOf(rows, rows[0].keys))), '\n')
  {
    var headers := rows[0].keys;
    var lines, all := Lines(rows, headers), RowLines(RowsOf(headers, TableOf(rows, headers)));
    forall i | 0 <= i < |lines| ensures lines[i] == all[i] {
      if i > 0 {
        assert RowsOf(headers, TableOf(rows, headers))[i] == BodyRow(Cells(rows[i - 1], headers));
      }
    }
    assert lines == all;
  }

  lemma BodyRowGood(py: bool, cells: seq<string>)
    ensures PartsFor(py, BodyRow(cells).parts, cells)
    ensures GoodRow(py, BodyRow(cells)) <==> !py || Readable(cells)
  {
    var parts := BodyRow(cells).parts;
    forall i | 0 <= i < |cells|
      ensures PartFor(py, parts[i], cells[i])
      ensures GoodPart(py, parts[i], cells[i]) <==> !py || (!BareReturn(cells[i]) && |cells[i]| <= FIELD_LIMIT)
    {
      BareIsNotUnquoted(cells[i]);
    }
    if !Readable(cells) {
      var i :| 0 <= i < |cells| && (BareReturn(cells[i]) || |cells[i]| > FIELD_LIMIT);
      assert GoodPart(py, parts[i], cells[i]) <==> !py;
    }
  }

  lemma BareIsNotUnquoted(cell: string)
    ensures BareReturn(cell) ==> !Unquoted(true, cell)
  {
  }

  lemma HeaderRowGood(py: bool, headers: seq<string>)
    requires PlainHeaders(headers)
    ensures PartsFor(py, headers, headers)
    ensures !py || Short(headers) ==> GoodRow(py, Row(headers, headers))
  {
    assert forall i :: 0 <= i < |headers| ==> Unquoted(true, headers[i]) && Unquoted(py, headers[i]);
  }

  ghost predicate RowFits(py: bool, row: Row, cells: seq<string>) {
    row.cells == cells && PartsFor(py, row.parts, cells) && (GoodRow(py, row) <==> !py || Readable(cells))
  }

  lemma TableIsTable(py: bool, headers: seq<string>, table: seq<seq<string>>)
    requires PlainHeaders(headers) && forall i :: 0 <= i < |table| ==> |table[i]| == |headers|
    ensures var rows := RowsOf(headers, table);
            && Table(py, rows) && (!py || Short(headers) ==> GoodRow(py, rows[0]))
            && forall i :: 0 <= i < |table| ==> RowFits(py, rows[i + 1], table[i])
  {
    var rows := RowsOf(headers, table);
    HeaderRowGood(py, headers);
    forall i | 0 <= i < |table| ensures RowFits(py, rows[i + 1], table[i]) {
      BodyRowGood(py, table[i]);
    }
    forall i | 0 <= i < |rows| ensures |rows[i].parts| >= 1 && PartsFor(py, rows[i].parts, rows[i].cells) {
      assert i > 0 ==> RowFits(py, rows[i - 1 + 1], table[i - 1]);
    }
  }

  lemma CleanedSkipsEmpty(headers: seq<string>, records: seq<seq<string>>, white: char -> bool)
    ensures Cleaned(headers, records + [[]], white) == Cleaned(headers, records, white)
  {
    assert (records + [[]])[..|records|] == records;
  }

  /** The rows an import makes of an export. */
  function Original(rows: seq<Record>): seq<map<string, Option<string>>>
    requires rows != []
  {
    Dicts(rows[0].keys, TableOf(rows, rows[0].keys))
  }

  lemma ParsedFromRecords(text: string, headers: seq<string>, records: seq<seq<string>>, white: char -> bool)
    requires Csv.Records(text).Some?
    requires [headers] + records == Csv.Records(text).value || [headers] + records == Csv.Records(text).value + [[]]
    requires records != []
    ensures ParsedRows(text, white) == Some(Cleaned(headers, records, white))
  {
    var all, whole := Csv.Records(text).value, [headers] + records;
    assert whole[0] == headers && whole[1..] == records;
    if whole != all {
      assert whole == all + [[]] && |all| >= 1;
      assert whole[0] == all[0] && whole[1..] == all[1..] + [[]];
      CleanedSkipsEmpty(headers, all[1..], white);
    }
  }

  /** Round trip: an export read back gives the flattened rows exactly when no header and no cell is over the
      reader's limit, every carriage return stands in a cell that is quoted for another reason, and every row
      has a non-blank cell. */
  lemma RoundTripIff(rows: seq<Record>, white: char -> bool)
    requires rows != [] && PlainHeaders(rows[0].keys)
    ensures ParsedRows(Printed(rows), white) == Some(Original(rows))
       <==> Short(rows[0].keys)
            && forall i :: 0 <= i < |rows| ==> Importable(Cells(rows[i], rows[0].keys), white)
  {
    var headers := rows[0].keys;
    var table := TableOf(rows, headers);
    PrintedIsTable(rows);
    TableRoundTrip(headers, table, white);
    CellsOfTable(rows, headers, white);
  }

  lemma CellsOfTable(rows: seq<Record>, headers: seq<string>, white: char -> bool)
    ensures var table := TableOf(rows, headers);
            (forall i :: 0 <= i < |table| ==> Importable(table[i], white))
            <==> forall i :: 0 <= i < |rows| ==> Importable(Cells(rows[i], headers), white)
  {
    var table := TableOf(rows, headers);
    assert forall i :: 0 <= i < |rows| ==> table[i] == Cells(rows[i], headers);
  }

  lemma TableRoundTrip(headers: seq<string>, table: seq<seq<string>>, white: char -> bool)
    requires PlainHeaders(headers) && |table| >= 1 && forall i :: 0 <= i < |table| ==> |table[i]| == |headers|
    ensures ParsedRows(Join(RowLines(RowsOf(headers, table)), '\n'), white) == Some(Dicts(headers, table))
       <==> Short(headers) && forall i :: 0 <= i < |table| ==> Importable(table[i], white)
  {
    var lines := RowsOf(headers, table);
    TableIsTable(true, headers, table);
    ReadTable(true, lines);
    FinishWithoutNewline(lines);
    if !Short(headers) {
      ReadLongPlainLine(headers, []);
      BadFirstLine(lines);
    } else if Closed(true, lines).Reader? {
      ReadableRoundTrip(Join(RowLines(lines), '\n'), headers, table, Closed(true, lines).out, white);
    } else {
      SomeUnreadableRow(headers, table);
    }
  }

  lemma ReadableRoundTrip(
      text: string, headers: seq<string>, table: seq<seq<string>>, out: seq<seq<string>>, white: char -> bool)
    requires PlainHeaders(headers) && Short(headers)
    requires |table| >= 1 && forall i :: 0 <= i < |table| ==> |table[i]| == |headers|
    requires Table(true, RowsOf(headers, table)) && CsvRoundTrip.Records(true, RowsOf(headers, table), out)
    requires AlmostSame(Csv.Records(text), Opening(out))
    ensures ParsedRows(text, white) == Some(Dicts(headers, table))
       <==> forall i :: 0 <= i < |table| ==> Importable(table[i], white)
  {
    RecordsOfTable(true, headers, table, out);
    ParsedFromRecords(text, headers, out[1..], white);
    TableSurvives(headers, GoodFlags(true, table), table, out[1..], white);
    FlagsSurvive(table, white);
  }

  lemma FlagsSurvive(table: seq<seq<string>>, white: char -> bool)
    ensures AllSurvive(GoodFlags(true, table), table, white)
       <==> forall i :: 0 <= i < |table| ==> Importable(table[i], white)
  {
    var good := GoodFlags(true, table);
    assert forall i :: 0 <= i < |table| ==> good[i] == Readable(table[i]);
  }

  function GoodFlags(py: bool, table: seq<seq<string>>): seq<bool> {
    seq(|table|, i requires 0 <= i < |table| => !py || Readable(table[i]))
  }

  /** Behind short headers the reader raises only over a row that is not readable. */
  lemma SomeUnreadableRow(headers: seq<string>, table: seq<seq<string>>)
    requires PlainHeaders(headers) && Short(headers) && forall i :: 0 <= i < |table| ==> |table[i]| == |headers|
    requires exists i :: 0 <= i < |RowsOf(headers, table)| && !GoodRow(true, RowsOf(headers, table)[i])
    ensures exists i :: 0 <= i < |table| && !Readable(table[i])
  {
    TableIsTable(true, headers, table);
    var rows := RowsOf(headers, table);
    var i :| 0 <= i < |rows| && !GoodRow(true, rows[i]);
    assert i > 0 && RowFits(true, rows[i - 1 + 1], table[i - 1]);
  }

  /** The header record, and then one record per row. */
  lemma RecordsOfTable(py: bool, headers: seq<string>, table: seq<seq<string>>, out: seq<seq<string>>)
    requires PlainHeaders(headers) && forall i :: 0 <= i < |table| ==> |table[i]| == |headers|
    requires !py || Short(headers)
    requires Table(py, RowsOf(headers, table)) && CsvRoundTrip.Records(py, RowsOf(headers, table), out)
    ensures |out| == |table| + 1 && out == [headers] + out[1..]
    ensures ReadAs(GoodFlags(py, table), table, out[1..], |headers|)
  {
    HeaderRecord(py, headers, table, out);
    forall i | 0 <= i < |table| ensures Emitted(GoodFlags(py, table)[i], table[i], out[1..][i]) {
      BodyRecord(py, headers, table, out, i);
    }
  }

  lemma HeaderRecord(py: bool, headers: seq<string>, table: seq<seq<string>>, out: seq<seq<string>>)
    requires PlainHeaders(headers) && forall i :: 0 <= i < |table| ==> |table[i]| == |headers|
    requires !py || Short(headers)
    requires Table(py, RowsOf(headers, table)) && CsvRoundTrip.Records(py, RowsOf(headers, table), out)
    ensures out == [headers] + out[1..]
  {
    HeaderRowGood(py, headers);
    assert Emitted(GoodRow(py, RowsOf(headers, table)[0]), headers, out[0]);
  }

  lemma BodyRecord(py: bool, headers: seq<string>, table: seq<seq<string>>, out: seq<seq<string>>, i: nat)
    requires PlainHeaders(headers) && i < |table|
    requires Table(py, RowsOf(headers, table)) && CsvRoundTrip.Records(py, RowsOf(headers, table), out)
    ensures Emitted(!py || Readable(table[i]), table[i], out[i + 1])
  {
    BodyRowGood(py, table[i]);
    assert RowsOf(headers, table)[i + 1] == BodyRow(table[i]);
  }

  /** For fixed headers the printed text determines every cell, carriage returns included. */
  lemma PrinterInjective(a: seq<Record>, b: seq<Record>)
    requires a != [] && b != [] && a[0].keys == b[0].keys && PlainHeaders(a[0].keys)
    requires Printed(a) == Printed(b)
    ensures TableOf(a, a[0].keys) == TableOf(b, b[0].keys)
  {
    PrintedIsTable(a);
    PrintedIsTable(b);
    TablesInjective(a[0].keys, TableOf(a, a[0].keys), TableOf(b, b[0].keys));
  }

  lemma TablesInjective(headers: seq<string>, a: seq<seq<string>>, b: seq<seq<string>>)
    requires PlainHeaders(headers)
    requires forall i :: 0 <= i < |a| ==> |a[i]| == |headers|
    requires forall i :: 0 <= i < |b| ==> |b[i]| == |headers|
    requires Join(RowLines(RowsOf(headers, a)), '\n') == Join(RowLines(RowsOf(headers, b)), '\n')
    ensures a == b
  {
    TableIsTable(false, headers, a);
    TableIsTable(false, headers, b);
    AllGood(headers, a);
    AllGood(headers, b);
    ReadTable(false, RowsOf(headers, a));
    ReadTable(false, RowsOf(headers, b));
    var out := Closed(false, RowsOf(headers, a)).out;
    RecordsOfTable(false, headers, a, out);
    RecordsOfTable(false, headers, b, out);
    forall i | 0 <= i < |a| ensures a[i] == b[i] {
      assert Emitted(true, a[i], out[1..][i]) && Emitted(true, b[i], out[1..][i]);
    }
  }

  lemma AllGood(headers: seq<string>, table: seq<seq<string>>)
    requires PlainHeaders(headers) && forall i :: 0 <= i < |table| ==> |table[i]| == |headers|
    ensures var rows := RowsOf(headers, table); forall i :: 0 <= i < |rows| ==> GoodRow(false, rows[i])
  {
    TableIsTable(false, headers, table);
    var rows := RowsOf(headers, table);
    forall i | 0 <= i < |rows| ensures GoodRow(false, rows[i]) {
      assert i > 0 ==> RowFits(false, rows[i - 1 + 1], table[i - 1]);
    }
  }
}

/** Files whose lines end with a carriage return and a newline, and files with or without a last line end. */
module CsvLineEnds {
  import opened Common
  import opened Csv
  import opened CsvRoundTrip
  import opened CsvTheorems

  function JoinLines(lines: seq<string>, end: string): string {
    if lines == [] then ""
    else if |lines| == 1 then lines[0]
    else JoinLines(lines[..|lines| - 1], end) + end + lines[|lines| - 1]
  }

  /** Outside quotes a carriage return before a newline makes no difference. */
  lemma ReturnThenNewline(s: Reader)
    requires s.Reader? ==> s.mode != InQuoted
    ensures Feed(true, Feed(true, s, '\r'), '\n') == Feed(true, s, '\n')
  {
  }

  /** No printed line ends inside quotes. */
  lemma NotInQuotes(rows: seq<Row>)
    requires |rows| >= 1 && Table(true, rows)
    ensures var s := Run(true, FRESH, Join(RowLines(rows), '\n')); s.Reader? ==> s.mode != InQuoted
  {
    RunLines(true, rows);
    StartIsOpening(rows);
    LineNotInQuotes(rows[|rows| - 1], LineStart(true, rows));
  }

  lemma LineNotInQuotes(row: Row, start: Reader)
    requires |row.parts| >= 1 && PartsFor(true, row.parts, row.cells)
    requires start.Reader? ==> start == Opening(start.out)
    ensures var s := Run(true, start, Join(row.parts, ',')); s.Reader? ==> s.mode != InQuoted
  {
    if start.Reader? {
      ReadLine(true, row.parts, row.cells, start.out);
      LineEndNotInQuotes(row, start.out, Run(true, start, Join(row.parts, ',')));
    } else {
      BadStaysBad(true, Join(row.parts, ','));
    }
  }

  lemma LineEndNotInQuotes(row: Row, out: seq<seq<string>>, s: Reader)
    requires |row.cells| >= 1 && LineRead(true, row.parts, row.cells, out, s)
    ensures s.Reader? ==> s.mode != InQuoted
  {
  }

  lemma RunLineEnd(s: Reader, line: string)
    requires s.Reader? ==> s.mode != InQuoted
    ensures Run(true, s, "\r\n" + line) == Run(true, Feed(true, s, '\n'), line)
  {
    RunConcat(true, s, "\r\n", line);
    RunAppend(true, s, "\r", '\n');
    RunAppend(true, s, "", '\r');
    assert "" + ['\r'] == "\r" && "\r" + ['\n'] == "\r\n";
    ReturnThenNewline(s);
  }

  /** The reader stands at the same place whichever way the lines end. */
  lemma {:induction false} SameReader(rows: seq<Row>)
    requires |rows| >= 1 && Table(true, rows)
    ensures Run(true, FRESH, JoinLines(RowLines(rows), "\r\n")) == Run(true, FRESH, Join(RowLines(rows), '\n'))
  {
    var n := |rows| - 1;
    var lines := RowLines(rows);
    if n > 0 {
      assert lines[..n] == RowLines(rows[..n]);
      SameReader(rows[..n]);
      NotInQuotes(rows[..n]);
      RunOtherLines(lines);
      RunLines(true, rows);
    }
  }

  lemma RunOtherLines(lines: seq<string>)
    requires |lines| >= 2
    requires var s := Run(true, FRESH, JoinLines(lines[..|lines| - 1], "\r\n")); s.Reader? ==> s.mode != InQuoted
    ensures var n := |lines| - 1;
            Run(true, FRESH, JoinLines(lines, "\r\n"))
            == Run(true, Feed(true, Run(true, FRESH, JoinLines(lines[..n], "\r\n")), '\n'), lines[n])
  {
    var n := |lines| - 1;
    var head, line := JoinLines(lines[..n], "\r\n"), lines[n];
    assert JoinLines(lines, "\r\n") == head + "\r\n" + line;
    RunAcross(head, line);
  }

  lemma RunAcross(head: string, line: string)
    requires var s := Run(true, FRESH, head); s.Reader? ==> s.mode != InQuoted
    ensures Run(true, FRESH, head + "\r\n" + line) == Run(true, Feed(true, Run(true, FRESH, head), '\n'), line)
  {
    Regroup(head, "\r\n", line);
    RunConcat(true, FRESH, head, "\r\n" + line);
    RunLineEnd(Run(true, FRESH, head), line);
  }

  lemma Regroup(a: string, b: string, c: string)
    ensures a + b + c == a + (b + c)
  {
  }

  /** A last newline changes nothing for a table. */
  lemma LastNewline(headers: seq<string>, table: seq<seq<string>>, white: char -> bool)
    requires PlainHeaders(headers) && forall i :: 0 <= i < |table| ==> |table[i]| == |headers|
    ensures var text := Join(RowLines(RowsOf(headers, table)), '\n');
            ParsedRows(text + "\n", white) == ParsedRows(text, white)
  {
    var rows := RowsOf(headers, table);
    var text := Join(RowLines(rows), '\n');
    TableIsTable(true, headers, table);
    RunAppend(true, FRESH, text, '\n');
    FinishWithoutNewline(rows);
    if !Short(headers) {
      ReadLongPlainLine(headers, []);
      BadFirstLine(rows);
    } else if Closed(true, rows).Reader? {
      ReadTable(true, rows);
      RecordsOfTable(true, headers, table, Closed(true, rows).out);
      SkipsLast(text, headers, Closed(true, rows).out, white);
    }
  }

  lemma SkipsLast(text: string, headers: seq<string>, out: seq<seq<string>>, white: char -> bool)
    requires headers != [] && |out| >= 1 && out[0] == headers
    requires Csv.Records(text + "\n") == Some(out)
    requires Csv.Records(text).Some? && (out == Csv.Records(text).value || out == Csv.Records(text).value + [[]])
    ensures ParsedRows(text + "\n", white) == ParsedRows(text, white)
  {
    var all := Csv.Records(text).value;
    if out != all {
      assert out == all + [[]];
      assert |all| >= 1 && all[0] == out[0] && out[1..] == all[1..] + [[]];
      CleanedSkipsEmpty(all[0], all[1..], white);
    }
  }

  /** An export reads the same whether its lines end with a newline or with a carriage return and a newline, and with
      or without a last line end. */
  lemma LineEndsDoNotMatter(rows: seq<Record>, white: char -> bool)
    requires rows != [] && PlainHeaders(rows[0].keys)
    ensures var lines := Lines(rows, rows[0].keys);
            && ParsedRows(Printed(rows) + "\n", white) == ParsedRows(Printed(rows), white)
            && ParsedRows(JoinLines(lines, "\r\n"), white) == ParsedRows(Printed(rows), white)
            && ParsedRows(JoinLines(lines, "\r\n") + "\r\n", white) == ParsedRows(Printed(rows), white)
  {
    var headers := rows[0].keys;
    var table := TableOf(rows, headers);
    var all := RowsOf(headers, table);
    PrintedIsTable(rows);
    LinesAreTable(rows);
    TableIsTable(true, headers, table);
    LastNewline(headers, table, white);
    SameRecords(all);
  }

  lemma SameRecords(rows: seq<Row>)
    requires |rows| >= 1 && Table(true, rows)
    ensures var text, other := Join(RowLines(rows), '\n'), JoinLines(RowLines(rows), "\r\n");
            Csv.Records(other) == Csv.Records(text) && Csv.Records(other + "\r\n") == Csv.Records(text + "\n")
  {
    var text, other := Join(RowLines(rows), '\n'), JoinLines(RowLines(rows), "\r\n");
    SameReader(rows);
    NotInQuotes(rows);
    RunConcat(true, FRESH, other, "\r\n");
    assert "\r\n" + "" == "\r\n";
    RunLineEnd(Run(true, FRESH, other), "");
    RunAppend(true, FRESH, text, '\n');
  }

  lemma LinesAreTable(rows: seq<Record>)
    requires rows != []
    ensures Lines(rows, rows[0].keys) == RowLines(RowsOf(rows[0].keys, TableOf(rows, rows[0].keys)))
  {
    var headers := rows[0].keys;
    var lines, all := Lines(rows, headers), RowLines(RowsOf(headers, TableOf(rows, headers)));
    forall i | 0 <= i < |lines| ensures lines[i] == all[i] {
      if i > 0 {
        assert RowsOf(headers, TableOf(rows, headers))[i] == BodyRow(Cells(rows[i - 1], headers));
      }
    }
  }

  // ---------- what no export holds ----------

  /** A carriage return outside quotes that neither another one nor a newline follows is an error. */
  lemma LoneReturnRaises(plain: string, c: char, rest: string)
    requires Unquoted(true, plain) && c != '\r' && c != '\n'
    ensures Csv.Records(plain + "\r" + [c] + rest) == None
  {
    ReadUnquoted(true, FRESH, plain);
    assert "\r" == ['\r'];
    RunAppend(true, FRESH, plain, '\r');
    RunAppend(true, FRESH, plain + "\r", c);
    RunConcat(true, FRESH, plain + "\r" + [c], rest);
    BadStaysBad(true, rest);
  }

  lemma {:induction false} ReadQuotedText(r: Reader, text: string)
    requires r.Reader? && r.mode == InQuoted && '"' !in text && |r.field| + |text| <= FIELD_LIMIT
    ensures Run(true, r, text) == r.(field := r.field + text)
  {
    if text != "" {
      var front, last := text[..|text| - 1], text[|text| - 1];
      assert text == front + [last];
      ReadQuotedText(r, front);
    } else {
      assert r.field + text == r.field;
    }
  }

  /** A quote that is never closed makes one field of the rest of the file, line ends included. */
  lemma UnclosedQuoteReadsToTheEnd(text: string)
    requires '"' !in text && |text| <= FIELD_LIMIT
    ensures Csv.Records("\"" + text) == Some([[text]])
  {
    OpenQuote(text);
    FinishOneField(InQuoted, text);
  }

  lemma FinishOneField(mode: Mode, field: string)
    requires mode == InQuoted || mode == InField
    ensures Finish(Reader(mode, field, [], [])) == Some([[field]])
  {
    var none: seq<seq<string>>, start: seq<string> := [], [];
    assert start + [field] == [field] && none + [[field]] == [[field]];
  }

  lemma OpenQuote(text: string)
    requires '"' !in text && |text| <= FIELD_LIMIT
    ensures Run(true, FRESH, "\"" + text) == Reader(InQuoted, text, [], [])
  {
    RunConcat(true, FRESH, "\"", text);
    RunAppend(true, FRESH, "", '"');
    assert "" + ['"'] == "\"";
    assert Run(true, FRESH, "\"") == Reader(InQuoted, "", [], []);
    ReadQuotedText(Reader(InQuoted, "", [], []), text);
    assert "" + text == text;
  }

  /** Text right after a closing quote belongs to the field, quotes in it included. */
  lemma TextAfterQuoteIsKept(cell: string, tail: string)
    requires '"' !in cell && tail != "" && Unquoted(true, tail) && |cell| + |tail| <= FIELD_LIMIT
    ensures Csv.Records("\"" + cell + "\"" + tail) == Some([[cell + tail]])
  {
    OpenQuote(cell);
    ClosedQuote(cell);
    RunConcat(true, FRESH, "\"" + cell + "\"", tail);
    TailIsKept(Reader(QuoteInQuoted, cell, [], []), tail);
    FinishOneField(InField, cell + tail);
  }

  lemma ClosedQuote(cell: string)
    requires Run(true, FRESH, "\"" + cell) == Reader(InQuoted, cell, [], [])
    ensures Run(true, FRESH, "\"" + cell + "\"") == Reader(QuoteInQuoted, cell, [], [])
  {
    assert "\"" + cell + "\"" == ("\"" + cell) + ['"'];
    RunAppend(true, FRESH, "\"" + cell, '"');
  }

  lemma {:induction false} TailIsKept(r: Reader, tail: string)
    requires r.Reader? && r.mode == QuoteInQuoted && tail != "" && Unquoted(true, tail)
    requires |r.field| + |tail| <= FIELD_LIMIT
    ensures Run(true, r, tail) == r.(mode := InField, field := r.field + tail)
  {
    var front, last := tail[..|tail| - 1], tail[|tail| - 1];
    assert tail == front + [last];
    if front != "" {
      TailIsKept(r, front);
      assert r.field + front + [last] == r.field + tail;
    }
  }

  // ---------- rows that do not fit the header ----------

  /** A cell under one of the headers that is not all white space. */
  ghost predicate HasContent(headers: seq<string>, record: seq<string>, white: char -> bool) {
    exists j, m :: 0 <= j < |headers| && j < |record| && 0 <= m < |record[j]| && !white(record[j][m])
  }

  /** A record as a row: a missing cell reads as None, and a cell beyond the headers is dropped. */
  ghost predicate RowIs(headers: seq<string>, record: seq<string>, row: map<string, Option<string>>) {
    && (forall h :: h in row <==> h in headers)
    && forall j :: 0 <= j < |headers| ==>
         headers[j] in row && row[headers[j]] == if j < |record| then Some(record[j]) else None
  }

  /** The numbers of the records with content, in order. */
  ghost predicate WithContent(headers: seq<string>, records: seq<seq<string>>, white: char -> bool, kept: seq<nat>) {
    && (forall k :: 0 <= k < |kept| ==> kept[k] < |records|)
    && (forall k, l :: 0 <= k < l < |kept| ==> kept[k] < kept[l])
    && forall i :: 0 <= i < |records| ==> (i in kept <==> HasContent(headers, records[i], white))
  }

  ghost predicate RowsAre(
      headers: seq<string>, records: seq<seq<string>>, kept: seq<nat>, rows: seq<map<string, Option<string>>>) {
    |rows| == |kept| && forall k :: 0 <= k < |kept| ==> kept[k] < |records| && RowIs(headers, records[kept[k]], rows[k])
  }

  /** The rows of an import are, in order, the records with content. */
  lemma {:induction false} CleanedExactly(
      headers: seq<string>, records: seq<seq<string>>, white: char -> bool, kept: seq<nat>)
    requires forall i, j :: 0 <= i < j < |headers| ==> headers[i] != headers[j]
    requires WithContent(headers, records, white, kept)
    ensures RowsAre(headers, records, kept, Cleaned(headers, records, white))
  {
    if records == [] {
      KeptBelow(kept, |records|);
    } else {
      var n := |records| - 1;
      KeepsExactly(headers, records[n], white);
      if n in kept {
        LastIsLargest(kept, n);
        NextKept(headers, records, white, kept);
        CleanedExactly(headers, records[..n], white, kept[..|kept| - 1]);
        OneMoreRow(headers, records, kept, Cleaned(headers, records[..n], white));
      } else {
        CleanedExactly(headers, records[..n], white, kept);
      }
    }
  }

  lemma OneMoreRow(
      headers: seq<string>, records: seq<seq<string>>, kept: seq<nat>, rows: seq<map<string, Option<string>>>)
    requires forall i, j :: 0 <= i < j < |headers| ==> headers[i] != headers[j]
    requires records != [] && kept != [] && kept[|kept| - 1] == |records| - 1
    requires RowsAre(headers, records[..|records| - 1], kept[..|kept| - 1], rows)
    ensures RowsAre(headers, records, kept, rows + [Dict(headers, records[|records| - 1])])
  {
    var all := rows + [Dict(headers, records[|records| - 1])];
    forall k | 0 <= k < |kept| ensures kept[k] < |records| && RowIs(headers, records[kept[k]], all[k]) {
      RowAt(headers, records, kept, rows, all, k);
    }
  }

  lemma RowAt(
      headers: seq<string>, records: seq<seq<string>>, kept: seq<nat>, rows: seq<map<string, Option<string>>>,
      all: seq<map<string, Option<string>>>, k: nat)
    requires forall i, j :: 0 <= i < j < |headers| ==> headers[i] != headers[j]
    requires records != [] && k < |kept| && kept[|kept| - 1] == |records| - 1
    requires RowsAre(headers, records[..|records| - 1], kept[..|kept| - 1], rows)
    requires all == rows + [Dict(headers, records[|records| - 1])]
    ensures |all| == |kept| && kept[k] < |records| && RowIs(headers, records[kept[k]], all[k])
  {
    if k < |kept| - 1 {
      SameRow(headers, records, kept, rows, k);
      assert all[k] == rows[k];
    } else {
      DictIsRow(headers, records[|records| - 1]);
      assert all[k] == Dict(headers, records[|records| - 1]);
    }
  }

  lemma SameRow(
      headers: seq<string>, records: seq<seq<string>>, kept: seq<nat>, rows: seq<map<string, Option<string>>>, k: nat)
    requires records != [] && k < |kept| - 1 && RowsAre(headers, records[..|records| - 1], kept[..|kept| - 1], rows)
    ensures kept[k] < |records| && RowIs(headers, records[kept[k]], rows[k])
  {
    assert kept[..|kept| - 1][k] == kept[k];
    assert records[..|records| - 1][kept[k]] == records[kept[k]];
  }

  lemma DictIsRow(headers: seq<string>, record: seq<string>)
    requires forall i, j :: 0 <= i < j < |headers| ==> headers[i] != headers[j]
    ensures RowIs(headers, record, Dict(headers, record))
  {
    DictAt(headers, record);
  }

  lemma KeptBelow(kept: seq<nat>, bound: nat)
    requires forall k :: 0 <= k < |kept| ==> kept[k] < bound
    ensures bound == 0 ==> kept == []
  {
    if kept != [] {
      assert kept[0] < bound;
    }
  }

  lemma LastIsLargest(kept: seq<nat>, n: nat)
    requires n in kept && forall k :: 0 <= k < |kept| ==> kept[k] <= n
    requires forall k, l :: 0 <= k < l < |kept| ==> kept[k] < kept[l]
    ensures kept[|kept| - 1] == n && forall k :: 0 <= k < |kept| - 1 ==> kept[k] < n
  {
    var k :| 0 <= k < |kept| && kept[k] == n;
    InOrder(kept, k, |kept| - 1);
  }

  lemma InOrder(kept: seq<nat>, k: nat, l: nat)
    requires k <= l < |kept| && forall k, l :: 0 <= k < l < |kept| ==> kept[k] < kept[l]
    ensures kept[k] <= kept[l]
  {
  }

  lemma NextKept(headers: seq<string>, records: seq<seq<string>>, white: char -> bool, kept: seq<nat>)
    requires WithContent(headers, records, white, kept)
    requires records != [] && kept != [] && kept[|kept| - 1] == |records| - 1
    ensures WithContent(headers, records[..|records| - 1], white, kept[..|kept| - 1])
  {
    var n, front := |records| - 1, kept[..|kept| - 1];
    forall k | 0 <= k < |front| ensures front[k] < n {
      assert kept[k] < kept[|kept| - 1];
    }
    forall i | 0 <= i < n ensures i in front <==> i in kept {
      if i in kept {
        var k :| 0 <= k < |kept| && kept[k] == i;
        assert front[k] == i;
      }
    }
  }

  lemma KeepsExactly(headers: seq<string>, record: seq<string>, white: char -> bool)
    requires forall i, j :: 0 <= i < j < |headers| ==> headers[i] != headers[j]
    ensures record != [] && Keeps(Dict(headers, record), white) <==> HasContent(headers, record, white)
  {
    var d := Dict(headers, record);
    DictAt(headers, record);
    if h :| h in d && d[h].Some? && !Blank(d[h].value, white) {
      var j :| 0 <= j < |headers| && headers[j] == h;
      assert d[headers[j]] == Some(record[j]);
      var m :| 0 <= m < |record[j]| && !white(record[j][m]);
    }
    if j, m :| 0 <= j < |headers| && j < |record| && 0 <= m < |record[j]| && !white(record[j][m]) {
      assert d[headers[j]] == Some(record[j]) && headers[j] in d;
    }
  }

  /** What an import makes of a text: the first record names the columns, and the rows are the others with content. */
  lemma ImportExactly(
      text: string, headers: seq<string>, records: seq<seq<string>>, kept: seq<nat>, white: char -> bool)
    requires Csv.Records(text) == Some([headers] + records)
    requires forall i, j :: 0 <= i < j < |headers| ==> headers[i] != headers[j]
    requires WithContent(headers, records, white, kept)
    ensures ParsedRows(text, white).Some? && RowsAre(headers, records, kept, ParsedRows(text, white).value)
  {
    assert ([headers] + records)[1..] == records;
    CleanedExactly(headers, records, white, kept);
  }

  // ---------- flattened cells ----------

  /** What a cell prints: nothing for a null or a missing key, the items of a list with commas between them, and any
      other value as its text. */
  lemma CellExactly(row: Record, header: string)
    ensures header !in row.values ==> Cell(row, header) == ""
    ensures header in row.values ==>
              && (row.values[header].Null? ==> Cell(row, header) == "")
              && (row.values[header].Text? ==> Cell(row, header) == row.values[header].text)
              && (row.values[header].Json? ==> Cell(row, header) == row.values[header].text)
              && (row.values[header] == Items([]) ==> Cell(row, header) == "")
  {
  }

  /** One more item goes after a comma. */
  lemma ListCell(row: Record, header: string, items: seq<string>, item: string)
    requires header in row.values && row.values[header] == Items(items + [item])
    ensures Cell(row, header)
         == if items == [] then item
            else Cell(row.(values := row.values[header := Items(items)]), header) + "," + item
  {
    assert (items + [item])[..|items|] == items;
  }
}

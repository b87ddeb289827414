/** CSV export (`_rows_to_csv`) and import (`parse_csv_rows`, on Python's `csv.DictReader` with its default dialect). */
module Csv {
  import opened Common

  // ---------- the printer ----------

  datatype Value = Null | Text(text: string) | Items(items: seq<string>) | Json(text: string)

  /** A Python dict: its keys in insertion order. */
  datatype Record = Record(keys: seq<string>, values: map<string, Value>)

  function Join(parts: seq<string>, separator: char): string {
    if parts == [] then ""
    else if |parts| == 1 then parts[0]
    else Join(parts[..|parts| - 1], separator) + [separator] + parts[|parts| - 1]
  }

  function Flatten(v: Value): string {
    match v
    case Null => ""
    case Text(text) => text
    case Items(items) => Join(items, ',')
    case Json(text) => text
  }

  /** `row.get(header)`, flattened. */
  function Cell(row: Record, header: string): string {
    if header in row.values then Flatten(row.values[header]) else ""
  }

  function Cells(row: Record, headers: seq<string>): seq<string> {
    seq(|headers|, i requires 0 <= i < |headers| => Cell(row, headers[i]))
  }

  function Doubled(cell: string): string {
    if cell == "" then ""
    else
      var last := cell[|cell| - 1];
      Doubled(cell[..|cell| - 1]) + (if last == '"' then "\"\"" else [last])
  }

  predicate Quoted(cell: string) {
    ',' in cell || '\n' in cell || '"' in cell
  }

  function Escaped(cell: string): string {
    if Quoted(cell) then "\"" + Doubled(cell) + "\"" else Doubled(cell)
  }

  function Line(cells: seq<string>): string {
    Join(seq(|cells|, i requires 0 <= i < |cells| => Escaped(cells[i])), ',')
  }

  function Lines(rows: seq<Record>, headers: seq<string>): seq<string> {
    [Join(headers, ',')] + seq(|rows|, i requires 0 <= i < |rows| => Line(Cells(rows[i], headers)))
  }

  function Printed(rows: seq<Record>): string {
    if rows == [] then "" else Join(Lines(rows, rows[0].keys), '\n')
  }

  function EscapedCells(row: Record, headers: seq<string>): seq<string> {
    seq(|headers|, i requires 0 <= i < |headers| => Escaped(Cell(row, headers[i])))
  }

  lemma NextCell(row: Record, headers: seq<string>, j: nat)
    requires j < |headers|
    ensures EscapedCells(row, headers[..j + 1]) == EscapedCells(row, headers[..j]) + [Escaped(Cell(row, headers[j]))]
  {
  }

  lemma NextLine(rows: seq<Record>, headers: seq<string>, i: nat)
    requires i < |rows|
    ensures Lines(rows[..i + 1], headers) == Lines(rows[..i], headers) + [Join(EscapedCells(rows[i], headers), ',')]
  {
    var cells := Cells(rows[i], headers);
    assert EscapedCells(rows[i], headers) == seq(|cells|, k requires 0 <= k < |cells| => Escaped(cells[k]));
  }

  method RowsToCsv(rows: seq<Record>) returns (text: string)
    ensures text == Printed(rows)
  {
    if rows == [] {
      return "";
    }
    var headers := rows[0].keys;
    var lines := [Join(headers, ',')];
    for i := 0 to |rows|
      invariant lines == Lines(rows[..i], headers)
    {
      var values: seq<string> := [];
      for j := 0 to |headers|
        invariant values == EscapedCells(rows[i], headers[..j])
      {
        var cell := Cell(rows[i], headers[j]);
        var escaped := Doubled(cell);
        DoubledKeepsSpecials(cell);
        if ',' in escaped || '\n' in escaped || '"' in escaped {
          escaped := "\"" + escaped + "\"";
        }
        values := values + [escaped];
        NextCell(rows[i], headers, j);
      }
      assert headers[..|headers|] == headers;
      lines := lines + [Join(values, ',')];
      NextLine(rows, headers, i);
    }
    assert rows[..|rows|] == rows;
    return Join(lines, '\n');
  }

  lemma {:induction false} DoubledKeepsSpecials(cell: string)
    ensures forall c :: c in Doubled(cell) <==> c in cell
  {
    if cell != "" {
      var front := cell[..|cell| - 1];
      DoubledKeepsSpecials(front);
      assert cell == front + [cell[|cell| - 1]];
    }
  }

  // ---------- the reader ----------

  datatype Mode = StartRecord | StartField | InField | InQuoted | QuoteInQuoted | EatNewline

  /** The default of `csv.field_size_limit`. */
  const FIELD_LIMIT := 131072

  /** `out` holds the records that are complete. `Bad` is an error of the reader: a field over the limit, or
      more text after a carriage return. */
  datatype Reader = Reader(mode: Mode, field: string, fields: seq<string>, out: seq<seq<string>>) | Bad

  /** The end of a line, after the newline character that closes it, completes a record unless quotes are open. */
  function EndRecord(r: Reader): Reader
    requires r.Reader?
  {
    Reader(StartRecord, "", [], r.out + [r.fields])
  }

  function Save(r: Reader, mode: Mode): Reader
    requires r.Reader?
  {
    Reader(mode, "", r.fields + [r.field], r.out)
  }

  /** A character that belongs to the field. */
  function Put(py: bool, r: Reader, c: char, mode: Mode): Reader
    requires r.Reader?
  {
    if py && |r.field| >= FIELD_LIMIT then Bad else r.(mode := mode, field := r.field + [c])
  }

  /** One character. With `py` set the reader is Python's: a carriage return ends a line, and a field has a
      limit. Without, a carriage return is text like any other and a field may have any length. */
  function Feed(py: bool, r: Reader, c: char): Reader {
    if r.Bad? then Bad
    else match r.mode
      case StartRecord =>
        if c == '\n' then EndRecord(r) else if py && c == '\r' then r.(mode := EatNewline) else FeedField(py, r, c)
      case StartField => FeedField(py, r, c)
      case InField => FeedUnquoted(py, r, c)
      case InQuoted => if c == '"' then r.(mode := QuoteInQuoted) else Put(py, r, c, InQuoted)
      case QuoteInQuoted =>
        if c == '"' then Put(py, r, c, InQuoted) else FeedUnquoted(py, r, c)
      case EatNewline =>
        if c == '\n' then EndRecord(r) else if c == '\r' then r else Bad
  }

  function FeedField(py: bool, r: Reader, c: char): Reader
    requires r.Reader?
  {
    if c == '"' then r.(mode := InQuoted) else FeedUnquoted(py, r, c)
  }

  function FeedUnquoted(py: bool, r: Reader, c: char): Reader
    requires r.Reader?
  {
    if c == '\n' then EndRecord(Save(r, EatNewline))
    else if py && c == '\r' then Save(r, EatNewline)
    else if c == ',' then Save(r, StartField)
    else Put(py, r, c, InField)
  }

  function Run(py: bool, r: Reader, text: string): Reader {
    if text == "" then r else Feed(py, Run(py, r, text[..|text| - 1]), text[|text| - 1])
  }

  /** The end of the input also ends an unfinished record. */
  function Finish(r: Reader): Option<seq<seq<string>>> {
    if r.Bad? then None
    else match r.mode
      case StartRecord => Some(r.out)
      case EatNewline => Some(r.out + [r.fields])
      case _ => Some(r.out + [r.fields + [r.field]])
  }

  const FRESH := Reader(StartRecord, "", [], [])

  /** All records of a text, or None if the reader raises. */
  function Records(text: string): Option<seq<seq<string>>> {
    Finish(Run(true, FRESH, text))
  }

  /** `dict(zip(fieldnames, row))`: missing cells read as None, extra cells go under a key that is dropped. */
  function Dict(headers: seq<string>, cells: seq<string>): map<string, Option<string>> {
    if headers == [] then map[]
    else
      var n := |headers| - 1;
      Dict(headers[..n], cells)[headers[n] := if n < |cells| then Some(cells[n]) else None]
  }

  /** A cell that `str.strip` leaves empty, for a given notion of white space. */
  predicate Blank(cell: string, white: char -> bool) {
    forall i :: 0 <= i < |cell| ==> white(cell[i])
  }

  predicate Keeps(row: map<string, Option<string>>, white: char -> bool) {
    exists h :: h in row && row[h].Some? && !Blank(row[h].value, white)
  }

  /** DictReader skips records without fields; `parse_csv_rows` drops rows without a non-blank cell. */
  function Cleaned(
      headers: seq<string>, records: seq<seq<string>>, white: char -> bool): seq<map<string, Option<string>>> {
    if records == [] then []
    else
      var n := |records| - 1;
      var before := Cleaned(headers, records[..n], white);
      if records[n] != [] && Keeps(Dict(headers, records[n]), white)
      then before + [Dict(headers, records[n])] else before
  }

  function ParsedRows(text: string, white: char -> bool): Option<seq<map<string, Option<string>>>> {
    var records := Records(text);
    if records.None? then None
    else if records.value == [] then Some([])
    else Some(Cleaned(records.value[0], records.value[1..], white))
  }

  method ParseCsvRows(text: string, white: char -> bool) returns (rows: Option<seq<map<string, Option<string>>>>)
    ensures rows == ParsedRows(text, white)
  {
    var records := Records(text);
    if records.None? {
      return None;
    }
    if records.value == [] {
      return Some([]);
    }
    var headers, body := records.value[0], records.value[1..];
    var kept: seq<map<string, Option<string>>> := [];
    for i := 0 to |body|
      invariant kept == Cleaned(headers, body[..i], white)
    {
      assert body[..i + 1][..i] == body[..i];
      if body[i] != [] {
        var cleaned := Dict(headers, body[i]);
        if Keeps(cleaned, white) {
          kept := kept + [cleaned];
        }
      }
    }
    assert body[..|body|] == body;
    return Some(kept);
  }
}

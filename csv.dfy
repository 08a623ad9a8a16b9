/** `convertToCSV`: rows to comma-separated text. The header line is the
    first row's keys joined by commas, unquoted; every data line encodes, for
    each header, the row's value with `JSON.stringify` (a `null` first
    replaced by the empty string) and joins the cells with commas; the lines
    are joined with CRLF. */
module Csv {
  import opened Wrappers
  import opened Rows
  import opened JsString
  import opened JsonString

  const CRLF: string := "\r\n"

  /** One cell, `JSON.stringify(row[fieldName], replacer)` as `join` renders
      it: a missing property is `undefined`, which `join` writes as nothing;
      `null` becomes the empty string and is then quoted; the inherited
      `Object.prototype` has no enumerable own property and is written as an
      empty object. */
  function EncodeCell(p: Property): (cell: string)
    ensures cell == "" <==> p.Undefined?
    ensures forall j :: 0 <= j < |cell| ==> cell[j] as int >= 0x20
  {
    match p
    case Undefined => ""
    case Present(None) => Quote("")
    case Present(Some(s)) => Quote(s)
    case InheritedPrototype => "{}"
  }

  function EncodeCells(headers: seq<string>, row: Row): (cells: seq<string>)
    ensures |cells| == |headers|
    decreases |headers|
  {
    if headers == [] then [] else [EncodeCell(Get(row, headers[0]))] + EncodeCells(headers[1..], row)
  }

  function DataLine(headers: seq<string>, row: Row): string {
    Join(EncodeCells(headers, row), ",")
  }

  function DataLines(headers: seq<string>, rows: seq<Row>): (lines: seq<string>)
    ensures |lines| == |rows|
    decreases |rows|
  {
    if rows == [] then [] else [DataLine(headers, rows[0])] + DataLines(headers, rows[1..])
  }

  /** `convertToCSV(rows)`. Zero rows give the empty string and nothing else
      does: with n rows there are n CRLF separators. */
  function ConvertToCsv(rows: seq<Row>): (csv: string)
    ensures csv == "" <==> rows == []
  {
    if rows == [] then ""
    else
      var headers := Keys(rows[0]);
      var lines := [Join(headers, ",")] + DataLines(headers, rows);
      assert Join(lines, CRLF) == lines[0] + CRLF + Join(lines[1..], CRLF);
      Join(lines, CRLF)
  }

  // ---------------------------------------------------------------------
  // Reading the text back
  // ---------------------------------------------------------------------

  /** A cell as a reader of the text sees it: empty, a decoded string, or
      an empty JSON object. */
  datatype Cell = Blank | Text(s: string) | EmptyObject

  /** Parses one data line: cells separated by commas, each empty, a JSON
      string literal or `{}`. */
  function ParseCells(line: string): Option<seq<Cell>>
    decreases |line|
  {
    if |line| >= 2 && line[0] == '{' && line[1] == '}' then
      var rest := line[2..];
      if rest == [] then Some([EmptyObject])
      else if rest[0] == ',' then
        match ParseCells(rest[1..])
        case None => None
        case Some(more) => Some([EmptyObject] + more)
      else None
    else if line != [] && line[0] == '"' then
      match DecodePrefix(line[1..])
      case None => None
      case Some((v, rest)) =>
        if rest == [] then Some([Text(v)])
        else if rest[0] == ',' then
          match ParseCells(rest[1..])
          case None => None
          case Some(more) => Some([Text(v)] + more)
        else None
    else if line == [] then Some([Blank])
    else if line[0] == ',' then
      match ParseCells(line[1..])
      case None => None
      case Some(more) => Some([Blank] + more)
    else None
  }

  /** What a reader recovers from a cell: a missing property reads as an
      empty cell, `null` as the empty string, a string as itself, the
      inherited prototype as an empty object. */
  function CellView(p: Property): Cell {
    match p
    case Undefined => Blank
    case Present(None) => Text("")
    case Present(Some(s)) => Text(s)
    case InheritedPrototype => EmptyObject
  }

  /** The cells a reader should recover from a row, one per header, in
      header order. */
  function RowView(headers: seq<string>, row: Row): (cells: seq<Cell>)
    ensures |cells| == |headers|
    ensures forall k :: 0 <= k < |headers| ==> cells[k] == CellView(Get(row, headers[k]))
    decreases |headers|
  {
    if headers == [] then [] else [CellView(Get(row, headers[0]))] + RowView(headers[1..], row)
  }

  /** Parsing one encoded cell followed by `tail` yields the cell's view. */
  lemma ParseEncodedCell(v: Property, tail: string)
    requires tail == [] || tail[0] == ','
    ensures ParseCells(EncodeCell(v) + tail) ==
      if tail == [] then Some([CellView(v)])
      else match ParseCells(tail[1..])
        case None => None
        case Some(more) => Some([CellView(v)] + more)
  {
    match v
    case Undefined =>
      assert EncodeCell(v) + tail == tail;
    case Present(None) =>
      ParseQuotedCell("", tail);
    case Present(Some(x)) =>
      ParseQuotedCell(x, tail);
    case InheritedPrototype =>
      assert (EncodeCell(v) + tail)[2..] == tail;
  }

  /** Parsing a quoted string followed by `tail` yields that string. */
  lemma ParseQuotedCell(s: string, tail: string)
    requires tail == [] || tail[0] == ','
    ensures ParseCells(Quote(s) + tail) ==
      if tail == [] then Some([Text(s)])
      else match ParseCells(tail[1..])
        case None => None
        case Some(more) => Some([Text(s)] + more)
  {
    var body := EscapeBody(s);
    assert Quote(s) == "\"" + body + "\"";
    var line := "\"" + (body + "\"" + tail);
    assert Quote(s) + tail == line;
    assert line[1..] == body + "\"" + tail;
    DecodeEscapedBody(s, tail);
  }

  /** Every data line parses back into exactly one cell per header, in header
      order, holding the row's values. */
  lemma {:induction false} DataLineRoundTrip(headers: seq<string>, row: Row)
    requires |headers| > 0
    ensures ParseCells(DataLine(headers, row)) == Some(RowView(headers, row))
    decreases |headers|
  {
    var cells := EncodeCells(headers, row);
    if |headers| == 1 {
      assert cells == [EncodeCell(Get(row, headers[0]))];
      assert DataLine(headers, row) == EncodeCell(Get(row, headers[0])) + "";
      assert RowView(headers, row) == [CellView(Get(row, headers[0]))];
      ParseEncodedCell(Get(row, headers[0]), "");
    } else {
      var tailLine := DataLine(headers[1..], row);
      assert cells[1..] == EncodeCells(headers[1..], row);
      assert DataLine(headers, row) == cells[0] + ("," + tailLine);
      ParseEncodedCell(Get(row, headers[0]), "," + tailLine);
      assert ("," + tailLine)[1..] == tailLine;
      DataLineRoundTrip(headers[1..], row);
    }
  }

  /** Data lines contain neither a carriage return nor a line feed, whatever
      the cell values hold. */
  lemma DataLineHasNoLineBreak(headers: seq<string>, row: Row)
    ensures Avoids(DataLine(headers, row), '\r') && Avoids(DataLine(headers, row), '\n')
  {
    var cells := EncodeCells(headers, row);
    forall k | 0 <= k < |cells| ensures Avoids(cells[k], '\r') && Avoids(cells[k], '\n') {
      EncodedCellsAt(headers, row, k);
    }
    JoinAvoids(cells, ",", '\r');
    JoinAvoids(cells, ",", '\n');
  }

  lemma {:induction false} EncodedCellsAt(headers: seq<string>, row: Row, k: nat)
    requires k < |headers|
    ensures EncodeCells(headers, row)[k] == EncodeCell(Get(row, headers[k]))
    decreases k
  {
    if k > 0 { EncodedCellsAt(headers[1..], row, k - 1); }
  }

  lemma {:induction false} DataLinesAt(headers: seq<string>, rows: seq<Row>, i: nat)
    requires i < |rows|
    ensures DataLines(headers, rows)[i] == DataLine(headers, rows[i])
    decreases i
  {
    if i > 0 { DataLinesAt(headers, rows[1..], i - 1); }
  }

  /** The CSV text splits at CRLF into the header line and one line per row,
      so n rows give n + 1 lines, provided no key of the first row holds a
      carriage return. */
  lemma CsvLines(rows: seq<Row>)
    requires rows != []
    requires forall k :: 0 <= k < |Keys(rows[0])| ==> Avoids(Keys(rows[0])[k], '\r')
    ensures var headers := Keys(rows[0]);
      SplitOn(ConvertToCsv(rows), CRLF) == [Join(headers, ",")] + DataLines(headers, rows)
    ensures |SplitOn(ConvertToCsv(rows), CRLF)| == |rows| + 1
  {
    var headers := Keys(rows[0]);
    var lines := [Join(headers, ",")] + DataLines(headers, rows);
    JoinAvoids(headers, ",", '\r');
    forall i | 0 <= i < |lines| ensures Avoids(lines[i], CRLF[0]) {
      if i > 0 {
        DataLinesAt(headers, rows, i - 1);
        DataLineHasNoLineBreak(headers, rows[i - 1]);
      }
    }
    SplitJoin(lines, CRLF);
  }

  /** The whole round trip: when the first row's keys hold no comma and no
      carriage return, the text splits into a header line that splits back
      into those keys, and into one line per row that parses back into that
      row's cells under those keys, in order. Keys missing from the first
      row are never written. */
  lemma CsvRoundTrip(rows: seq<Row>, i: nat)
    requires i < |rows| && |Keys(rows[0])| > 0
    requires forall k :: 0 <= k < |Keys(rows[0])| ==>
      Avoids(Keys(rows[0])[k], '\r') && Avoids(Keys(rows[0])[k], ',')
    ensures var lines := SplitOn(ConvertToCsv(rows), CRLF);
      |lines| == |rows| + 1 &&
      SplitOn(lines[0], ",") == Keys(rows[0]) &&
      ParseCells(lines[i + 1]) == Some(RowView(Keys(rows[0]), rows[i]))
  {
    var headers := Keys(rows[0]);
    CsvLines(rows);
    SplitJoin(headers, ",");
    DataLinesAt(headers, rows, i);
    DataLineRoundTrip(headers, rows[i]);
  }
}

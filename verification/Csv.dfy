/** The lenient CSV parser of the import pages (frontend/lib/csvImport.ts). */
module Csv {
  import opened JsText

  type Row = seq<string>

  /** The local variables of the scanning loop. */
  datatype Scanner = Scanner(rows: seq<Row>, row: Row, cell: string, inQuotes: bool)

  datatype ParsedCsv = ParsedCsv(headers: Row, rows: seq<Row>)

  const START := Scanner([], [], "", false)

  predicate Blank(row: Row) {
    forall i | 0 <= i < |row| :: row[i] == ""
  }

  predicate LineBreak(c: char) {
    c == '\r' || c == '\n'
  }

  function PushCell(s: Scanner): Scanner {
    s.(row := s.row + [Trim(s.cell)], cell := "")
  }

  function EndRow(s: Scanner): Scanner {
    var row := s.row + [Trim(s.cell)];
    Scanner(if Blank(row) then s.rows else s.rows + [row], [], "", s.inQuotes)
  }

  /** What the scanning loop does with the rest of the text, one character (or pair) at a time. */
  function Scan(text: string, s: Scanner): Scanner
    decreases |text|
  {
    if text == "" then s
    else if text[0] == '"' then
      if s.inQuotes && |text| > 1 && text[1] == '"' then Scan(text[2..], s.(cell := s.cell + ['"']))
      else Scan(text[1..], s.(inQuotes := !s.inQuotes))
    else if !s.inQuotes && text[0] == ',' then Scan(text[1..], PushCell(s))
    else if !s.inQuotes && LineBreak(text[0]) then
      Scan(text[if text[0] == '\r' && |text| > 1 && text[1] == '\n' then 2 else 1..], EndRow(s))
    else Scan(text[1..], s.(cell := s.cell + [text[0]]))
  }

  /** The rows that remain after the end-of-input step. */
  function Finish(s: Scanner): seq<Row> {
    if |s.cell| > 0 || |s.row| > 0 then EndRow(s).rows else s.rows
  }

  function Rows(text: string): seq<Row> {
    Finish(Scan(text, START))
  }

  method ParseCsv(content: string) returns (parsed: ParsedCsv)
    ensures Rows(content) == [] ==> parsed.headers == [] && parsed.rows == []
    ensures Rows(content) != [] ==> parsed.headers == Rows(content)[0] && parsed.rows == Rows(content)[1..]
  {
    var rows: seq<Row>, currentRow: Row, currentCell, inQuotes := [], [], "", false;
    var i := 0;
    while i < |content|
      invariant 0 <= i <= |content|
      invariant Scan(content, START) == Scan(content[i..], Scanner(rows, currentRow, currentCell, inQuotes))
    {
      var c := content[i];
      ghost var rest := content[i..];
      var nextIs := (n: char) => i + 1 < |content| && content[i + 1] == n;
      assert rest[0] == c && rest[1..] == content[i + 1..];
      assert i + 1 < |content| ==> rest[1] == content[i + 1] && rest[2..] == content[i + 2..];
      if c == '"' {
        if inQuotes && nextIs('"') {
          currentCell := currentCell + ['"'];
          i := i + 1;
        } else {
          inQuotes := !inQuotes;
        }
      } else if !inQuotes && c == ',' {
        currentRow, currentCell := currentRow + [Trim(currentCell)], "";
      } else if !inQuotes && LineBreak(c) {
        if c == '\r' && nextIs('\n') {
          i := i + 1;
        }
        currentRow := currentRow + [Trim(currentCell)];
        if !Blank(currentRow) {
          rows := rows + [currentRow];
        }
        currentRow, currentCell := [], "";
      } else {
        currentCell := currentCell + [c];
      }
      i := i + 1;
    }
    assert content[i..] == "";
    if |currentCell| > 0 || |currentRow| > 0 {
      currentRow := currentRow + [Trim(currentCell)];
      if !Blank(currentRow) {
        rows := rows + [currentRow];
      }
    }
    parsed := if |rows| == 0 then ParsedCsv([], []) else ParsedCsv(rows[0], rows[1..]);
  }

  // ---------------------------------------------------------------------------
  // Documents and their text
  // ---------------------------------------------------------------------------

  /** A stretch of a cell: written as it stands, or between quotes with its quotes doubled. */
  datatype Segment = Bare(text: string) | Quoted(text: string)

  datatype LineEnd = LF | CR | CRLF {
    function Text(): string {
      match this case LF => "\n" case CR => "\r" case CRLF => "\r\n"
    }
  }

  type Cell = seq<Segment>

  datatype Line = Line(cells: seq<Cell>, end: LineEnd)

  /** Terminated lines, then the cells (if any) after the last line end. */
  datatype Document = Document(lines: seq<Line>, tail: seq<Cell>)

  predicate Plain(c: char) {
    c != '"' && c != ',' && !LineBreak(c)
  }

  /** Bare stretches are non-empty and hold no special character, and no two quoted ones touch. */
  predicate Proper(cell: Cell) {
    && (forall i | 0 <= i < |cell| && cell[i].Bare? :: cell[i].text != "" && AllPlain(cell[i].text))
    && (forall i | 0 <= i < |cell| - 1 :: cell[i].Quoted? ==> cell[i + 1].Bare?)
  }

  predicate AllPlain(s: string) {
    forall i | 0 <= i < |s| :: Plain(s[i])
  }

  predicate ProperCells(cells: seq<Cell>) {
    forall i | 0 <= i < |cells| :: Proper(cells[i])
  }

  predicate ProperDocument(d: Document) {
    && (forall i | 0 <= i < |d.lines| :: ProperCells(d.lines[i].cells))
    && ProperCells(d.tail)
  }

  function Escape(s: string): string {
    if s == "" then "" else (if s[0] == '"' then "\"\"" else [s[0]]) + Escape(s[1..])
  }

  function PrintSegment(g: Segment): string {
    if g.Bare? then g.text else "\"" + Escape(g.text) + "\""
  }

  function PrintCell(cell: Cell): string {
    if cell == [] then ""
    else PrintSegment(cell[0]) + PrintCell(cell[1..])
  }

  function PrintCells(cells: seq<Cell>): string {
    if cells == [] then ""
    else PrintCell(cells[0]) + (if |cells| == 1 then "" else "," + PrintCells(cells[1..]))
  }

  function PrintLines(lines: seq<Line>): string {
    if lines == [] then "" else PrintCells(lines[0].cells) + lines[0].end.Text() + PrintLines(lines[1..])
  }

  function Print(d: Document): string {
    PrintLines(d.lines) + PrintCells(d.tail)
  }

  /** What a cell says, before trimming. */
  function CellText(cell: Cell): string {
    if cell == [] then "" else cell[0].text + CellText(cell[1..])
  }

  function RowOf(cells: seq<Cell>): Row {
    seq(|cells|, i requires 0 <= i < |cells| => Trim(CellText(cells[i])))
  }

  function DropBlank(rows: seq<Row>): seq<Row> {
    if rows == [] then [] else (if Blank(rows[0]) then [] else [rows[0]]) + DropBlank(rows[1..])
  }

  function LineRows(lines: seq<Line>): seq<Row> {
    seq(|lines|, i requires 0 <= i < |lines| => RowOf(lines[i].cells))
  }

  /** The table a document stands for: every cell trimmed, all-blank rows dropped. */
  function Table(d: Document): seq<Row> {
    DropBlank(LineRows(d.lines) + [RowOf(d.tail)])
  }

  // ---------------------------------------------------------------------------
  // Parsing a printed document
  // ---------------------------------------------------------------------------

  predicate NoQuoteFirst(text: string) {
    text == "" || text[0] != '"'
  }

  lemma {:induction false} ScanPlain(t: string, rest: string, s: Scanner)
    requires AllPlain(t) && !s.inQuotes
    ensures Scan(t + rest, s) == Scan(rest, s.(cell := s.cell + t))
    decreases |t|
  {
    if t == "" {
      assert t + rest == rest && s.cell + t == s.cell;
    } else {
      assert Plain(t[0]) && (t + rest)[1..] == t[1..] + rest;
      ScanPlain(t[1..], rest, s.(cell := s.cell + [t[0]]));
      assert s.cell + [t[0]] + t[1..] == s.cell + t;
    }
  }

  lemma {:induction false} ScanEscaped(t: string, rest: string, s: Scanner)
    requires s.inQuotes && NoQuoteFirst(rest)
    ensures Scan(Escape(t) + "\"" + rest, s) == Scan(rest, s.(cell := s.cell + t, inQuotes := false))
    decreases |t|
  {
    var text := Escape(t) + "\"" + rest;
    if t == "" {
      assert text[0] == '"' && text[1..] == rest && s.cell + t == s.cell;
    } else {
      var n := if t[0] == '"' then 2 else 1;
      assert text[n..] == Escape(t[1..]) + "\"" + rest;
      assert t[0] == '"' ==> text[0] == '"' && text[1] == '"';
      ScanEscaped(t[1..], rest, s.(cell := s.cell + [t[0]]));
      assert s.cell + [t[0]] + t[1..] == s.cell + t;
    }
  }

  lemma PrintCellFirst(cell: Cell, rest: string)
    requires Proper(cell) && (cell == [] || cell[0].Bare?) && NoQuoteFirst(rest)
    ensures NoQuoteFirst(PrintCell(cell) + rest)
  {
    if cell != [] {
      assert (PrintCell(cell) + rest)[0] == cell[0].text[0];
    }
  }

  lemma Assoc<T>(a: seq<T>, b: seq<T>, c: seq<T>)
    ensures (a + b) + c == a + (b + c)
  {}

  lemma ScanSegment(g: Segment, rest: string, s: Scanner)
    requires g.Bare? ==> AllPlain(g.text)
    requires g.Quoted? ==> NoQuoteFirst(rest)
    requires !s.inQuotes
    ensures Scan(PrintSegment(g) + rest, s) == Scan(rest, s.(cell := s.cell + g.text))
  {
    if g.Bare? {
      ScanPlain(g.text, rest, s);
    } else {
      var body := Escape(g.text);
      Assoc("\"" + body, "\"", rest);
      Assoc("\"", body, "\"" + rest);
      Assoc(body, "\"", rest);
      ScanOpenQuote(body + "\"" + rest, s);
      ScanEscaped(g.text, rest, s.(inQuotes := true));
    }
  }

  lemma ScanOpenQuote(rest: string, s: Scanner)
    requires !s.inQuotes
    ensures Scan("\"" + rest, s) == Scan(rest, s.(inQuotes := true))
  {
    assert ("\"" + rest)[1..] == rest;
  }

  lemma {:induction false} ScanCell(cell: Cell, rest: string, s: Scanner)
    requires Proper(cell) && NoQuoteFirst(rest) && !s.inQuotes
    ensures Scan(PrintCell(cell) + rest, s) == Scan(rest, s.(cell := s.cell + CellText(cell)))
    decreases |cell|
  {
    if cell == [] {
      assert PrintCell(cell) + rest == rest && s.cell + "" == s.cell;
    } else {
      var g, tail := cell[0], cell[1..];
      assert Proper(tail) && (g.Quoted? && tail != [] ==> tail[0] == cell[1]);
      if g.Quoted? {
        PrintCellFirst(tail, rest);
      }
      Assoc(PrintSegment(g), PrintCell(tail), rest);
      Assoc(s.cell, g.text, CellText(tail));
      ScanSegment(g, PrintCell(tail) + rest, s);
      ScanCell(tail, rest, s.(cell := s.cell + g.text));
    }
  }

  lemma ScanComma(rest: string, s: Scanner)
    requires !s.inQuotes
    ensures Scan("," + rest, s) == Scan(rest, PushCell(s))
  {
    assert ("," + rest)[1..] == rest;
  }

  /** At a line end (or the end of the input) the scanner stands at the end of the printed row. */
  lemma {:induction false} ScanCells(cells: seq<Cell>, rest: string, s: Scanner) returns (s': Scanner)
    requires ProperCells(cells) && (rest == "" || LineBreak(rest[0])) && !s.inQuotes && s.cell == ""
    ensures Scan(PrintCells(cells) + rest, s) == Scan(rest, s') && !s'.inQuotes && s'.rows == s.rows
    ensures s'.row + [Trim(s'.cell)] == s.row + (if cells == [] then [Trim("")] else RowOf(cells))
    decreases |cells|
  {
    if cells == [] {
      s' := s;
      assert PrintCells(cells) + rest == rest;
    } else {
      var first, tail := CellText(cells[0]), cells[1..];
      var s1 := s.(cell := first);
      assert s.cell + first == first && Proper(cells[0]) && ProperCells(tail);
      if |cells| == 1 {
        ScanCell(cells[0], rest, s);
        s' := s1;
        assert PrintCell(cells[0]) + "" == PrintCell(cells[0]);
        assert RowOf(cells) == [Trim(first)];
      } else {
        ScanCell(cells[0], "," + (PrintCells(tail) + rest), s);
        ScanComma(PrintCells(tail) + rest, s1);
        PrintCellsSplit(cells, rest);
        s' := ScanCells(tail, rest, PushCell(s1));
        assert RowOf(cells) == [Trim(first)] + RowOf(tail);
        Assoc(s.row, [Trim(first)], RowOf(tail));
      }
    }
  }

  lemma PrintCellsSplit(cells: seq<Cell>, rest: string)
    requires |cells| > 1
    ensures PrintCells(cells) + rest == PrintCell(cells[0]) + ("," + (PrintCells(cells[1..]) + rest))
  {
    Assoc(PrintCell(cells[0]), "," + PrintCells(cells[1..]), rest);
    Assoc(",", PrintCells(cells[1..]), rest);
  }

  /** A line end closes the row, even if the text after it starts with the LF of a CRLF pair. */
  lemma ScanLineEnd(end: LineEnd, rest: string, s: Scanner)
    requires !s.inQuotes
    ensures Scan(end.Text() + rest, s) == Scan(rest, EndRow(s))
  {
    var text := end.Text() + rest;
    if end == CR && rest != "" && rest[0] == '\n' {
      TrimIsCore("", "", "");
      assert Trim("") == "";
      assert text[2..] == rest[1..];
      assert EndRow(EndRow(s)) == EndRow(s);
    } else {
      assert text[|end.Text()|..] == rest;
    }
  }

  lemma FinishIsEndRow(s: Scanner)
    ensures Finish(s) == EndRow(s).rows
  {
    TrimIsCore("", "", "");
  }

  lemma PrintLinesSplit(lines: seq<Line>, rest: string)
    requires lines != []
    ensures PrintLines(lines) + rest
         == PrintCells(lines[0].cells) + (lines[0].end.Text() + (PrintLines(lines[1..]) + rest))
  {
    var a, b, c := PrintCells(lines[0].cells), lines[0].end.Text(), PrintLines(lines[1..]);
    Assoc(a + b, c, rest);
    Assoc(a, b, c + rest);
  }

  lemma TrimEmpty()
    ensures Trim("") == ""
  {
    TrimIsCore("", "", "");
  }

  lemma DropBlankOne(row: Row)
    ensures DropBlank([row]) == if Blank(row) then [] else [row]
  {
    assert [row][1..] == [] && [row] + [] == [row];
  }

  lemma ScanLine(line: Line, rest: string, s: Scanner)
    requires ProperCells(line.cells) && s.row == [] && s.cell == "" && !s.inQuotes
    ensures Scan(PrintCells(line.cells) + (line.end.Text() + rest), s)
         == Scan(rest, s.(rows := s.rows + DropBlank([RowOf(line.cells)])))
  {
    var s1 := ScanCells(line.cells, line.end.Text() + rest, s);
    ScanLineEnd(line.end, rest, s1);
    TrimEmpty();
    DropBlankOne(RowOf(line.cells));
    assert s.rows + [] == s.rows;
    assert Blank([""]);
    assert s1.row + [Trim(s1.cell)] == if line.cells == [] then [""] else RowOf(line.cells);
  }

  lemma {:induction false} ScanLines(lines: seq<Line>, rest: string, s: Scanner)
    requires forall i | 0 <= i < |lines| :: ProperCells(lines[i].cells)
    requires s.row == [] && s.cell == "" && !s.inQuotes
    ensures Scan(PrintLines(lines) + rest, s) == Scan(rest, s.(rows := s.rows + DropBlank(LineRows(lines))))
    decreases |lines|
  {
    hide Scan, RowOf, PrintCells, ProperCells;
    if lines == [] {
      assert PrintLines(lines) + rest == rest && s.rows + DropBlank(LineRows(lines)) == s.rows;
    } else {
      var head, tail := [RowOf(lines[0].cells)], LineRows(lines[1..]);
      PrintLinesSplit(lines, rest);
      ScanLine(lines[0], PrintLines(lines[1..]) + rest, s);
      ScanLines(lines[1..], rest, s.(rows := s.rows + DropBlank(head)));
      assert s.rows + DropBlank(LineRows(lines)) == s.rows + DropBlank(head) + DropBlank(tail) by {
        assert LineRows(lines) == head + tail;
        DropBlankAppend(head, tail);
        Assoc(s.rows, DropBlank(head), DropBlank(tail));
      }
    }
  }

  lemma {:induction false} DropBlankAppend(a: seq<Row>, b: seq<Row>)
    ensures DropBlank(a + b) == DropBlank(a) + DropBlank(b)
  {
    if a == [] {
      assert a + b == b;
    } else {
      assert (a + b)[1..] == a[1..] + b;
      DropBlankAppend(a[1..], b);
    }
  }

  lemma RowsOfTail(cells: seq<Cell>, s: Scanner)
    requires ProperCells(cells) && s.row == [] && s.cell == "" && !s.inQuotes
    ensures Finish(Scan(PrintCells(cells), s)) == s.rows + DropBlank([RowOf(cells)])
  {
    assert PrintCells(cells) + "" == PrintCells(cells);
    var s' := ScanCells(cells, "", s);
    FinishIsEndRow(s');
    TrimEmpty();
    DropBlankOne(RowOf(cells));
    assert s.rows + [] == s.rows;
    assert Blank([""]);
    assert s'.row + [Trim(s'.cell)] == if cells == [] then [""] else RowOf(cells);
  }

  /** Round trip: any mixture of quoting and of line ends parses back to the document's table. */
  lemma ParseOfPrint(d: Document)
    requires ProperDocument(d)
    ensures Rows(Print(d)) == Table(d)
  {
    var rows := DropBlank(LineRows(d.lines));
    ScanLines(d.lines, PrintCells(d.tail), START);
    assert [] + rows == rows;
    RowsOfTail(d.tail, START.(rows := rows));
    DropBlankAppend(LineRows(d.lines), [RowOf(d.tail)]);
  }
}

/** What holds of the CSV parser on every text: composition, clean output, and its full grammar. */
module CsvTheorems {
  import opened JsText
  import opened Csv

  // ---------------------------------------------------------------------------
  // Quotes and composition
  // ---------------------------------------------------------------------------

  function QuoteCount(text: string): nat {
    if text == "" then 0 else (if text[0] == '"' then 1 else 0) + QuoteCount(text[1..])
  }

  predicate Balanced(text: string) {
    QuoteCount(text) % 2 == 0
  }

  /** Whether the scanner ends inside quotes is the parity of the quote characters it has read. */
  lemma {:induction false} QuoteParity(text: string, s: Scanner)
    ensures Scan(text, s).inQuotes <==> (s.inQuotes <==> Balanced(text))
    decreases |text|
  {
    if text == "" {
    } else if text[0] == '"' {
      if s.inQuotes && |text| > 1 && text[1] == '"' {
        assert text[1..][1..] == text[2..];
        QuoteParity(text[2..], s.(cell := s.cell + ['"']));
      } else {
        QuoteParity(text[1..], s.(inQuotes := !s.inQuotes));
      }
    } else if !s.inQuotes && text[0] == ',' {
      QuoteParity(text[1..], PushCell(s));
    } else if !s.inQuotes && LineBreak(text[0]) {
      if text[0] == '\r' && |text| > 1 && text[1] == '\n' {
        assert text[1..][1..] == text[2..];
        QuoteParity(text[2..], EndRow(s));
      } else {
        QuoteParity(text[1..], EndRow(s));
      }
    } else {
      QuoteParity(text[1..], s.(cell := s.cell + [text[0]]));
    }
  }

  /** Scanning can be interrupted anywhere except in front of a quote. */
  lemma {:induction false} ScanSplit(a: string, b: string, s: Scanner)
    requires NoQuoteFirst(b)
    ensures Scan(a + b, s) == Scan(b, Scan(a, s))
    decreases |a|
  {
    if a == "" {
      assert a + b == b;
    } else {
      assert (a + b)[1..] == a[1..] + b;
      assert |a| > 1 ==> (a + b)[2..] == a[2..] + b;
      if a[0] == '"' {
        if s.inQuotes && |a| > 1 && a[1] == '"' {
          ScanSplit(a[2..], b, s.(cell := s.cell + ['"']));
        } else {
          ScanSplit(a[1..], b, s.(inQuotes := !s.inQuotes));
        }
      } else if !s.inQuotes && a[0] == ',' {
        ScanSplit(a[1..], b, PushCell(s));
      } else if !s.inQuotes && LineBreak(a[0]) {
        if a == "\r" {
          ScanLineEnd(CR, b, s);
        } else if a[0] == '\r' && a[1] == '\n' {
          ScanSplit(a[2..], b, EndRow(s));
        } else {
          ScanSplit(a[1..], b, EndRow(s));
        }
      } else {
        ScanSplit(a[1..], b, s.(cell := s.cell + [a[0]]));
      }
    }
  }

  function AddRows(rows: seq<Row>, s: Scanner): Scanner {
    s.(rows := rows + s.rows)
  }

  /** Rows already finished are never looked at again. */
  lemma {:induction false} RowsFrame(text: string, rows: seq<Row>, s: Scanner)
    ensures Scan(text, AddRows(rows, s)) == AddRows(rows, Scan(text, s))
    decreases |text|
  {
    EndRowFrame(rows, s);
    if text == "" {
    } else if text[0] == '"' {
      if s.inQuotes && |text| > 1 && text[1] == '"' {
        RowsFrame(text[2..], rows, s.(cell := s.cell + ['"']));
      } else {
        RowsFrame(text[1..], rows, s.(inQuotes := !s.inQuotes));
      }
    } else if !s.inQuotes && text[0] == ',' {
      RowsFrame(text[1..], rows, PushCell(s));
    } else if !s.inQuotes && LineBreak(text[0]) {
      RowsFrame(text[if text[0] == '\r' && |text| > 1 && text[1] == '\n' then 2 else 1..], rows, EndRow(s));
    } else {
      RowsFrame(text[1..], rows, s.(cell := s.cell + [text[0]]));
    }
  }

  lemma EndRowFrame(rows: seq<Row>, s: Scanner)
    ensures EndRow(AddRows(rows, s)) == AddRows(rows, EndRow(s))
  {
    Assoc(rows, s.rows, [s.row + [Trim(s.cell)]]);
  }

  /** Composition: after balanced quotes any line end separates the rows of the two parts. */
  lemma Composition(a: string, end: LineEnd, b: string)
    requires Balanced(a)
    ensures Rows(a + end.Text() + b) == Rows(a) + Rows(b)
  {
    var s := Scan(a, START);
    QuoteParity(a, START);
    Assoc(a, end.Text(), b);
    ScanSplit(a, end.Text() + b, START);
    ScanLineEnd(end, b, s);
    FinishIsEndRow(s);
    assert Rows(a) + [] == Rows(a);
    assert EndRow(s) == AddRows(Rows(a), START);
    RowsFrame(b, Rows(a), START);
    var t := Scan(b, START);
    EndRowFrame(Rows(a), t);
    FinishIsEndRow(t);
    FinishIsEndRow(AddRows(Rows(a), t));
  }

  /** Which line end separates two rows never matters. */
  lemma LineEndsInterchangeable(a: string, end: LineEnd, end': LineEnd, b: string)
    requires Balanced(a)
    ensures Rows(a + end.Text() + b) == Rows(a + end'.Text() + b)
  {
    Composition(a, end, b);
    Composition(a, end', b);
  }

  lemma {:induction false} ScanInsideQuotes(t: string, s: Scanner)
    requires s.inQuotes && '"' !in t
    ensures Scan(t, s) == s.(cell := s.cell + t)
    decreases |t|
  {
    if t == "" {
      assert s.cell + t == s.cell;
    } else {
      assert t[0] in t && forall c | c in t[1..] :: c in t;
      ScanInsideQuotes(t[1..], s.(cell := s.cell + [t[0]]));
      assert s.cell + [t[0]] + t[1..] == s.cell + t;
    }
  }

  lemma TrimKeepsEnding(x: string)
    ensures |Trim(x + ",y")| >= 2
  {
    var s := x + ",y";
    var pre, post := TrimSplits(s);
    assert s[|s| - 1] == 'y' && s[|s| - 2] == ',';
    assert IsWhite(s[|s| - 1]) || post == "";
  }

  lemma RowsOfCommaY()
    ensures Rows(",y") == [["", "y"]]
  {
    assert ",y"[1..] == "y" && "y"[1..] == "" && "" + "y" == "y";
    TrimEmpty();
    TrimIsCore("", "y", "");
    assert "" + "y" + "" == "y";
    assert !Blank(["", "y"]) by { assert ["", "y"][1] != ""; }
    assert [] + [""] == [""] && [""] + ["y"] == ["", "y"];
  }

  /** An unbalanced front swallows the line end and the row behind it. */
  lemma UnbalancedDoesNotCompose(a: string, end: LineEnd)
    requires !Balanced(a)
    ensures Rows(a + end.Text() + ",y") != Rows(a) + Rows(",y")
  {
    var s := Scan(a, START);
    QuoteParity(a, START);
    var t := end.Text() + ",y";
    Assoc(a, end.Text(), ",y");
    ScanSplit(a, t, START);
    ScanInsideQuotes(t, s);
    Assoc(s.cell, end.Text(), ",y");
    TrimKeepsEnding(s.cell + end.Text());
    FinishIsEndRow(s.(cell := s.cell + t));
    RowsOfCommaY();
    var row := s.row + [Trim(s.cell + t)];
    assert !Blank(row) by { assert row[|row| - 1] != ""; }
    var all := s.rows + [row];
    assert Rows(a + end.Text() + ",y") == all && all[|all| - 1] == row;
    var split := Rows(a) + [["", "y"]];
    assert split[|split| - 1] == ["", "y"] && row[|row| - 1] != "y";
  }

  /** Composition holds for every continuation exactly when the quotes of the front balance. */
  lemma ComposesExactlyWhenBalanced(a: string, end: LineEnd)
    ensures Balanced(a) <==> forall b :: Rows(a + end.Text() + b) == Rows(a) + Rows(b)
  {
    if Balanced(a) {
      forall b ensures Rows(a + end.Text() + b) == Rows(a) + Rows(b) {
        Composition(a, end, b);
      }
    } else {
      UnbalancedDoesNotCompose(a, end);
    }
  }

  /** A quote left open at the end of the input is closed there. */
  lemma {:induction false} ScanCloseAtEnd(text: string, s: Scanner)
    requires Scan(text, s).inQuotes
    ensures Scan(text + "\"", s) == Scan(text, s).(inQuotes := false)
    decreases |text|
  {
    if text == "" {
      assert text + "\"" == "\"" && "\""[1..] == "";
    } else {
      var more := text + "\"";
      assert more[1..] == text[1..] + "\"";
      assert |text| > 1 ==> more[2..] == text[2..] + "\"";
      if text[0] == '"' {
        if s.inQuotes && |text| > 1 && text[1] == '"' {
          ScanCloseAtEnd(text[2..], s.(cell := s.cell + ['"']));
        } else {
          ScanCloseAtEnd(text[1..], s.(inQuotes := !s.inQuotes));
        }
      } else if !s.inQuotes && text[0] == ',' {
        ScanCloseAtEnd(text[1..], PushCell(s));
      } else if !s.inQuotes && LineBreak(text[0]) {
        ScanCloseAtEnd(text[if text[0] == '\r' && |text| > 1 && text[1] == '\n' then 2 else 1..], EndRow(s));
      } else {
        ScanCloseAtEnd(text[1..], s.(cell := s.cell + [text[0]]));
      }
    }
  }

  lemma CloseAtEnd(text: string)
    requires !Balanced(text)
    ensures Rows(text) == Rows(text + "\"")
  {
    QuoteParity(text, START);
    ScanCloseAtEnd(text, START);
  }

  // ---------------------------------------------------------------------------
  // The output is clean, and printing it quoted is undone by parsing
  // ---------------------------------------------------------------------------

  predicate TrimmedRow(row: Row) {
    forall i | 0 <= i < |row| :: Trimmed(row[i])
  }

  predicate Clean(rows: seq<Row>) {
    forall i | 0 <= i < |rows| :: TrimmedRow(rows[i]) && !Blank(rows[i])
  }

  lemma EndRowClean(s: Scanner)
    requires Clean(s.rows) && TrimmedRow(s.row)
    ensures Clean(EndRow(s).rows) && TrimmedRow(PushCell(s).row)
  {
    TrimIdempotent(s.cell);
  }

  lemma {:induction false} ScanClean(text: string, s: Scanner)
    requires Clean(s.rows) && TrimmedRow(s.row)
    ensures Clean(Scan(text, s).rows) && TrimmedRow(Scan(text, s).row)
    decreases |text|
  {
    EndRowClean(s);
    if text == "" {
    } else if text[0] == '"' {
      if s.inQuotes && |text| > 1 && text[1] == '"' {
        ScanClean(text[2..], s.(cell := s.cell + ['"']));
      } else {
        ScanClean(text[1..], s.(inQuotes := !s.inQuotes));
      }
    } else if !s.inQuotes && text[0] == ',' {
      ScanClean(text[1..], PushCell(s));
    } else if !s.inQuotes && LineBreak(text[0]) {
      ScanClean(text[if text[0] == '\r' && |text| > 1 && text[1] == '\n' then 2 else 1..], EndRow(s));
    } else {
      ScanClean(text[1..], s.(cell := s.cell + [text[0]]));
    }
  }

  lemma OutputIsClean(text: string)
    ensures Clean(Rows(text))
  {
    ScanClean(text, START);
    EndRowClean(Scan(text, START));
  }

  function QuotedCells(row: Row): seq<Cell> {
    seq(|row|, i requires 0 <= i < |row| => [Quoted(row[i])])
  }

  function QuotedLines(table: seq<Row>, end: LineEnd): seq<Line> {
    seq(|table|, i requires 0 <= i < |table| => Line(QuotedCells(table[i]), end))
  }

  /** The printer that quotes every cell, with or without a final line end. */
  function QuoteAll(table: seq<Row>, end: LineEnd, finalEnd: bool): Document {
    if finalEnd || table == [] then Document(QuotedLines(table, end), [])
    else Document(QuotedLines(table[..|table| - 1], end), QuotedCells(table[|table| - 1]))
  }

  function TrimRow(row: Row): Row {
    seq(|row|, i requires 0 <= i < |row| => Trim(row[i]))
  }

  function TrimAll(table: seq<Row>): seq<Row> {
    seq(|table|, i requires 0 <= i < |table| => TrimRow(table[i]))
  }

  lemma QuotedCellsMean(row: Row)
    ensures ProperCells(QuotedCells(row)) && RowOf(QuotedCells(row)) == TrimRow(row)
  {
    forall c: string ensures CellText([Quoted(c)]) == c {
      assert [Quoted(c)][1..] == [] && c + "" == c;
    }
  }

  lemma QuotedLinesMean(table: seq<Row>, end: LineEnd)
    ensures forall i | 0 <= i < |table| :: ProperCells(QuotedLines(table, end)[i].cells)
    ensures LineRows(QuotedLines(table, end)) == TrimAll(table)
  {
    forall i | 0 <= i < |table|
      ensures ProperCells(QuotedLines(table, end)[i].cells)
      ensures LineRows(QuotedLines(table, end))[i] == TrimAll(table)[i]
    {
      QuotedCellsMean(table[i]);
    }
  }

  lemma QuotedTable(table: seq<Row>, end: LineEnd, finalEnd: bool)
    ensures ProperDocument(QuoteAll(table, end, finalEnd))
    ensures Table(QuoteAll(table, end, finalEnd)) == DropBlank(TrimAll(table))
  {
    if finalEnd || table == [] {
      QuotedLinesMean(table, end);
      assert RowOf([]) == [];
      DropBlankAppend(TrimAll(table), [[]]);
      DropBlankOne([]);
      assert DropBlank(TrimAll(table)) + [] == DropBlank(TrimAll(table));
    } else {
      var front, last := table[..|table| - 1], table[|table| - 1];
      QuotedLinesMean(front, end);
      QuotedCellsMean(last);
      assert TrimAll(table) == TrimAll(front) + [TrimRow(last)];
    }
  }

  /** Round trip for the fully quoted print: cells come back trimmed, blank rows are gone. */
  lemma QuotedRoundTrip(table: seq<Row>, end: LineEnd, finalEnd: bool)
    ensures Rows(Print(QuoteAll(table, end, finalEnd))) == DropBlank(TrimAll(table))
  {
    QuotedTable(table, end, finalEnd);
    ParseOfPrint(QuoteAll(table, end, finalEnd));
  }

  lemma {:induction false} CleanIsFixed(rows: seq<Row>)
    requires Clean(rows)
    ensures TrimAll(rows) == rows && DropBlank(rows) == rows
  {
    forall i | 0 <= i < |rows| ensures TrimRow(rows[i]) == rows[i] {
      forall j | 0 <= j < |rows[i]| ensures Trim(rows[i][j]) == rows[i][j] {
        TrimIsCore("", rows[i][j], "");
        assert "" + rows[i][j] + "" == rows[i][j];
      }
    }
    DropBlankFixed(rows);
  }

  lemma {:induction false} DropBlankFixed(rows: seq<Row>)
    requires Clean(rows)
    ensures DropBlank(rows) == rows
  {
    if rows != [] {
      assert rows[1..] == rows[1..] && rows == [rows[0]] + rows[1..];
      DropBlankFixed(rows[1..]);
    }
  }

  /** Print-then-parse is the identity on everything the parser returns. */
  lemma ReprintIsIdentity(content: string, end: LineEnd, finalEnd: bool)
    ensures Rows(Print(QuoteAll(Rows(content), end, finalEnd))) == Rows(content)
  {
    OutputIsClean(content);
    CleanIsFixed(Rows(content));
    QuotedRoundTrip(Rows(content), end, finalEnd);
  }

  // ---------------------------------------------------------------------------
  // Every balanced text is a printed document, so the round trip fixes the parser on all texts
  // ---------------------------------------------------------------------------

  function FirstCells(d: Document): seq<Cell> {
    if d.lines == [] then d.tail else d.lines[0].cells
  }

  function AfterFirst(d: Document): string {
    if d.lines == [] then "" else d.lines[0].end.Text() + PrintLines(d.lines[1..]) + PrintCells(d.tail)
  }

  function WithFirst(d: Document, cells: seq<Cell>): Document {
    if d.lines == [] then Document([], cells)
    else Document([Line(cells, d.lines[0].end)] + d.lines[1..], d.tail)
  }

  lemma PrintWithFirst(d: Document, cells: seq<Cell>)
    ensures Print(WithFirst(d, cells)) == PrintCells(cells) + AfterFirst(d)
    ensures Print(d) == PrintCells(FirstCells(d)) + AfterFirst(d)
  {
    if d.lines == [] {
      assert "" + PrintCells(cells) == PrintCells(cells) + "";
      assert "" + PrintCells(d.tail) == PrintCells(d.tail) + "";
    } else {
      PrintLinesSplit(d.lines, PrintCells(d.tail));
      PrintLinesSplit(WithFirst(d, cells).lines, PrintCells(d.tail));
      Assoc(d.lines[0].end.Text(), PrintLines(d.lines[1..]), PrintCells(d.tail));
    }
  }

  /** Inside quotes: the text up to the closing quote is an escaped string. */
  lemma {:induction false} SplitQuoted(text: string) returns (v: string, rest: string)
    requires !Balanced(text)
    ensures text == Escape(v) + "\"" + rest && NoQuoteFirst(rest) && Balanced(rest)
    decreases |text|
  {
    if text[0] != '"' {
      var v', rest' := SplitQuoted(text[1..]);
      v, rest := [text[0]] + v', rest';
      assert v[1..] == v';
      assert text == [text[0]] + (Escape(v') + "\"" + rest);
    } else if |text| > 1 && text[1] == '"' {
      assert text[1..][1..] == text[2..];
      var v', rest' := SplitQuoted(text[2..]);
      v, rest := ['"'] + v', rest';
      assert v[1..] == v';
      assert text == "\"\"" + (Escape(v') + "\"" + rest);
    } else {
      v, rest := "", text[1..];
      assert text == "" + "\"" + rest;
    }
  }

  predicate Lexes(d: Document, text: string) {
    ProperDocument(d) && FirstCells(d) != [] && Print(d) == text
  }

  function PrependTo(g: Segment, cell: Cell): Cell {
    if g.Bare? && cell != [] && cell[0].Bare? then [Bare(g.text + cell[0].text)] + cell[1..] else [g] + cell
  }

  lemma PrintPrepend(g: Segment, cell: Cell)
    ensures PrintCell(PrependTo(g, cell)) == PrintSegment(g) + PrintCell(cell)
  {
    var cell' := PrependTo(g, cell);
    if g.Bare? && cell != [] && cell[0].Bare? {
      assert cell'[1..] == cell[1..];
      Assoc(g.text, cell[0].text, PrintCell(cell[1..]));
    } else {
      assert cell'[1..] == cell;
    }
  }

  lemma PrependProper(g: Segment, cell: Cell)
    requires Proper(cell) && (g.Bare? ==> g.text != "" && AllPlain(g.text))
    requires g.Quoted? ==> NoQuoteFirst(PrintCell(cell))
    ensures Proper(PrependTo(g, cell))
  {
    var cell' := PrependTo(g, cell);
    if g.Bare? && cell != [] && cell[0].Bare? {
      assert AllPlain(cell[0].text);
      assert forall i | 1 <= i < |cell'| :: cell'[i] == cell[i];
    } else {
      assert cell != [] && cell[0].Quoted? ==> PrintCell(cell)[0] == '"';
      assert forall i | 1 <= i < |cell'| :: cell'[i] == cell[i - 1];
    }
  }

  /** Replacing the first cell changes the front of the print only. */
  lemma ReplaceFirstCell(d: Document, cell': Cell) returns (d': Document, cell: Cell, more: string)
    requires ProperDocument(d) && FirstCells(d) != [] && Proper(cell')
    ensures cell == FirstCells(d)[0] && Proper(cell) && Print(d) == PrintCell(cell) + more
    ensures ProperDocument(d') && FirstCells(d') != [] && Print(d') == PrintCell(cell') + more
  {
    cell := FirstCells(d)[0];
    var cells := FirstCells(d)[1..];
    assert FirstCells(d) == [cell] + cells;
    d' := WithFirst(d, [cell'] + cells);
    more := (if cells == [] then "" else "," + PrintCells(cells)) + AfterFirst(d);
    PrintWithFirst(d, [cell'] + cells);
    PrintConsCell(cell, cells, AfterFirst(d));
    PrintConsCell(cell', cells, AfterFirst(d));
    WithFirstProper(d, [cell'] + cells);
  }

  lemma WithFirstProper(d: Document, cells: seq<Cell>)
    requires ProperDocument(d) && FirstCells(d) != [] && cells != []
    requires Proper(cells[0]) && cells[1..] == FirstCells(d)[1..]
    ensures ProperCells(FirstCells(d)) && ProperDocument(WithFirst(d, cells)) && FirstCells(WithFirst(d, cells)) == cells
  {
    assert ProperCells(FirstCells(d));
    forall i | 1 <= i < |cells| ensures Proper(cells[i]) {
      assert cells[i] == cells[1..][i - 1] == FirstCells(d)[i];
    }
    if d.lines != [] {
      var d' := WithFirst(d, cells);
      assert forall i | 1 <= i < |d'.lines| :: d'.lines[i] == d.lines[i];
    }
  }

  /** Put a segment in front of the first cell. */
  lemma PrependSegment(d: Document, text: string, g: Segment) returns (d': Document)
    requires Lexes(d, text)
    requires g.Bare? ==> g.text != "" && AllPlain(g.text)
    requires g.Quoted? ==> NoQuoteFirst(text)
    ensures Lexes(d', PrintSegment(g) + text)
  {
    var cell0 := FirstCells(d)[0];
    assert ProperCells(FirstCells(d));
    var _, _, more0 := ReplaceFirstCell(d, cell0);
    assert PrintCell(cell0) != "" ==> text[0] == PrintCell(cell0)[0];
    PrependProper(g, cell0);
    var d1, cell, more := ReplaceFirstCell(d, PrependTo(g, cell0));
    d' := d1;
    PrintPrepend(g, cell0);
    Assoc(PrintSegment(g), PrintCell(cell0), more);
  }

  lemma PrintConsCell(cell: Cell, cells: seq<Cell>, after: string)
    ensures PrintCells([cell] + cells) + after
         == PrintCell(cell) + ((if cells == [] then "" else "," + PrintCells(cells)) + after)
  {
    assert ([cell] + cells)[1..] == cells;
    Assoc(PrintCell(cell), if cells == [] then "" else "," + PrintCells(cells), after);
  }

  lemma PrependCell(d: Document, text: string) returns (d': Document)
    requires Lexes(d, text)
    ensures Lexes(d', "," + text)
  {
    var cells := [[]] + FirstCells(d);
    d' := WithFirst(d, cells);
    PrintWithFirst(d, cells);
    PrintConsCell([], FirstCells(d), AfterFirst(d));
    assert PrintCell([]) == "";
    Assoc(",", PrintCells(FirstCells(d)), AfterFirst(d));
    assert "" + ("," + text) == "," + text;
  }

  lemma PrependLine(d: Document, text: string, end: LineEnd) returns (d': Document)
    requires Lexes(d, text)
    ensures Lexes(d', end.Text() + text)
  {
    d' := Document([Line([[]], end)] + d.lines, d.tail);
    PrintLinesSplit(d'.lines, PrintCells(d.tail));
    assert d'.lines[1..] == d.lines;
    assert PrintCells([[]]) == "" by { PrintConsCell([], [], ""); }
    assert "" + (end.Text() + text) == end.Text() + text;
  }

  lemma PrependChar(d: Document, tail: string, c: char) returns (d': Document)
    requires Lexes(d, tail) && c != '"'
    ensures Lexes(d', [c] + tail)
  {
    if c == ',' {
      d' := PrependCell(d, tail);
    } else if LineBreak(c) {
      d' := PrependLine(d, tail, if c == '\r' then CR else LF);
    } else {
      d' := PrependSegment(d, tail, Bare([c]));
    }
  }

  /** Every balanced text is the print of some document. */
  lemma {:induction false} Lex(text: string) returns (d: Document)
    requires Balanced(text)
    ensures Lexes(d, text)
    decreases |text|
  {
    if text == "" {
      d := Document([], [[]]);
      PrintConsCell([], [], "");
    } else if text[0] == '"' {
      var v, rest := SplitQuoted(text[1..]);
      QuotedText(text, v, rest);
      d := Lex(rest);
      d := PrependSegment(d, rest, Quoted(v));
    } else {
      d := Lex(text[1..]);
      d := PrependChar(d, text[1..], text[0]);
      assert text == [text[0]] + text[1..];
    }
  }

  lemma QuotedText(text: string, v: string, rest: string)
    requires text != "" && text[0] == '"' && text[1..] == Escape(v) + "\"" + rest
    ensures text == PrintSegment(Quoted(v)) + rest && |rest| < |text|
  {
    Assoc("\"" + Escape(v), "\"", rest);
    Assoc("\"", Escape(v), "\"" + rest);
    Assoc(Escape(v), "\"", rest);
    assert text == "\"" + text[1..];
  }

  /** The parser on every text: a balanced text is a document's print and yields its table; any
      other text is read as if its open quote were closed at the very end. */
  lemma ParserMeaning(text: string)
    ensures var closed := if Balanced(text) then text else text + "\"";
            exists d :: ProperDocument(d) && Print(d) == closed && Rows(text) == Table(d)
  {
    var closed := if Balanced(text) then text else text + "\"";
    if !Balanced(text) {
      CloseAtEnd(text);
      QuoteCountAppend(text);
    }
    var d := Lex(closed);
    ParseOfPrint(d);
  }

  lemma {:induction false} QuoteCountAppend(text: string)
    ensures QuoteCount(text + "\"") == QuoteCount(text) + 1
    decreases |text|
  {
    if text == "" {
      assert text + "\"" == "\"" && "\""[1..] == "";
    } else {
      assert (text + "\"")[1..] == text[1..] + "\"";
      QuoteCountAppend(text[1..]);
    }
  }
}

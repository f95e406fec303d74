/** The CSV export (apps/web/src/lib/csv.ts:3-13) and a reader for the format of section 2
    of RFC 4180. Unquoted fields may hold any character except a comma, a quote, CR and LF:
    the grammar's TEXTDATA is ASCII only, and course names are not. */
module Csv {
  import opened Wrappers
  import opened PythonText

  // String(number) uses none of the characters that need quoting.
  predicate NumberText(s: string) {
    s != "" && forall i :: 0 <= i < |s| ==> s[i] in "0123456789+-.eNaInfity"
  }

  type Numeral = s: string | NumberText(s) witness "0"

  datatype Cell = Text(text: string) | Number(numeral: Numeral)

  // ----- the writer

  predicate FormulaChar(c: char) {
    c in {'=', '+', '-', '@', '\t', '\r'}
  }

  predicate LeadsFormula(s: string) {
    s != "" && FormulaChar(s[0])
  }

  function Guard(s: string): string {
    if LeadsFormula(s) then "'" + s else s
  }

  predicate NeedsQuoting(s: string) {
    exists i :: 0 <= i < |s| && s[i] in {'"', ',', '\r', '\n'}
  }

  function DoubleQuotes(s: string): string {
    if s == "" then "" else (if s[0] == '"' then "\"\"" else [s[0]]) + DoubleQuotes(s[1..])
  }

  function Quote(s: string): string {
    if NeedsQuoting(s) then "\"" + DoubleQuotes(s) + "\"" else s
  }

  // What a cell says once it is read back.
  function CellText(c: Cell): string {
    match c
    case Text(s) => Guard(s)
    case Number(n) => n
  }

  function EscapeCell(c: Cell): string {
    Quote(CellText(c))
  }

  function EscapeRow(row: seq<Cell>): seq<string> {
    if row == [] then [] else [EscapeCell(row[0])] + EscapeRow(row[1..])
  }

  function RowText(row: seq<Cell>): string {
    Join(EscapeRow(row), ",")
  }

  function Lines(table: seq<seq<Cell>>): seq<string> {
    if table == [] then [] else [RowText(table[0])] + Lines(table[1..])
  }

  function ToCsv(headers: seq<string>, rows: seq<seq<Cell>>): string {
    Join(Lines(Table(headers, rows)), "\r\n")
  }

  function Table(headers: seq<string>, rows: seq<seq<Cell>>): seq<seq<Cell>> {
    [seq(|headers|, i requires 0 <= i < |headers| => Text(headers[i]))] + rows
  }

  // ----- the reader

  predicate Plain(c: char) {
    c !in {'"', ',', '\r', '\n'}
  }

  datatype Taken<T> = Taken(value: T, rest: string)

  function TakePlain(s: string): (t: Taken<string>)
    ensures |t.rest| <= |s|
  {
    if s != "" && Plain(s[0]) then
      var t := TakePlain(s[1..]);
      Taken([s[0]] + t.value, t.rest)
    else Taken("", s)
  }

  // From after an opening quote to after the closing one; two quotes stand for one.
  function TakeQuoted(s: string): (t: Option<Taken<string>>)
    ensures t.Some? ==> |t.value.rest| < |s|
  {
    if s == "" then None
    else if s[0] == '"' && (|s| == 1 || s[1] != '"') then Some(Taken("", s[1..]))
    else
      var skip := if s[0] == '"' then 2 else 1;
      match TakeQuoted(s[skip..])
      case None => None
      case Some(t) => Some(Taken([s[0]] + t.value, t.rest))
  }

  function TakeField(s: string): (t: Option<Taken<string>>)
    ensures t.Some? ==> |t.value.rest| <= |s|
  {
    if s != "" && s[0] == '"' then TakeQuoted(s[1..]) else Some(TakePlain(s))
  }

  function TakeRecord(s: string): (t: Option<Taken<seq<string>>>)
    ensures t.Some? ==> |t.value.rest| <= |s|
    decreases |s|
  {
    match TakeField(s)
    case None => None
    case Some(field) =>
      if field.rest != "" && field.rest[0] == ',' then
        match TakeRecord(field.rest[1..])
        case None => None
        case Some(more) => Some(Taken([field.value] + more.value, more.rest))
      else Some(Taken([field.value], field.rest))
  }

  // Rule 2 lets the last record end with or without a line break, so a final CRLF either
  // separates one more, empty record or (`terminated`) ends the last one.
  function Read(s: string, terminated: bool): Option<seq<seq<string>>>
    decreases |s|
  {
    match TakeRecord(s)
    case None => None
    case Some(record) =>
      if record.rest == "" || (terminated && record.rest == "\r\n") then Some([record.value])
      else if record.rest[0] == '\r' && |record.rest| > 1 && record.rest[1] == '\n' then
        match Read(record.rest[2..], terminated)
        case None => None
        case Some(more) => Some([record.value] + more)
      else None
  }

  // ----- one cell

  // What may follow a field.
  predicate EndsField(rest: string) {
    rest == "" || rest[0] == ',' || rest[0] == '\r'
  }

  lemma TakePlainChar(c: char, s: string)
    requires Plain(c)
    ensures TakePlain([c] + s) == Taken([c] + TakePlain(s).value, TakePlain(s).rest)
  {
    assert ([c] + s)[1..] == s;
  }

  lemma {:induction false} TakePlainAll(s: string, rest: string)
    requires (forall i :: 0 <= i < |s| ==> Plain(s[i])) && EndsField(rest)
    ensures TakePlain(s + rest) == Taken(s, rest)
  {
    if s == "" {
      assert s + rest == rest;
    } else {
      assert s + rest == [s[0]] + (s[1..] + rest);
      TakePlainChar(s[0], s[1..] + rest);
      TakePlainAll(s[1..], rest);
      assert [s[0]] + s[1..] == s;
    }
  }

  lemma TakeQuotedChar(c: char, s: string)
    ensures TakeQuoted((if c == '"' then "\"\"" else [c]) + s)
         == match TakeQuoted(s) { case None => None case Some(t) => Some(Taken([c] + t.value, t.rest)) }
  {
    var text := (if c == '"' then "\"\"" else [c]) + s;
    assert text[if c == '"' then 2 else 1..] == s;
  }

  lemma TakeQuotedEnd(rest: string)
    requires EndsField(rest)
    ensures TakeQuoted("\"" + rest) == Some(Taken("", rest))
  {
    assert ("\"" + rest)[1..] == rest;
  }

  lemma {:induction false} TakeQuotedAll(s: string, rest: string)
    requires EndsField(rest)
    ensures TakeQuoted(DoubleQuotes(s) + "\"" + rest) == Some(Taken(s, rest))
  {
    if s == "" {
      assert DoubleQuotes(s) + "\"" + rest == "\"" + rest;
      TakeQuotedEnd(rest);
    } else {
      var more := DoubleQuotes(s[1..]) + "\"" + rest;
      assert DoubleQuotes(s) + "\"" + rest == (if s[0] == '"' then "\"\"" else [s[0]]) + more;
      TakeQuotedChar(s[0], more);
      TakeQuotedAll(s[1..], rest);
      assert [s[0]] + s[1..] == s;
    }
  }

  lemma TakeFieldQuoted(s: string)
    ensures TakeField("\"" + s) == TakeQuoted(s)
  {
    assert ("\"" + s)[1..] == s;
  }

  lemma QuotedField(s: string, rest: string)
    requires EndsField(rest)
    ensures TakeField("\"" + (DoubleQuotes(s) + "\"" + rest)) == Some(Taken(s, rest))
  {
    TakeQuotedAll(s, rest);
    TakeFieldQuoted(DoubleQuotes(s) + "\"" + rest);
  }

  lemma QuotedText(s: string, rest: string)
    requires NeedsQuoting(s)
    ensures Quote(s) + rest == "\"" + (DoubleQuotes(s) + "\"" + rest)
  {
  }

  lemma TakeQuote(s: string, rest: string)
    requires NeedsQuoting(s) && EndsField(rest)
    ensures TakeField(Quote(s) + rest) == Some(Taken(s, rest))
  {
    QuotedText(s, rest);
    QuotedField(s, rest);
  }

  lemma TakeUnquoted(s: string, rest: string)
    requires !NeedsQuoting(s) && EndsField(rest)
    ensures TakeField(Quote(s) + rest) == Some(Taken(s, rest))
  {
    assert forall i :: 0 <= i < |s| ==> Plain(s[i]);
    TakePlainAll(s, rest);
    assert s + rest != "" && (s + rest)[0] == '"' ==> s == "";
  }

  lemma TakeCell(c: Cell, rest: string)
    requires EndsField(rest)
    ensures TakeField(EscapeCell(c) + rest) == Some(Taken(CellText(c), rest))
  {
    if NeedsQuoting(CellText(c)) {
      TakeQuote(CellText(c), rest);
    } else {
      TakeUnquoted(CellText(c), rest);
    }
  }

  // ----- one record, then all of them

  function ReadRow(row: seq<Cell>): (r: seq<string>)
    ensures |r| == |row| && forall i :: 0 <= i < |row| ==> r[i] == CellText(row[i])
  {
    if row == [] then [] else [CellText(row[0])] + ReadRow(row[1..])
  }

  function ReadTable(table: seq<seq<Cell>>): (r: seq<seq<string>>)
    ensures |r| == |table| && forall i :: 0 <= i < |table| ==> r[i] == ReadRow(table[i])
  {
    if table == [] then [] else [ReadRow(table[0])] + ReadTable(table[1..])
  }

  // What a cell says once it is read back: a number its own numeral, whatever that starts with; a
  // text itself, or behind an apostrophe when a spreadsheet would take it for a formula.
  ghost predicate ReadsAs(read: string, cell: Cell) {
    match cell
    case Number(n) => read == n
    case Text(s) => read == if s != "" && s[0] in {'=', '+', '-', '@', '\t', '\r'} then "'" + s else s
  }

  ghost predicate RowReadsAs(read: seq<string>, row: seq<Cell>) {
    |read| == |row| && forall j :: 0 <= j < |row| ==> ReadsAs(read[j], row[j])
  }

  ghost predicate HeadersReadAs(read: seq<string>, headers: seq<string>) {
    |read| == |headers| && forall j :: 0 <= j < |headers| ==> ReadsAs(read[j], Text(headers[j]))
  }

  // The records are the headers and then the rows, cell by cell and with their lengths.
  ghost predicate GivesBack(records: seq<seq<string>>, headers: seq<string>, rows: seq<seq<Cell>>) {
    && |records| == 1 + |rows|
    && HeadersReadAs(records[0], headers)
    && forall i :: 0 <= i < |rows| ==> RowReadsAs(records[i + 1], rows[i])
  }

  /** A cell is written as its text, between quotes exactly when that holds a comma, a quote, CR or LF. */
  lemma QuotedWhenNeeded(cell: Cell, text: string)
    requires ReadsAs(text, cell)
    ensures (forall i :: 0 <= i < |text| ==> text[i] !in {'"', ',', '\r', '\n'}) ==> EscapeCell(cell) == text
    ensures (exists i :: 0 <= i < |text| && text[i] in {'"', ',', '\r', '\n'}) ==>
              EscapeCell(cell) == ['"'] + DoubleQuotes(text) + ['"']
  {
  }

  lemma CellReadsAs(read: string, cell: Cell)
    ensures ReadsAs(read, cell) <==> read == CellText(cell)
  {
  }

  lemma RowReads(read: seq<string>, row: seq<Cell>)
    ensures RowReadsAs(read, row) <==> read == ReadRow(row)
  {
    forall j | 0 <= j < |row| && |read| == |row| ensures ReadsAs(read[j], row[j]) <==> read[j] == ReadRow(row)[j] {
      CellReadsAs(read[j], row[j]);
    }
  }

  lemma TableReads(records: seq<seq<string>>, headers: seq<string>, rows: seq<seq<Cell>>)
    ensures GivesBack(records, headers, rows) <==> records == ReadTable(Table(headers, rows))
  {
    var table := Table(headers, rows);
    assert forall i :: 0 <= i < |rows| ==> table[i + 1] == rows[i];
    if |records| == 1 + |rows| {
      RowReads(records[0], table[0]);
      assert HeadersReadAs(records[0], headers) <==> RowReadsAs(records[0], table[0]);
      forall i | 0 <= i < |rows| ensures RowReadsAs(records[i + 1], rows[i]) <==> records[i + 1] == ReadTable(table)[i + 1] {
        RowReads(records[i + 1], rows[i]);
      }
      if GivesBack(records, headers, rows) {
        assert forall i :: 0 <= i < |table| ==> records[i] == ReadTable(table)[i];
      }
    }
  }

  // The text reads as the table.
  ghost predicate RoundTrips(headers: seq<string>, rows: seq<seq<Cell>>, terminated: bool) {
    var records := Read(ToCsv(headers, rows), terminated);
    records.Some? && GivesBack(records.value, headers, rows)
  }

  lemma RoundTripsExactly(headers: seq<string>, rows: seq<seq<Cell>>, terminated: bool)
    ensures RoundTrips(headers, rows, terminated)
       <==> Read(ToCsv(headers, rows), terminated) == Some(ReadTable(Table(headers, rows)))
  {
    var records := Read(ToCsv(headers, rows), terminated);
    if records.Some? {
      TableReads(records.value, headers, rows);
    }
  }

  // After a record comes the end or a line break.
  predicate EndsRecord(rest: string) {
    rest == "" || rest[0] == '\r'
  }

  // The rest of a record after one cell, and of a file after one record.
  function AfterCell(row: seq<Cell>): string
    requires row != []
  {
    if |row| == 1 then "" else "," + RowText(row[1..])
  }

  function AfterRow(table: seq<seq<Cell>>): string
    requires table != []
  {
    if |table| == 1 then "" else "\r\n" + Join(Lines(table[1..]), "\r\n")
  }

  lemma RowCells(row: seq<Cell>)
    requires row != []
    ensures EscapeRow(row)[0] == EscapeCell(row[0]) && EscapeRow(row)[1..] == EscapeRow(row[1..])
    ensures |EscapeRow(row)| == 1 <==> |row| == 1
  {
    assert row[1..] != [] ==> |EscapeRow(row[1..])| > 0;
  }

  lemma TableLines(table: seq<seq<Cell>>)
    requires table != []
    ensures Lines(table)[0] == RowText(table[0]) && Lines(table)[1..] == Lines(table[1..])
    ensures |Lines(table)| == 1 <==> |table| == 1
  {
    assert table[1..] != [] ==> |Lines(table[1..])| > 0;
  }

  lemma RowParts(row: seq<Cell>)
    requires row != []
    ensures RowText(row) == EscapeCell(row[0]) + AfterCell(row)
  {
    JoinParts(EscapeRow(row), ",");
    RowCells(row);
  }

  lemma TableParts(table: seq<seq<Cell>>)
    requires table != []
    ensures Join(Lines(table), "\r\n") == RowText(table[0]) + AfterRow(table)
  {
    JoinParts(Lines(table), "\r\n");
    TableLines(table);
  }

  lemma TakeRecordMore(s: string, field: string, more: string)
    requires TakeField(s) == Some(Taken(field, "," + more)) && TakeRecord(more).Some?
    ensures TakeRecord(s) == Some(Taken([field] + TakeRecord(more).value.value, TakeRecord(more).value.rest))
  {
    assert ("," + more)[1..] == more;
  }

  lemma TakeOnlyCell(row: seq<Cell>, rest: string)
    requires |row| == 1 && EndsRecord(rest)
    ensures TakeRecord(RowText(row) + rest) == Some(Taken(ReadRow(row), rest))
  {
    RowParts(row);
    assert RowText(row) + rest == EscapeCell(row[0]) + rest;
    TakeCell(row[0], rest);
    assert ReadRow(row) == [CellText(row[0])];
  }

  lemma FirstCell(row: seq<Cell>, rest: string)
    requires |row| > 1
    ensures RowText(row) + rest == EscapeCell(row[0]) + ("," + (RowText(row[1..]) + rest))
  {
    RowParts(row);
  }

  lemma {:induction false} TakeRow(row: seq<Cell>, rest: string)
    requires row != [] && EndsRecord(rest)
    ensures TakeRecord(RowText(row) + rest) == Some(Taken(ReadRow(row), rest))
  {
    if |row| == 1 {
      TakeOnlyCell(row, rest);
    } else {
      var more := RowText(row[1..]) + rest;
      FirstCell(row, rest);
      TakeCell(row[0], "," + more);
      TakeRow(row[1..], rest);
      TakeRecordMore(RowText(row) + rest, CellText(row[0]), more);
    }
  }

  predicate NoEmptyRow(table: seq<seq<Cell>>) {
    forall i :: 0 <= i < |table| ==> table[i] != []
  }

  lemma ReadLast(s: string, record: seq<string>, terminated: bool)
    requires TakeRecord(s) == Some(Taken(record, ""))
    ensures Read(s, terminated) == Some([record])
  {
  }

  lemma ReadMore(s: string, record: seq<string>, more: string, terminated: bool)
    requires TakeRecord(s) == Some(Taken(record, "\r\n" + more)) && Read(more, terminated).Some?
    requires terminated ==> more != ""
    ensures Read(s, terminated) == Some([record] + Read(more, terminated).value)
  {
    assert ("\r\n" + more)[2..] == more;
    assert "\r\n" + more == "\r\n" <==> more == "" by {
      assert |"\r\n" + more| == 2 + |more|;
    }
  }

  // A file that ends in a line break keeps it out of its records.
  predicate EndsInBreak(table: seq<seq<Cell>>) {
    |table| > 1 && RowText(table[|table| - 1]) == ""
  }

  lemma {:induction false} ReadAll(table: seq<seq<Cell>>, terminated: bool)
    requires table != [] && NoEmptyRow(table) && (terminated ==> !EndsInBreak(table))
    ensures Read(Join(Lines(table), "\r\n"), terminated) == Some(ReadTable(table))
  {
    TableParts(table);
    TakeRow(table[0], AfterRow(table));
    if |table| == 1 {
      ReadLast(Join(Lines(table), "\r\n"), ReadRow(table[0]), terminated);
      assert ReadTable(table) == [ReadRow(table[0])];
    } else {
      var more := Join(Lines(table[1..]), "\r\n");
      assert table[1..][|table| - 2] == table[|table| - 1];
      ReadAll(table[1..], terminated);
      TextEmpty(table[1..]);
      ReadMore(Join(Lines(table), "\r\n"), ReadRow(table[0]), more, terminated);
    }
  }

  lemma TextEmpty(table: seq<seq<Cell>>)
    requires table != []
    ensures Join(Lines(table), "\r\n") == "" <==> |table| == 1 && RowText(table[0]) == ""
  {
    TableParts(table);
  }

  // ----- exactly when the export reads back

  // Every record has at least one field, whatever the text.
  lemma {:induction false} RecordsHaveFields(s: string, terminated: bool)
    ensures TakeRecord(s).Some? ==> TakeRecord(s).value.value != []
    ensures Read(s, terminated).Some? ==> forall i :: 0 <= i < |Read(s, terminated).value| ==> Read(s, terminated).value[i] != []
    decreases |s|
  {
    var record := TakeRecord(s);
    if record.Some? && |record.value.rest| > 1 {
      RecordsHaveFields(record.value.rest[2..], terminated);
    }
  }

  /** Read with every CRLF as a separator, the export gives back exactly its rows, cell by
      cell and with their lengths, if and only if no row is without cells. */
  lemma SeparatedRoundTrip(headers: seq<string>, rows: seq<seq<Cell>>)
    ensures RoundTrips(headers, rows, false) <==> headers != [] && forall i :: 0 <= i < |rows| ==> rows[i] != []
  {
    RoundTripsExactly(headers, rows, false);
    HeaderAndRows(headers, rows);
    if NoEmptyRow(Table(headers, rows)) {
      ReadAll(Table(headers, rows), false);
    } else {
      EmptyRowIsLost(Table(headers, rows), ToCsv(headers, rows), false);
    }
  }

  lemma HeaderAndRows(headers: seq<string>, rows: seq<seq<Cell>>)
    ensures NoEmptyRow(Table(headers, rows)) <==> headers != [] && NoEmptyRow(rows)
  {
    var table := Table(headers, rows);
    assert forall i :: 0 <= i < |rows| ==> table[i + 1] == rows[i];
    assert table[0] == [] <==> headers == [];
  }

  lemma EmptyText(row: seq<Cell>)
    requires row != []
    ensures RowText(row) == "" <==> row == [Text("")]
  {
    RowParts(row);
    if |row| == 1 {
      assert RowText(row) == EscapeCell(row[0]);
      assert row == [row[0]];
    }
  }

  lemma ReadEnd(s: string, record: seq<string>)
    requires TakeRecord(s) == Some(Taken(record, "\r\n"))
    ensures Read(s, true) == Some([record])
  {
  }

  // A final break is taken for the end of the record before it.
  lemma {:induction false} ReadTerminated(table: seq<seq<Cell>>)
    requires table != [] && NoEmptyRow(table)
    ensures Read(Join(Lines(table), "\r\n") + "\r\n", true) == Some(ReadTable(table))
  {
    var text := Join(Lines(table), "\r\n") + "\r\n";
    TableParts(table);
    if |table| == 1 {
      assert text == RowText(table[0]) + "\r\n";
      TakeRow(table[0], "\r\n");
      ReadEnd(text, ReadRow(table[0]));
      assert ReadTable(table) == [ReadRow(table[0])];
    } else {
      var more := Join(Lines(table[1..]), "\r\n") + "\r\n";
      assert text == RowText(table[0]) + ("\r\n" + more);
      TakeRow(table[0], "\r\n" + more);
      ReadTerminated(table[1..]);
      ReadMore(text, ReadRow(table[0]), more, true);
    }
  }

  lemma {:induction false} LinesSnoc(table: seq<seq<Cell>>, last: seq<Cell>)
    ensures Lines(table + [last]) == Lines(table) + [RowText(last)]
  {
    if table == [] {
      assert table + [last] == [last] && [last][1..] == [];
    } else {
      assert (table + [last])[1..] == table[1..] + [last];
      LinesSnoc(table[1..], last);
    }
  }

  lemma JoinedLines(table: seq<seq<Cell>>, last: seq<Cell>)
    requires table != []
    ensures Join(Lines(table + [last]), "\r\n") == Join(Lines(table), "\r\n") + ("\r\n" + RowText(last))
  {
    LinesSnoc(table, last);
    JoinSnoc(Lines(table), RowText(last), "\r\n");
  }

  lemma BlankLine(front: seq<seq<Cell>>, last: seq<Cell>)
    requires front != [] && RowText(last) == ""
    ensures Join(Lines(front + [last]), "\r\n") == Join(Lines(front), "\r\n") + "\r\n"
  {
    JoinedLines(front, last);
    assert "\r\n" + "" == "\r\n";
  }

  // The break before a blank last line is taken for the end of the file.
  lemma ReadDropsLast(front: seq<seq<Cell>>, last: seq<Cell>)
    requires front != [] && NoEmptyRow(front) && RowText(last) == ""
    ensures Read(Join(Lines(front + [last]), "\r\n"), true) == Some(ReadTable(front))
  {
    BlankLine(front, last);
    ReadTerminated(front);
  }

  // Nothing, or nothing but one empty text cell, in the last row.
  predicate LastRowBlank(rows: seq<seq<Cell>>) {
    rows != [] && rows[|rows| - 1] == [Text("")]
  }

  lemma TerminatedReads(table: seq<seq<Cell>>)
    requires table != [] && NoEmptyRow(table)
    ensures Read(Join(Lines(table), "\r\n"), true) == Some(ReadTable(table)) <==> !EndsInBreak(table)
  {
    if EndsInBreak(table) {
      var front, last := table[..|table| - 1], table[|table| - 1];
      ReadDropsLast(front, last);
      assert table == front + [last];
      assert |ReadTable(front)| != |ReadTable(table)|;
    } else {
      ReadAll(table, true);
    }
  }

  // A record read from text always has a field, so a row without cells is never given back.
  lemma EmptyRowIsLost(table: seq<seq<Cell>>, text: string, terminated: bool)
    requires !NoEmptyRow(table)
    ensures Read(text, terminated) != Some(ReadTable(table))
  {
    RecordsHaveFields(text, terminated);
    var i :| 0 <= i < |table| && table[i] == [];
    assert ReadTable(table)[i] == [];
  }

  lemma LastTableRow(headers: seq<string>, rows: seq<seq<Cell>>)
    requires NoEmptyRow(Table(headers, rows))
    ensures EndsInBreak(Table(headers, rows)) <==> LastRowBlank(rows)
  {
    var table := Table(headers, rows);
    EmptyText(table[|table| - 1]);
    assert rows != [] ==> table[|table| - 1] == rows[|rows| - 1];
  }

  /** Read with a final CRLF as the end of the last record, the export gives back its rows if
      and only if, besides, the last of them is not one empty text cell. */
  lemma TerminatedRoundTrip(headers: seq<string>, rows: seq<seq<Cell>>)
    ensures RoundTrips(headers, rows, true)
       <==> && headers != [] && (forall i :: 0 <= i < |rows| ==> rows[i] != [])
            && (rows != [] ==> rows[|rows| - 1] != [Text("")])
  {
    RoundTripsExactly(headers, rows, true);
    HeaderAndRows(headers, rows);
    if NoEmptyRow(Table(headers, rows)) {
      LastTableRow(headers, rows);
      TerminatedReads(Table(headers, rows));
    } else {
      EmptyRowIsLost(Table(headers, rows), ToCsv(headers, rows), true);
    }
  }

  // ----- formulas

  // What a row without cells looks like in the export.
  function Padded(row: seq<Cell>): seq<Cell> {
    if row == [] then [Text("")] else row
  }

  function PaddedTable(table: seq<seq<Cell>>): (padded: seq<seq<Cell>>)
    ensures |padded| == |table| && forall i :: 0 <= i < |table| ==> padded[i] == Padded(table[i])
  {
    if table == [] then [] else [Padded(table[0])] + PaddedTable(table[1..])
  }

  lemma PaddedText(row: seq<Cell>)
    ensures RowText(Padded(row)) == RowText(row)
  {
    if row == [] {
      EmptyText([Text("")]);
    }
  }

  lemma {:induction false} PaddedLines(table: seq<seq<Cell>>)
    ensures Lines(PaddedTable(table)) == Lines(table)
  {
    if table != [] {
      PaddedText(table[0]);
      PaddedLines(table[1..]);
      assert PaddedTable(table)[1..] == PaddedTable(table[1..]);
    }
  }

  /** Whatever is exported can be read, and what is read is the headers and every row in order,
      cell by cell, except that a row without cells comes back as one empty cell. A number comes
      back as its own numeral, a text as itself or behind an apostrophe. */
  lemma EveryExportReads(headers: seq<string>, rows: seq<seq<Cell>>)
    ensures Read(ToCsv(headers, rows), false).Some?
    ensures var records := Read(ToCsv(headers, rows), false).value;
            && |records| == 1 + |rows|
            && (if headers == [] then records[0] == [""] else HeadersReadAs(records[0], headers))
            && forall i :: 0 <= i < |rows| ==>
                 if rows[i] == [] then records[i + 1] == [""] else RowReadsAs(records[i + 1], rows[i])
  {
    ExportReads(headers, rows);
    var table, padded := Table(headers, rows), PaddedTable(Table(headers, rows));
    var records := ReadTable(padded);
    assert ReadRow([Text("")]) == [""];
    RowReads(records[0], table[0]);
    assert headers != [] ==> (HeadersReadAs(records[0], headers) <==> RowReadsAs(records[0], table[0]));
    forall i | 0 <= i < |rows|
      ensures if rows[i] == [] then records[i + 1] == [""] else RowReadsAs(records[i + 1], rows[i])
    {
      assert table[i + 1] == rows[i] && padded[i + 1] == Padded(rows[i]);
      RowReads(records[i + 1], rows[i]);
    }
  }

  lemma ExportReads(headers: seq<string>, rows: seq<seq<Cell>>)
    ensures Read(ToCsv(headers, rows), false) == Some(ReadTable(PaddedTable(Table(headers, rows))))
  {
    var table := PaddedTable(Table(headers, rows));
    PaddedLines(Table(headers, rows));
    assert forall i :: 0 <= i < |table| ==> table[i] != [];
    ReadAll(table, false);
  }

  // The cell at column j of the headers, or of a row.
  ghost predicate IsCell(headers: seq<string>, rows: seq<seq<Cell>>, i: nat, j: nat, cell: Cell) {
    if i == 0 then j < |headers| && cell == Text(headers[j])
    else i <= |rows| && j < |rows[i - 1]| && cell == rows[i - 1][j]
  }

  /** Reading an export back, no string cell is a formula, and it is the text that went in
      exactly when that was no formula; a number cell is always its own numeral. */
  lemma NoFormulaReadsBack(headers: seq<string>, rows: seq<seq<Cell>>, i: nat, j: nat, cell: Cell)
    requires IsCell(headers, rows, i, j, cell)
    ensures var read := Read(ToCsv(headers, rows), false);
            && read.Some? && i < |read.value| && j < |read.value[i]|
            && match cell
               case Number(n) => read.value[i][j] == n
               case Text(text) =>
                 !LeadsFormula(read.value[i][j]) && (read.value[i][j] == text <==> !LeadsFormula(text))
  {
    EveryExportReads(headers, rows);
    var records := Read(ToCsv(headers, rows), false).value;
    if i > 0 {
      assert RowReadsAs(records[i - 1 + 1], rows[i - 1]);
    }
    assert ReadsAs(records[i][j], cell);
    if cell.Text? {
      GuardWorks(cell.text);
    }
  }

  lemma GuardWorks(s: string)
    ensures !LeadsFormula(Guard(s))
    ensures Guard(s) == s <==> !LeadsFormula(s)
  {
    assert |"'" + s| == |s| + 1;
  }

  // What a reader who knows of the guard would take off again.
  function Unguard(s: string): string {
    if |s| > 1 && s[0] == '\'' && FormulaChar(s[1]) then s[1..] else s
  }

  // The text already looks guarded.
  predicate LooksGuarded(s: string) {
    |s| > 1 && s[0] == '\'' && FormulaChar(s[1])
  }

  /** Taking the guard off recovers the text exactly when it did not look guarded before. */
  lemma UnguardRecovers(s: string)
    ensures Unguard(Guard(s)) == s <==> !LooksGuarded(s)
  {
    if LeadsFormula(s) {
      assert ("'" + s)[1..] == s;
    } else if LooksGuarded(s) {
      assert |s[1..]| < |s|;
    }
  }

  /** Two different texts share one exported form exactly when one is the other's guarded
      form: the export confuses =A1 with '=A1 and nothing else. */
  lemma GuardCollisions(s: string, t: string)
    ensures Guard(s) == Guard(t) <==> s == t || (LeadsFormula(s) && t == "'" + s) || (LeadsFormula(t) && s == "'" + t)
  {
    if LeadsFormula(s) && LeadsFormula(t) && Guard(s) == Guard(t) {
      assert ("'" + s)[1..] == s && ("'" + t)[1..] == t;
    }
  }
}

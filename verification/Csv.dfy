// The CSV reader and printer of crates/blackbag-cli/src/import.rs, after
// section 2 of RFC 4180.
module Csv {
  import opened Wrappers

  type Cells = seq<string>

  const BOM: char := '\U{FEFF}'

  datatype CsvError = EndsInsideQuotes

  // ----- reading -----

  datatype Reader = Reader(rows: seq<Cells>, row: Cells, field: string, inQuotes: bool, started: bool) {
    function Push(c: char): Reader {
      this.(field := field + [c])
    }

    function EndField(): Reader {
      this.(row := row + [field], field := "", started := false)
    }

    function EndRow(): Reader {
      this.(rows := rows + [row + [field]], row := [], field := "", started := false)
    }
  }

  const FRESH: Reader := Reader([], [], "", false, false)

  // How many characters one step reads, and the state after it.
  function Next(s: string, st: Reader): (r: (nat, Reader))
    requires s != ""
    ensures 1 <= r.0 <= |s|
  {
    var c := s[0];
    if st.inQuotes then
      if c == '"' then
        if |s| > 1 && s[1] == '"' then (2, st.Push('"')) else (1, st.(inQuotes := false))
      else (1, st.Push(c))
    else if c == '"' && (!st.started || st.field == "") then (1, st.(inQuotes := true, started := true))
    else if c == ',' then (1, st.EndField())
    else if c == '\r' then (if |s| > 1 && s[1] == '\n' then 2 else 1, st.EndRow())
    else if c == '\n' then (1, st.EndRow())
    else (1, st.Push(c).(started := true))
  }

  function Scan(s: string, st: Reader): Reader
    decreases |s|
  {
    if s == "" then st else var (n, next) := Next(s, st); Scan(s[n..], next)
  }

  predicate AllEmpty(row: Cells) {
    forall i :: 0 <= i < |row| ==> row[i] == ""
  }

  function DropTrailing(rows: seq<Cells>): seq<Cells> {
    if rows != [] && AllEmpty(rows[|rows| - 1]) then DropTrailing(rows[..|rows| - 1]) else rows
  }

  function Finish(st: Reader): Result<seq<Cells>, CsvError> {
    if st.inQuotes then Err(EndsInsideQuotes)
    else Ok(DropTrailing(if st.started || st.row != [] then st.rows + [st.row + [st.field]] else st.rows))
  }

  predicate StartsWithBom(text: string) {
    text != "" && text[0] == BOM
  }

  function StripBom(text: string): string {
    if StartsWithBom(text) then text[1..] else text
  }

  function Parsed(text: string): Result<seq<Cells>, CsvError> {
    Finish(Scan(StripBom(text), FRESH))
  }

  method ParseCsv(input: string) returns (r: Result<seq<Cells>, CsvError>)
    ensures r == Parsed(input)
  {
    hide Scan;
    hide DropTrailing;
    var text := StripBom(input);
    var rows: seq<Cells>, row: Cells, field := [], [], "";
    var inQuotes, started := false, false;
    var i := 0;
    WholeText(text);
    while i < |text|
      invariant 0 <= i <= |text|
      invariant Scan(text, FRESH) == Scan(text[i..], Reader(rows, row, field, inQuotes, started))
    {
      ScanUnfolds(text, i, Reader(rows, row, field, inQuotes, started));
      var c := text[i];
      var peek := i + 1 < |text|;
      i := i + 1;
      if inQuotes {
        if c == '"' {
          if peek && text[i] == '"' {
            i := i + 1;
            field := field + ['"'];
          } else {
            inQuotes := false;
          }
        } else {
          field := field + [c];
        }
        continue;
      }
      if c == '"' && (!started || field == "") {
        inQuotes, started := true, true;
      } else if c == ',' {
        row := row + [field];
        field, started := "", false;
      } else if c == '\r' {
        if peek && text[i] == '\n' {
          i := i + 1;
        }
        rows := rows + [row + [field]];
        row, field, started := [], "", false;
      } else if c == '\n' {
        rows := rows + [row + [field]];
        row, field, started := [], "", false;
      } else {
        field := field + [c];
        started := true;
      }
    }
    NothingLeft(text, Reader(rows, row, field, inQuotes, started));
    if inQuotes {
      return Err(EndsInsideQuotes);
    }
    if started || row != [] {
      rows := rows + [row + [field]];
    }
    ghost var all := rows;
    while rows != [] && AllEmpty(rows[|rows| - 1])
      invariant DropTrailing(all) == DropTrailing(rows)
    {
      DropOne(rows);
      rows := rows[..|rows| - 1];
    }
    DropNone(rows);
    r := Ok(rows);
  }

  lemma WholeText(text: string)
    ensures text[0..] == text
  {
  }

  lemma ScanUnfolds(text: string, i: nat, st: Reader)
    requires i < |text|
    ensures var (n, next) := Next(text[i..], st);
            i + n <= |text| && Scan(text[i..], st) == Scan(text[i + n..], next)
  {
    var n := Next(text[i..], st).0;
    assert text[i..][n..] == text[i + n..];
  }

  lemma NothingLeft(text: string, st: Reader)
    ensures Scan(text[|text|..], st) == st
  {
  }

  lemma DropOne(rows: seq<Cells>)
    requires rows != [] && AllEmpty(rows[|rows| - 1])
    ensures DropTrailing(rows) == DropTrailing(rows[..|rows| - 1])
  {
  }

  lemma DropNone(rows: seq<Cells>)
    requires rows == [] || !AllEmpty(rows[|rows| - 1])
    ensures DropTrailing(rows) == rows
  {
  }

  // ----- printing -----

  predicate NeedsQuotes(s: string) {
    exists i :: 0 <= i < |s| && (s[i] == ',' || s[i] == '"' || s[i] == '\n' || s[i] == '\r')
  }

  // s.replace('"', "\"\"").
  function Doubled(s: string): string {
    if s == "" then "" else (if s[0] == '"' then "\"\"" else [s[0]]) + Doubled(s[1..])
  }

  function CsvQuote(s: string): string {
    if NeedsQuotes(s) then "\"" + Doubled(s) + "\"" else s
  }

  function QuoteAll(row: Cells): (texts: seq<string>)
    ensures |texts| == |row| && forall i :: 0 <= i < |row| ==> texts[i] == CsvQuote(row[i])
  {
    if row == [] then [] else [CsvQuote(row[0])] + QuoteAll(row[1..])
  }

  // texts.join(",").
  function Commas(texts: seq<string>): string {
    if texts == [] then ""
    else if |texts| == 1 then texts[0]
    else texts[0] + "," + Commas(texts[1..])
  }

  function PrintRow(row: Cells): string {
    Commas(QuoteAll(row))
  }

  ghost predicate Rows(rows: seq<Cells>) {
    forall i :: 0 <= i < |rows| ==> rows[i] != []
  }

  function PrintRows(rows: seq<Cells>, eol: string): string {
    if rows == [] then "" else PrintRow(rows[0]) + eol + PrintRows(rows[1..], eol)
  }

  predicate IsEol(eol: string) {
    eol == "\n" || eol == "\r\n" || eol == "\r"
  }

  // ----- the reader undoes the printer -----

  predicate Between(st: Reader) {
    !st.inQuotes && !st.started && st.field == ""
  }

  // What may follow a cell.
  predicate EndsCell(rest: string) {
    rest == "" || rest[0] == ',' || rest[0] == '\r' || rest[0] == '\n'
  }

  lemma ScanOne(s: string, st: Reader)
    requires s != ""
    ensures Scan(s, st) == Scan(s[Next(s, st).0..], Next(s, st).1)
  {
  }

  lemma {:induction false} ScanPlain(s: string, rest: string, st: Reader)
    requires !NeedsQuotes(s) && !st.inQuotes
    ensures Scan(s + rest, st) == Scan(rest, st.(field := st.field + s, started := st.started || s != ""))
    decreases |s|
  {
    hide Scan;
    if s == "" {
      assert s + rest == rest && st.field + s == st.field;
    } else {
      ScanOne(s + rest, st);
      assert (s + rest)[1..] == s[1..] + rest;
      assert forall i :: 0 <= i < |s[1..]| ==> s[1..][i] == s[i + 1];
      ScanPlain(s[1..], rest, st.Push(s[0]).(started := true));
      assert st.field + [s[0]] + s[1..] == st.field + s;
    }
  }

  lemma ScanQuotedChar(c: char, rest: string, st: Reader)
    requires st.inQuotes
    ensures Scan((if c == '"' then "\"\"" else [c]) + rest, st) == Scan(rest, st.Push(c))
  {
    hide Scan;
    var head := if c == '"' then "\"\"" else [c];
    ScanOne(head + rest, st);
    assert (head + rest)[|head|..] == rest;
  }

  lemma DoubledUnfolds(s: string, rest: string)
    requires s != ""
    ensures Doubled(s) + rest == (if s[0] == '"' then "\"\"" else [s[0]]) + (Doubled(s[1..]) + rest)
  {
  }

  lemma DoubledNothing(rest: string)
    ensures Doubled("") + rest == rest
  {
  }

  lemma {:induction false} ScanDoubled(s: string, rest: string, st: Reader)
    requires st.inQuotes
    ensures Scan(Doubled(s) + rest, st) == Scan(rest, st.(field := st.field + s))
    decreases |s|
  {
    hide Scan;
    hide Doubled;
    if s == "" {
      DoubledNothing(rest);
      assert st.field + s == st.field;
    } else {
      DoubledUnfolds(s, rest);
      ScanQuotedChar(s[0], Doubled(s[1..]) + rest, st);
      ScanDoubled(s[1..], rest, st.Push(s[0]));
      assert st.field + [s[0]] + s[1..] == st.field + s;
    }
  }

  // A cell as the printer writes it, or in quotes it did not need.
  predicate Shows(text: string, s: string) {
    text == "\"" + Doubled(s) + "\"" || (text == s && !NeedsQuotes(s))
  }

  lemma ScanQuoted(s: string, rest: string, st: Reader)
    requires Between(st) && EndsCell(rest)
    ensures Scan("\"" + Doubled(s) + "\"" + rest, st) == Scan(rest, st.(field := s, started := true))
  {
    hide Scan;
    hide Doubled;
    var text := "\"" + Doubled(s) + "\"" + rest;
    ScanOne(text, st);
    var open := st.(inQuotes := true, started := true);
    assert text[1..] == Doubled(s) + ("\"" + rest);
    ScanDoubled(s, "\"" + rest, open);
    var full := open.(field := s);
    assert "" + s == s;
    ScanOne("\"" + rest, full);
    assert ("\"" + rest)[1..] == rest;
  }

  lemma ScanCell(text: string, s: string, rest: string, st: Reader)
    requires Between(st) && EndsCell(rest) && Shows(text, s)
    ensures Scan(text + rest, st) == Scan(rest, st.(field := s, started := text != ""))
  {
    hide Scan;
    hide Doubled;
    if text == "\"" + Doubled(s) + "\"" {
      ScanQuoted(s, rest, st);
    } else {
      ScanPlain(s, rest, st);
      assert "" + s == s;
    }
  }

  ghost predicate ShowsAll(texts: seq<string>, row: Cells) {
    |texts| == |row| && forall i :: 0 <= i < |row| ==> Shows(texts[i], row[i])
  }

  lemma {:induction false} ScanRow(texts: seq<string>, row: Cells, eol: string, rest: string, st: Reader)
    requires row != [] && ShowsAll(texts, row) && IsEol(eol) && Between(st)
    requires eol == "\r" ==> rest == "" || rest[0] != '\n'
    ensures Scan(Commas(texts) + eol + rest, st) == Scan(rest, st.(rows := st.rows + [st.row + row], row := []))
    decreases |row|
  {
    hide Scan;
    hide Shows;
    hide Next;
    hide EndsCell;
    var read := st.(field := row[0], started := texts[0] != "");
    if |row| == 1 {
      assert Commas(texts) + eol + rest == texts[0] + (eol + rest);
      ScanEol(eol, rest, read);
      ScanCell(texts[0], row[0], eol + rest, st);
      assert row == [row[0]];
    } else {
      var more := Commas(texts[1..]) + eol + rest;
      assert Commas(texts) + eol + rest == texts[0] + ("," + more);
      ScanComma(more, read);
      ScanCell(texts[0], row[0], "," + more, st);
      ScanRow(texts[1..], row[1..], eol, rest, st.(row := st.row + [row[0]]));
      assert st.row + [row[0]] + row[1..] == st.row + row;
    }
  }

  lemma ScanEol(eol: string, rest: string, st: Reader)
    requires IsEol(eol) && !st.inQuotes && (eol == "\r" ==> rest == "" || rest[0] != '\n')
    ensures EndsCell(eol + rest) && Scan(eol + rest, st) == Scan(rest, st.EndRow())
  {
    hide Scan;
    ScanOne(eol + rest, st);
    assert (eol + rest)[|eol|..] == rest;
  }

  lemma ScanComma(rest: string, st: Reader)
    requires !st.inQuotes
    ensures EndsCell("," + rest) && Scan("," + rest, st) == Scan(rest, st.EndField())
  {
    hide Scan;
    ScanOne("," + rest, st);
    assert ("," + rest)[1..] == rest;
  }

  lemma QuotedRowShows(row: Cells)
    ensures ShowsAll(QuoteAll(row), row)
  {
  }

  lemma RowsStart(rows: seq<Cells>, eol: string)
    requires Rows(rows) && IsEol(eol) && eol != "\n"
    ensures var text := PrintRows(rows, eol); text == "" || text[0] != '\n'
  {
    hide PrintRow;
    if rows != [] {
      RowStart(rows[0]);
      assert PrintRows(rows, eol) == PrintRow(rows[0]) + (eol + PrintRows(rows[1..], eol));
    }
  }

  lemma PrintRowUnfolds(row: Cells)
    requires row != []
    ensures PrintRow(row) == CsvQuote(row[0]) + (if |row| == 1 then "" else "," + PrintRow(row[1..]))
  {
    hide CsvQuote;
    if |row| > 1 {
      assert QuoteAll(row)[1..] == QuoteAll(row[1..]);
    }
  }

  lemma RowStart(row: Cells)
    requires row != []
    ensures PrintRow(row) == "" || PrintRow(row)[0] != '\n'
  {
    var q := CsvQuote(row[0]);
    assert q == "" || q[0] != '\n';
    PrintRowUnfolds(row);
  }

  lemma PrintRowIs(row: Cells)
    ensures PrintRow(row) == Commas(QuoteAll(row))
  {
  }

  // Whole rows are read whatever follows them.
  lemma {:induction false} ScanRows(rows: seq<Cells>, eol: string, rest: string, st: Reader)
    requires Rows(rows) && IsEol(eol) && Between(st) && st.row == []
    requires eol == "\r" ==> rest == "" || rest[0] != '\n'
    ensures Scan(PrintRows(rows, eol) + rest, st) == Scan(rest, st.(rows := st.rows + rows))
    decreases |rows|
  {
    hide Scan;
    hide PrintRow;
    if rows == [] {
      assert st.rows + rows == st.rows && PrintRows(rows, eol) + rest == rest;
    } else {
      var more := PrintRows(rows[1..], eol) + rest;
      if eol == "\r" {
        RowsStart(rows[1..], eol);
      }
      assert PrintRows(rows, eol) + rest == PrintRow(rows[0]) + eol + more;
      QuotedRowShows(rows[0]);
      ScanRow(QuoteAll(rows[0]), rows[0], eol, more, st);
      PrintRowIs(rows[0]);
      assert [] + rows[0] == rows[0];
      ScanRows(rows[1..], eol, rest, st.(rows := st.rows + [rows[0]]));
      assert st.rows + [rows[0]] + rows[1..] == st.rows + rows;
    }
  }

  // Whatever is printed comes back when the text reaches the scanner whole.
  lemma ScanUndoesPrint(rows: seq<Cells>, eol: string)
    requires Rows(rows) && IsEol(eol)
    ensures Finish(Scan(PrintRows(rows, eol), FRESH)) == Ok(DropTrailing(rows))
  {
    hide DropTrailing;
    ScanRows(rows, eol, "", FRESH);
    assert PrintRows(rows, eol) + "" == PrintRows(rows, eol);
    assert [] + rows == rows;
  }

  // The cells of a row that nothing ends.
  lemma {:induction false} ScanOpenRow(texts: seq<string>, row: Cells, st: Reader)
    requires row != [] && ShowsAll(texts, row) && Between(st)
    ensures var n := |row| - 1;
            Scan(Commas(texts), st) == st.(row := st.row + row[..n], field := row[n], started := texts[n] != "")
    decreases |row|
  {
    hide Scan;
    hide Shows;
    hide Next;
    if |row| == 1 {
      ScanCell(texts[0], row[0], "", st);
      assert texts[0] + "" == Commas(texts);
      NothingLeft("", st.(field := row[0], started := texts[0] != ""));
      assert st.row + row[..0] == st.row;
    } else {
      var more := Commas(texts[1..]);
      assert Commas(texts) == texts[0] + ("," + more);
      ScanComma(more, st.(field := row[0], started := texts[0] != ""));
      ScanCell(texts[0], row[0], "," + more, st);
      ScanOpenRow(texts[1..], row[1..], st.(row := st.row + [row[0]]));
      assert st.row + [row[0]] + row[1..][..|row| - 2] == st.row + row[..|row| - 1];
    }
  }

  lemma ScanUndoesOpenPrint(rows: seq<Cells>, last: Cells, eol: string)
    requires Rows(rows) && last != [] && IsEol(eol)
    ensures Finish(Scan(PrintRows(rows, eol) + PrintRow(last), FRESH)) == Ok(DropTrailing(rows + [last]))
  {
    hide DropTrailing;
    hide Scan;
    hide PrintRows;
    RowStart(last);
    hide PrintRow;
    hide ShowsAll;
    hide Finish;
    ScanRows(rows, eol, PrintRow(last), FRESH);
    assert [] + rows == rows;
    QuotedRowShows(last);
    PrintRowIs(last);
    ScanOpenRow(QuoteAll(last), last, FRESH.(rows := rows));
    FinishOpenRow(rows, last, QuoteAll(last)[|last| - 1] != "");
  }

  lemma FinishOpenRow(rows: seq<Cells>, last: Cells, started: bool)
    requires last != [] && (last[|last| - 1] != "" ==> started)
    ensures var n := |last| - 1;
            Finish(Reader(rows, [] + last[..n], last[n], false, started)) == Ok(DropTrailing(rows + [last]))
  {
    hide DropTrailing;
    var n := |last| - 1;
    assert last[..n] + [last[n]] == last && [] + last[..n] == last[..n];
    if n == 0 && !started {
      EmptyRowGoes(rows, last);
    }
  }

  lemma EmptyRowGoes(rows: seq<Cells>, last: Cells)
    requires AllEmpty(last)
    ensures DropTrailing(rows + [last]) == DropTrailing(rows)
  {
    assert (rows + [last])[..|rows|] == rows;
  }

  // The last row needs no line end. Parsing such a text undoes printing it
  // under the same exact condition.
  lemma LastRowNeedsNoEnd(rows: seq<Cells>, last: Cells, eol: string)
    requires Rows(rows) && last != [] && IsEol(eol)
    ensures var text := PrintRows(rows, eol) + PrintRow(last);
            Parsed(text) == Ok(DropTrailing(rows + [last])) <==> !StartsWithBom(text)
  {
    hide DropTrailing;
    hide Scan;
    ScanUndoesOpenPrint(rows, last, eol);
    if StartsWithBom(PrintRows(rows, eol) + PrintRow(last)) {
      OpenBomIsEaten(rows, last, eol);
    }
  }

  lemma OpenBomIsEaten(rows: seq<Cells>, last: Cells, eol: string)
    requires Rows(rows) && last != [] && IsEol(eol) && StartsWithBom(PrintRows(rows, eol) + PrintRow(last))
    ensures Parsed(PrintRows(rows, eol) + PrintRow(last)) != Ok(DropTrailing(rows + [last]))
  {
    hide DropTrailing;
    hide Scan;
    hide PrintRow;
    if rows == [] {
      var text := PrintRows(rows, eol) + PrintRow(last);
      assert text == PrintRow(last) && PrintRow(last) + "" == PrintRow(last);
      FirstCellStarts(last, "");
      var bare := last[0 := last[0][1..]];
      BareRowPrints(last, bare);
      assert PrintRows([], eol) + PrintRow(bare) == PrintRow(bare) == text[1..];
      ScanUndoesOpenPrint([], bare, eol);
      FirstRowStays([] + [last]);
      FirstRowStaysOrGoes([] + [bare]);
    } else {
      RowsArePrinted(rows, eol);
      var stripped := BarePrints(rows, eol);
      ScanUndoesOpenPrint(stripped, last, eol);
      assert (PrintRows(rows, eol) + PrintRow(last))[1..] == PrintRows(stripped, eol) + PrintRow(last);
      FirstRowStays(rows + [last]);
      FirstRowStaysOrGoes(stripped + [last]);
    }
  }

  lemma RowsArePrinted(rows: seq<Cells>, eol: string)
    requires rows != [] && IsEol(eol)
    ensures PrintRows(rows, eol) != ""
  {
  }

  // Cells before the last one of a row.
  function Leading(before: Cells): string {
    if before == [] then "" else PrintRow(before) + ","
  }

  // A quote that opens the last cell and is never closed is an error, whatever
  // stands before it.
  lemma OpenQuoteIsRefused(rows: seq<Cells>, before: Cells, s: string, eol: string)
    requires Rows(rows) && IsEol(eol)
    requires !StartsWithBom(PrintRows(rows, eol) + Leading(before) + "\"" + Doubled(s))
    ensures Parsed(PrintRows(rows, eol) + Leading(before) + "\"" + Doubled(s)) == Err(EndsInsideQuotes)
  {
    hide Scan;
    hide PrintRows;
    hide PrintRow;
    hide Doubled;
    var tail := Leading(before) + "\"" + Doubled(s);
    assert PrintRows(rows, eol) + Leading(before) + "\"" + Doubled(s) == PrintRows(rows, eol) + tail;
    if before != [] {
      RowStart(before);
    }
    ScanRows(rows, eol, tail, FRESH);
    assert [] + rows == rows;
    var st := FRESH.(rows := rows);
    assert tail == Leading(before) + ("\"" + Doubled(s));
    LeadingIsRead(before, "\"" + Doubled(s), st);
    ScanOpenQuote(s, st.(row := st.row + before));
  }

  lemma {:induction false} LeadingIsRead(before: Cells, rest: string, st: Reader)
    requires Between(st)
    ensures Scan(Leading(before) + rest, st) == Scan(rest, st.(row := st.row + before))
    decreases |before|
  {
    hide Scan;
    hide Next;
    hide CsvQuote;
    hide Leading;
    hide EndsCell;
    hide Shows;
    LeadingUnfolds(before);
    if before == [] {
      assert Leading(before) + rest == rest && st.row + before == st.row;
    } else {
      var more := Leading(before[1..]) + rest;
      assert Leading(before) + rest == CsvQuote(before[0]) + ("," + more);
      ScanComma(more, st.(field := before[0], started := CsvQuote(before[0]) != ""));
      QuotedCellShows(before[0]);
      ScanCell(CsvQuote(before[0]), before[0], "," + more, st);
      LeadingIsRead(before[1..], rest, st.(row := st.row + [before[0]]));
      assert st.row + [before[0]] + before[1..] == st.row + before;
    }
  }

  lemma LeadingUnfolds(before: Cells)
    ensures Leading(before) == if before == [] then "" else CsvQuote(before[0]) + "," + Leading(before[1..])
  {
    hide CsvQuote;
    hide PrintRow;
    if before != [] {
      PrintRowUnfolds(before);
    }
  }

  lemma QuotedCellShows(s: string)
    ensures Shows(CsvQuote(s), s)
  {
  }

  lemma ScanOpenQuote(s: string, st: Reader)
    requires Between(st)
    ensures Scan("\"" + Doubled(s), st).inQuotes
  {
    hide Scan;
    hide Doubled;
    var text := "\"" + Doubled(s);
    ScanOne(text, st);
    var open := st.(inQuotes := true, started := true);
    assert text[1..] == Doubled(s) + "";
    ScanDoubled(s, "", open);
    NothingLeft("", open.(field := open.field + s));
  }

  // The printer and the reader are inverse, up to trailing all-empty rows,
  // exactly when the printed text does not start with a byte-order mark.
  lemma ParseUndoesPrint(rows: seq<Cells>, eol: string)
    requires Rows(rows) && IsEol(eol)
    ensures Parsed(PrintRows(rows, eol)) == Ok(DropTrailing(rows)) <==> !StartsWithBom(PrintRows(rows, eol))
  {
    ScanUndoesPrint(rows, eol);
    if StartsWithBom(PrintRows(rows, eol)) {
      BomIsEaten(rows, eol);
    }
  }

  // The mark is taken off the first cell.
  lemma BomIsEaten(rows: seq<Cells>, eol: string)
    requires Rows(rows) && IsEol(eol) && StartsWithBom(PrintRows(rows, eol))
    ensures Parsed(PrintRows(rows, eol)) != Ok(DropTrailing(rows))
  {
    hide DropTrailing;
    hide Scan;
    hide PrintRows;
    var stripped := BarePrints(rows, eol);
    ScanUndoesPrint(stripped, eol);
    FirstRowStays(rows);
    FirstRowStaysOrGoes(stripped);
  }

  lemma BarePrints(rows: seq<Cells>, eol: string) returns (stripped: seq<Cells>)
    requires Rows(rows) && IsEol(eol) && StartsWithBom(PrintRows(rows, eol))
    ensures rows != [] && !AllEmpty(rows[0]) && stripped != [] && stripped[0] != rows[0]
    ensures Rows(stripped) && PrintRows(rows, eol)[1..] == PrintRows(stripped, eol)
  {
    hide PrintRow;
    hide NeedsQuotes;
    var row, rest := rows[0], eol + PrintRows(rows[1..], eol);
    assert PrintRows(rows, eol) == PrintRow(row) + rest;
    FirstCellStarts(row, rest);
    var bare := row[0 := row[0][1..]];
    stripped := rows[0 := bare];
    assert stripped[1..] == rows[1..];
    BareRowPrints(row, bare);
    assert PrintRows(stripped, eol) == PrintRow(bare) + rest;
  }

  lemma BareRowPrints(row: Cells, bare: Cells)
    requires row != [] && row[0] != "" && !NeedsQuotes(row[0]) && bare == row[0 := row[0][1..]]
    ensures PrintRow(row) != "" && PrintRow(row)[1..] == PrintRow(bare)
  {
    hide NeedsQuotes;
    hide PrintRow;
    UnquotedTail(row[0]);
    assert bare[1..] == row[1..];
    PrintRowUnfolds(row);
    PrintRowUnfolds(bare);
  }

  lemma FirstCellStarts(row: Cells, rest: string)
    requires row != [] && StartsWithBom(PrintRow(row) + rest) && (rest == "" || rest[0] != BOM)
    ensures row[0] != "" && row[0][0] == BOM && !NeedsQuotes(row[0])
  {
    PrintRowUnfolds(row);
  }

  lemma UnquotedTail(s: string)
    requires s != "" && !NeedsQuotes(s)
    ensures !NeedsQuotes(s[1..])
  {
    assert forall i :: 0 <= i < |s[1..]| ==> s[1..][i] == s[i + 1];
  }

  lemma {:induction false} FirstRowStays(rows: seq<Cells>)
    requires rows != [] && !AllEmpty(rows[0])
    ensures DropTrailing(rows) != [] && DropTrailing(rows)[0] == rows[0]
  {
    if |rows| > 1 {
      FirstRowStays(rows[..|rows| - 1]);
    }
  }

  lemma {:induction false} FirstRowStaysOrGoes(rows: seq<Cells>)
    requires rows != []
    ensures DropTrailing(rows) == [] || DropTrailing(rows)[0] == rows[0]
  {
    if |rows| > 1 {
      FirstRowStaysOrGoes(rows[..|rows| - 1]);
    }
  }
}

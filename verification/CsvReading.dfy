// What the CSV reader makes of texts other programs write: cells quoted or
// not, quotes inside bare cells, text after a closing quote, and any mixture
// of line ends.
module CsvReading {
  import opened Wrappers
  import opened Csv

  // A cell as it is written; a closing quote may have text after it.
  datatype Cell = Bare(text: string) | Quoted(inside: string, after: string) {
    function Written(): string {
      match this
      case Bare(t) => t
      case Quoted(q, t) => "\"" + Doubled(q) + "\"" + t
    }

    function Value(): string {
      match this case Bare(t) => t case Quoted(q, t) => q + t
    }

    predicate Legal() {
      match this case Bare(t) => Loose(t) case Quoted(_, t) => Loose(t)
    }
  }

  // Without separators, and not opening a quote; a later one is only a quote.
  predicate Loose(t: string) {
    && (forall i :: 0 <= i < |t| ==> t[i] != ',' && t[i] != '\n' && t[i] != '\r')
    && (t != "" ==> t[0] != '"')
  }

  type Line = seq<Cell>

  function TextsOf(line: Line): (texts: seq<string>)
    ensures |texts| == |line|
  {
    if line == [] then [] else [line[0].Written()] + TextsOf(line[1..])
  }

  function ValuesOf(line: Line): (row: Cells)
    ensures |row| == |line|
  {
    if line == [] then [] else [line[0].Value()] + ValuesOf(line[1..])
  }

  predicate LegalLine(line: Line) {
    line != [] && forall i :: 0 <= i < |line| ==> line[i].Legal()
  }

  // ----- one cell -----

  lemma {:induction false} ScanLoose(t: string, rest: string, st: Reader)
    requires !st.inQuotes && forall i :: 0 <= i < |t| ==> t[i] != ',' && t[i] != '\n' && t[i] != '\r'
    requires (st.started && st.field != "") || t == "" || t[0] != '"'
    ensures Scan(t + rest, st) == Scan(rest, st.(field := st.field + t, started := st.started || t != ""))
    decreases |t|
  {
    hide Scan;
    if t == "" {
      assert t + rest == rest && st.field + t == st.field;
    } else {
      ScanOne(t + rest, st);
      assert (t + rest)[1..] == t[1..] + rest;
      assert forall i :: 0 <= i < |t[1..]| ==> t[1..][i] == t[i + 1];
      ScanLoose(t[1..], rest, st.Push(t[0]).(started := true));
      assert st.field + [t[0]] + t[1..] == st.field + t;
    }
  }

  lemma ScanWritten(c: Cell, rest: string, st: Reader)
    requires Between(st) && EndsCell(rest) && c.Legal()
    ensures Scan(c.Written() + rest, st) == Scan(rest, st.(field := c.Value(), started := c.Written() != ""))
  {
    hide Scan;
    hide Doubled;
    match c
    case Bare(t) =>
      ScanLoose(t, rest, st);
      assert "" + t == t;
    case Quoted(q, t) =>
      ScanOpened(q, t + rest, st);
      assert c.Written() + rest == "\"" + Doubled(q) + "\"" + (t + rest);
      ScanLoose(t, rest, st.(field := q, started := true));
  }

  lemma ScanOpened(q: string, rest: string, st: Reader)
    requires Between(st) && (rest != "" ==> rest[0] != '"')
    ensures Scan("\"" + Doubled(q) + "\"" + rest, st) == Scan(rest, st.(field := q, started := true))
  {
    hide Scan;
    hide Doubled;
    var text := "\"" + Doubled(q) + "\"" + rest;
    ScanOne(text, st);
    var open := st.(inQuotes := true, started := true);
    assert text[1..] == Doubled(q) + ("\"" + rest);
    ScanDoubled(q, "\"" + rest, open);
    assert "" + q == q;
    ScanOne("\"" + rest, open.(field := q));
    assert ("\"" + rest)[1..] == rest;
  }

  // ----- one line -----

  lemma CommasUnfold(text: string, texts: seq<string>)
    ensures Commas([text] + texts) == text + (if texts == [] then "" else "," + Commas(texts))
  {
    assert ([text] + texts)[1..] == texts;
  }

  lemma LineUnfolds(line: Line)
    requires line != []
    ensures Commas(TextsOf(line)) == line[0].Written() + (if |line| == 1 then "" else "," + Commas(TextsOf(line[1..])))
    ensures ValuesOf(line) == [line[0].Value()] + ValuesOf(line[1..])
  {
    hide Commas;
    CommasUnfold(line[0].Written(), TextsOf(line[1..]));
  }

  lemma {:induction false} ValueAt(line: Line, n: nat)
    requires n < |line|
    ensures ValuesOf(line)[n] == line[n].Value()
  {
    if n > 0 {
      ValueAt(line[1..], n - 1);
    }
  }

  // The reader with a line's last cell still being read.
  function Reading(line: Line, st: Reader): Reader
    requires line != []
  {
    var n := |line| - 1;
    st.(row := st.row + ValuesOf(line)[..n], field := line[n].Value(), started := line[n].Written() != "")
  }

  lemma ReadingOne(line: Line, st: Reader)
    requires |line| == 1
    ensures Reading(line, st) == st.(field := line[0].Value(), started := line[0].Written() != "")
  {
    assert st.row + ValuesOf(line)[..0] == st.row;
  }

  lemma ReadingMore(line: Line, st: Reader)
    requires |line| > 1
    ensures Reading(line, st) == Reading(line[1..], st.(row := st.row + [line[0].Value()]))
  {
    var values := ValuesOf(line);
    assert values == [line[0].Value()] + ValuesOf(line[1..]);
    assert st.row + [values[0]] + ValuesOf(line[1..])[..|line| - 2] == st.row + values[..|line| - 1];
  }

  lemma {:induction false} ScanLine(line: Line, rest: string, st: Reader)
    requires LegalLine(line) && Between(st) && EndsCell(rest)
    ensures Scan(Commas(TextsOf(line)) + rest, st) == Scan(rest, Reading(line, st))
    decreases |line|
  {
    hide Scan;
    hide Next;
    hide EndsCell;
    hide Commas;
    hide TextsOf;
    hide ValuesOf;
    hide Reading;
    hide Cell.Written;
    hide Cell.Value;
    hide Cell.Legal;
    LineUnfolds(line);
    var first := line[0];
    if |line| == 1 {
      assert first.Written() + "" == first.Written();
      ScanWritten(first, rest, st);
      ReadingOne(line, st);
    } else {
      var more := Commas(TextsOf(line[1..])) + rest;
      assert Commas(TextsOf(line)) + rest == first.Written() + ("," + more);
      ScanComma(more, st.(field := first.Value(), started := first.Written() != ""));
      ScanWritten(first, "," + more, st);
      ScanLine(line[1..], rest, st.(row := st.row + [first.Value()]));
      ReadingMore(line, st);
    }
  }

  lemma ReadingEnds(line: Line, st: Reader)
    requires line != [] && Between(st)
    ensures Reading(line, st).EndRow() == st.(rows := st.rows + [st.row + ValuesOf(line)], row := [])
    ensures !Reading(line, st).inQuotes
  {
    hide ValuesOf;
    var n, values := |line| - 1, ValuesOf(line);
    ValueAt(line, n);
    assert st.row + values[..n] + [values[n]] == st.row + values;
  }

  lemma SomeCell(line: Line)
    requires LegalLine(line)
    ensures line != []
  {
  }

  lemma ScanEndedLine(line: Line, eol: string, rest: string, st: Reader)
    requires LegalLine(line) && Between(st) && IsEol(eol) && (eol == "\r" ==> rest == "" || rest[0] != '\n')
    ensures Scan(Commas(TextsOf(line)) + eol + rest, st) == Scan(rest, st.(rows := st.rows + [st.row + ValuesOf(line)], row := []))
  {
    hide Scan;
    hide Next;
    hide Commas;
    hide TextsOf;
    hide ValuesOf;
    hide Reading;
    hide EndsCell;
    hide LegalLine;
    hide IsEol;
    SomeCell(line);
    ReadingEnds(line, st);
    ScanEol(eol, rest, Reading(line, st));
    ScanLine(line, eol + rest, st);
    assert Commas(TextsOf(line)) + eol + rest == Commas(TextsOf(line)) + (eol + rest);
  }

  // ----- whole texts -----

  // Lines with their ends, and at the end perhaps one without.
  datatype Text = Text(lines: seq<(Line, string)>, open: Line)

  function Written(t: Text): string
    decreases |t.lines|
  {
    if t.lines == [] then Commas(TextsOf(t.open))
    else Commas(TextsOf(t.lines[0].0)) + t.lines[0].1 + Written(t.(lines := t.lines[1..]))
  }

  function Rows(lines: seq<(Line, string)>): seq<Cells> {
    if lines == [] then [] else [ValuesOf(lines[0].0)] + Rows(lines[1..])
  }

  // Every end is LF, CRLF or CR, and no CR is followed by an LF of its own.
  predicate Legal(t: Text)
    decreases |t.lines|
  {
    if t.lines == [] then t.open == [] || LegalLine(t.open)
    else
      var eol, rest := t.lines[0].1, t.(lines := t.lines[1..]);
      && LegalLine(t.lines[0].0) && IsEol(eol)
      && (eol == "\r" ==> Written(rest) == "" || Written(rest)[0] != '\n')
      && Legal(rest)
  }

  function RowsOf(t: Text): seq<Cells> {
    Rows(t.lines) + (if t.open == [] then [] else [ValuesOf(t.open)])
  }

  lemma {:induction false} ScanText(t: Text, st: Reader)
    requires Legal(t) && Between(st) && st.row == []
    ensures Finish(Scan(Written(t), st)) == Ok(DropTrailing(st.rows + RowsOf(t)))
    decreases |t.lines|
  {
    hide Scan;
    hide Commas;
    hide DropTrailing;
    hide LegalLine;
    if t.lines == [] {
      ScanLast(t.open, st);
      assert st.rows + RowsOf(t) == st.rows + (if t.open == [] then [] else [ValuesOf(t.open)]);
    } else {
      var (line, eol) := t.lines[0];
      var rest := t.(lines := t.lines[1..]);
      ScanEndedLine(line, eol, Written(rest), st);
      assert [] + ValuesOf(line) == ValuesOf(line);
      ScanText(rest, st.(rows := st.rows + [ValuesOf(line)]));
      assert st.rows + [ValuesOf(line)] + RowsOf(rest) == st.rows + RowsOf(t);
    }
  }

  lemma ScanLast(line: Line, st: Reader)
    requires (line == [] || LegalLine(line)) && Between(st) && st.row == []
    ensures Finish(Scan(Commas(TextsOf(line)), st))
         == Ok(DropTrailing(st.rows + if line == [] then [] else [ValuesOf(line)]))
  {
    hide Scan;
    hide DropTrailing;
    hide Commas;
    if line == [] {
      NoTexts();
      NothingLeft("", st);
      assert st.rows + [] == st.rows;
    } else {
      var n := |line| - 1;
      ScanLine(line, "", st);
      assert Commas(TextsOf(line)) + "" == Commas(TextsOf(line));
      NothingLeft("", Reading(line, st));
      ValueAt(line, n);
      WrittenHasValue(line[n]);
      FinishOpenRow(st.rows, ValuesOf(line), line[n].Written() != "");
    }
  }

  lemma NoTexts()
    ensures Commas(TextsOf([])) == ""
  {
  }

  lemma WrittenHasValue(c: Cell)
    ensures c.Value() != "" ==> c.Written() != ""
  {
  }

  // However a table is written, its rows are read, less the empty ones at the
  // end; one mark at the very start is passed over.
  lemma AnyWritingReads(t: Text)
    requires Legal(t) && !StartsWithBom(Written(t))
    ensures Parsed(Written(t)) == Ok(DropTrailing(RowsOf(t)))
    ensures Parsed("\U{FEFF}" + Written(t)) == Ok(DropTrailing(RowsOf(t)))
  {
    hide Scan;
    hide DropTrailing;
    ScanText(t, FRESH);
    assert [] + RowsOf(t) == RowsOf(t);
    assert ("\U{FEFF}" + Written(t))[1..] == Written(t);
  }

  // ----- every text is such a writing, or ends inside quotes -----

  // How much of `s` comes before the next separator.
  function UpTo(s: string): (n: nat)
    ensures n <= |s| && EndsCell(s[n..])
    ensures forall i :: 0 <= i < n ==> s[i] != ',' && s[i] != '\n' && s[i] != '\r'
  {
    if s == "" || s[0] == ',' || s[0] == '\n' || s[0] == '\r' then 0
    else
      var n := UpTo(s[1..]);
      assert s[1..][n..] == s[n + 1..];
      assert forall i :: 0 < i < n + 1 ==> s[i] == s[1..][i - 1];
      n + 1
  }

  // What stands in quotes before the closing one, if there is one.
  lemma {:induction false} ReadInside(s: string) returns (closed: bool, inside: string, after: string)
    ensures closed ==> s == Doubled(inside) + "\"" + after && (after != "" ==> after[0] != '"')
    ensures !closed ==> s == Doubled(inside)
    ensures |inside| + |after| <= |s| && (closed ==> |after| < |s|)
    decreases |s|
  {
    hide Doubled;
    if s == "" {
      closed, inside, after := false, "", "";
      DoubledNothing("");
    } else if s[0] == '"' && (|s| == 1 || s[1] != '"') {
      closed, inside, after := true, "", s[1..];
      DoubledNothing("\"" + after);
    } else {
      var n := if s[0] == '"' then 2 else 1;
      var rest;
      closed, rest, after := ReadInside(s[n..]);
      inside := [s[0]] + rest;
      assert inside[1..] == rest;
      DoubledUnfolds(inside, "");
      DoubledUnfolds(inside, "\"" + after);
      assert Doubled(inside) + "" == Doubled(inside) && Doubled(rest) + "" == Doubled(rest);
      var head := if s[0] == '"' then "\"\"" else [s[0]];
      assert s == head + s[n..];
    }
  }

  ghost predicate EndsInQuotes(s: string) {
    forall st :: Between(st) ==> Scan(s, st).inQuotes
  }

  lemma OpenedNotClosed(inside: string)
    ensures EndsInQuotes("\"" + Doubled(inside))
  {
    hide Scan;
    hide Doubled;
    forall st | Between(st) ensures Scan("\"" + Doubled(inside), st).inQuotes {
      ScanOpenQuote(inside, st);
    }
  }

  lemma BareCell(s: string) returns (c: Cell, rest: string)
    requires s == "" || s[0] != '"'
    ensures s == c.Written() + rest && EndsCell(rest) && c.Legal()
  {
    var n := UpTo(s);
    c, rest := Bare(s[..n]), s[n..];
    assert s == s[..n] + s[n..];
  }

  lemma QuotedCell(s: string, inside: string, after: string) returns (c: Cell, rest: string)
    requires s == "\"" + Doubled(inside) + "\"" + after && (after != "" ==> after[0] != '"')
    ensures s == c.Written() + rest && EndsCell(rest) && c.Legal()
  {
    hide Doubled;
    var n := UpTo(after);
    c, rest := Quoted(inside, after[..n]), after[n..];
    assert after == after[..n] + after[n..];
  }

  lemma FirstCell(s: string) returns (closed: bool, c: Cell, rest: string)
    ensures closed ==> s == c.Written() + rest && EndsCell(rest) && c.Legal()
    ensures !closed ==> EndsInQuotes(s)
  {
    hide Doubled;
    hide EndsInQuotes;
    hide EndsCell;
    hide Loose;
    closed, rest := true, "";
    if s != "" && s[0] == '"' {
      var inside, after;
      closed, inside, after := ReadInside(s[1..]);
      assert s == "\"" + s[1..];
      if closed {
        c, rest := QuotedCell(s, inside, after);
      } else {
        OpenedNotClosed(inside);
        c := Bare("");
      }
    } else {
      c, rest := BareCell(s);
    }
  }

  lemma CellThenQuotes(c: Cell, sep: string, rest: string)
    requires c.Legal() && (sep == "," || (IsEol(sep) && (sep == "\r" ==> rest == "" || rest[0] != '\n')))
    requires EndsInQuotes(rest)
    ensures EndsInQuotes(c.Written() + sep + rest)
  {
    hide Scan;
    hide Next;
    hide IsEol;
    forall st | Between(st) ensures Scan(c.Written() + sep + rest, st).inQuotes {
      var read := st.(field := c.Value(), started := c.Written() != "");
      assert c.Written() + sep + rest == c.Written() + (sep + rest);
      if sep == "," {
        ScanComma(rest, read);
        ScanWritten(c, sep + rest, st);
        assert Between(read.EndField());
      } else {
        ScanEol(sep, rest, read);
        ScanWritten(c, sep + rest, st);
        assert Between(read.EndRow());
      }
    }
  }

  // One more cell in front of a line, and of a text.
  function MoreOf(c: Cell, line: Line): Line {
    [c] + if line == [] then [Bare("")] else line
  }

  lemma MoreIsWritten(c: Cell, line: Line)
    requires c.Legal() && (line == [] || LegalLine(line))
    ensures LegalLine(MoreOf(c, line)) && Commas(TextsOf(MoreOf(c, line))) == c.Written() + "," + Commas(TextsOf(line))
  {
    hide Commas;
    hide TextsOf;
    var rest := if line == [] then [Bare("")] else line;
    assert ([c] + rest)[1..] == rest;
    LineUnfolds([c] + rest);
    BareNothing();
    NoTexts();
  }

  function WithCell(c: Cell, t: Text): Text {
    if t.lines == [] then Text([], MoreOf(c, t.open))
    else Text([(MoreOf(c, t.lines[0].0), t.lines[0].1)] + t.lines[1..], t.open)
  }

  lemma WithCellIsWritten(c: Cell, t: Text)
    requires Legal(t) && c.Legal()
    ensures Legal(WithCell(c, t)) && Written(WithCell(c, t)) == c.Written() + "," + Written(t)
  {
    hide Commas;
    hide TextsOf;
    hide MoreOf;
    hide LegalLine;
    hide Cell.Written;
    hide Cell.Legal;
    if t.lines == [] {
      MoreIsWritten(c, t.open);
    } else {
      var line, rest := t.lines[0].0, t.(lines := t.lines[1..]);
      MoreIsWritten(c, line);
      var u := WithCell(c, t);
      assert u.(lines := u.lines[1..]) == rest;
      assert c.Written() + "," + Commas(TextsOf(line)) + t.lines[0].1 + Written(rest)
          == c.Written() + "," + (Commas(TextsOf(line)) + t.lines[0].1 + Written(rest));
    }
  }

  lemma BareNothing()
    ensures Commas(TextsOf([Bare("")])) == ""
  {
  }

  function WithLine(c: Cell, eol: string, t: Text): Text {
    Text([([c], eol)] + t.lines, t.open)
  }

  lemma WithLineIsWritten(c: Cell, eol: string, t: Text)
    requires Legal(t) && c.Legal() && IsEol(eol) && (eol == "\r" ==> Written(t) == "" || Written(t)[0] != '\n')
    ensures Legal(WithLine(c, eol, t)) && Written(WithLine(c, eol, t)) == c.Written() + eol + Written(t)
  {
    hide Commas;
    LineUnfolds([c]);
    assert c.Written() + "" == c.Written();
    var u := WithLine(c, eol, t);
    assert u.(lines := u.lines[1..]) == t;
  }

  // What ends a cell is a comma or a line end.
  lemma CutSeparator(rest: string) returns (sep: string, more: string)
    requires rest != "" && EndsCell(rest)
    ensures rest == sep + more && sep != ""
    ensures sep == "," || (IsEol(sep) && (sep == "\r" ==> more == "" || more[0] != '\n'))
  {
    var n := if rest[0] == '\r' && |rest| > 1 && rest[1] == '\n' then 2 else 1;
    sep, more := rest[..n], rest[n..];
  }

  lemma {:induction false} Decompose(s: string) returns (ok: bool, t: Text)
    ensures ok ==> Legal(t) && Written(t) == s
    ensures !ok ==> EndsInQuotes(s)
    decreases |s|
  {
    hide Commas;
    hide Written;
    hide Legal;
    hide EndsInQuotes;
    hide EndsCell;
    hide IsEol;
    hide WithCell;
    hide WithLine;
    hide Cell.Written;
    hide Cell.Legal;
    t := Text([], []);
    if s == "" {
      ok := true;
      NothingIsWritten();
      return;
    }
    var closed, c, rest := FirstCell(s);
    if !closed {
      ok := false;
      return;
    }
    if rest == "" {
      ok, t := true, Text([], [c]);
      OneCellIsWritten(c);
      assert c.Written() + "" == c.Written();
      return;
    }
    var sep, more := CutSeparator(rest);
    var u;
    ok, u := Decompose(more);
    assert s == c.Written() + sep + more;
    if !ok {
      CellThenQuotes(c, sep, more);
    } else if sep == "," {
      WithCellIsWritten(c, u);
      t := WithCell(c, u);
    } else {
      WithLineIsWritten(c, sep, u);
      t := WithLine(c, sep, u);
    }
  }

  lemma NothingIsWritten()
    ensures Legal(Text([], [])) && Written(Text([], [])) == ""
  {
  }

  lemma OneCellIsWritten(c: Cell)
    requires c.Legal()
    ensures Legal(Text([], [c])) && Written(Text([], [c])) == c.Written()
  {
    LineUnfolds([c]);
  }

  // A text is refused exactly when no table is written so, past a mark at its
  // start; and then a quote is open where it ends.
  lemma RefusedExactly(text: string)
    ensures Parsed(text) == Err(EndsInsideQuotes) <==> !exists t :: Legal(t) && Written(t) == StripBom(text)
    ensures Parsed(text).Err? <==> EndsInQuotes(StripBom(text))
  {
    hide Scan;
    hide Legal;
    hide Written;
    hide DropTrailing;
    var s := StripBom(text);
    var ok, t := Decompose(s);
    if u :| Legal(u) && Written(u) == s {
      ScanText(u, FRESH);
    }
    if !ok {
      assert Between(FRESH);
    }
  }
}

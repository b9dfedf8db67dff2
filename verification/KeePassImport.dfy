// The KeePassXC importer of crates/blackbag-cli/src/import.rs, and what
// survives an export followed by an import.
module KeePassImport {
  import opened Wrappers
  import opened Bytes
  import opened Csv
  import opened Substring
  import opened Text
  import opened MetaBlock
  import opened MetaRoundTrip
  import opened KeePass
  import opened Otpauth
  import Base32

  // ----- reading rows -----

  predicate EqIgnoreCase(a: string, b: string) {
    Lowered(a) == Lowered(b)
  }

  function Position(header: Cells, name: string): (r: Option<nat>)
    ensures r.Some? ==> r.value < |header|
  {
    if header == [] then None
    else if EqIgnoreCase(Trim(header[0]), name) then Some(0)
    else match Position(header[1..], name) case None => None case Some(i) => Some(i + 1)
  }

  // Row::get.
  function Get(header: Cells, cells: Cells, name: string): string {
    match Position(header, name)
    case None => ""
    case Some(i) => if i < |cells| then cells[i] else ""
  }

  predicate Blank(row: Cells) {
    forall i :: 0 <= i < |row| ==> Trim(row[i]) == ""
  }

  function DropBlank(rows: seq<Cells>): seq<Cells> {
    if rows == [] then []
    else DropBlank(rows[..|rows| - 1]) + (if Blank(rows[|rows| - 1]) then [] else [rows[|rows| - 1]])
  }

  datatype ImportError = BadCsv(why: CsvError) | NoRows | NotKeePass

  function HeaderAndRows(text: string): Result<(Cells, seq<Cells>), ImportError> {
    match Csv.Parsed(text)
    case Err(why) => Err(BadCsv(why))
    case Ok(rows) => if rows == [] then Err(NoRows) else Ok((rows[0], DropBlank(rows[1..])))
  }

  // ----- building a record -----

  datatype Rebuilt = Rebuilt(
    kind: Kind, title: string, tags: seq<string>, attributes: Pairs, fields: Fields,
    notes: Option<seq<byte>>, totp: Option<TotpConfig>)

  // Overwrite the first entry of this name, or append one.
  function SetPair<V>(pairs: seq<(string, V)>, name: string, value: V): seq<(string, V)> {
    if pairs == [] then [(name, value)]
    else if pairs[0].0 == name then [(name, value)] + pairs[1..]
    else [pairs[0]] + SetPair(pairs[1..], name, value)
  }

  function SetAttrIf(pairs: Pairs, name: string, value: string): Pairs {
    if Trim(value) == "" then pairs else SetPair(pairs, name, Trim(value))
  }

  function SetSecretIf(fields: Fields, name: string, value: string): Fields {
    if value == "" then fields else SetPair(fields, name, Utf8(value))
  }

  function NotesIf(value: string): Option<seq<byte>> {
    if Trim(value) == "" then None else Some(Utf8(Trim(value)))
  }

  function SetAttrs(pairs: Pairs, more: Pairs): Pairs {
    if more == [] then pairs
    else SetAttrIf(SetAttrs(pairs, more[..|more| - 1]), more[|more| - 1].0, more[|more| - 1].1)
  }

  function SetSecrets(fields: Fields, more: Pairs): Fields {
    if more == [] then fields
    else SetSecretIf(SetSecrets(fields, more[..|more| - 1]), more[|more| - 1].0, more[|more| - 1].1)
  }

  // The text before the first `mark`, or all of it.
  function Before(s: string, mark: string): string {
    match IndexOf(s, mark, 0) case None => s case Some(h) => s[..h]
  }

  function AfterLast(s: string, c: char): string {
    if s == "" then ""
    else if s[|s| - 1] == c then ""
    else AfterLast(s[..|s| - 1], c) + [s[|s| - 1]]
  }

  function HostOf(url: string): Option<string> {
    var rest := match IndexOf(url, "://", 0) case None => url case Some(h) => Before(url[h + 3..], "://");
    var path := Before(Before(Before(rest, "/"), "?"), "#");
    var authority := Trim(path);
    var host := Before(AfterLast(authority, '@'), ":");
    var bare := if "www." <= host then host[4..] else host;
    if bare == "" then None else Some(bare)
  }

  function SplitTags(group: string): seq<string>
    decreases |group|
  {
    match IndexOf(group, "/", 0)
    case None => Tag(group)
    case Some(h) => Tag(group[..h]) + SplitTags(group[h + 1..])
  }

  function Tag(part: string): seq<string> {
    var t := Trim(part);
    if t != "" && t != "Root" then [t] else []
  }

  function LoginTitle(title: string, url: string): string {
    if Trim(title) != "" then Trim(title)
    else match HostOf(url) case Some(h) => h case None => "(untitled)"
  }

  // One imported row before the block's attributes and secrets are applied.
  function Base(meta: NoteMeta, title: string, username: string, password: string, url: string, notes: string): Rebuilt {
    var attributes := SetAttrIf(SetAttrIf([], "username", username), "url", url);
    if meta.kind.Some? && meta.kind.value != Login then
      Rebuilt(meta.kind.value, title, [], attributes,
              SetSecretIf([], PrimaryFieldFor(meta.kind.value), password), NotesIf(notes), None)
    else if username == "" && password == "" && url == "" && meta.secrets == [] then
      Rebuilt(Note, title, [], [], SetSecretIf([], "body", notes), None, None)
    else
      Rebuilt(Login, LoginTitle(title, url), [], attributes,
              SetSecretIf([], "password", password), NotesIf(notes), None)
  }

  // What one row's columns say, defanging undone and the block split off.
  datatype Columns = Columns(
    title: string, username: string, password: string, url: string,
    meta: NoteMeta, notes: string, group: string, totp: string)

  function ReadColumns(header: Cells, cells: Cells): Columns {
    var (meta, notes) := SplitOff(Undefang(Get(header, cells, "Notes")));
    Columns(
      Undefang(Get(header, cells, "Title")), Undefang(Get(header, cells, "Username")),
      Get(header, cells, "Password"), Undefang(Get(header, cells, "URL")),
      meta, notes, Get(header, cells, "Group"), Get(header, cells, "TOTP"))
  }

  function FromColumns(c: Columns): Rebuilt {
    var base := Base(c.meta, c.title, c.username, c.password, c.url, c.notes);
    base.(attributes := SetAttrs(base.attributes, c.meta.attributes),
          fields := SetSecrets(base.fields, c.meta.secrets),
          tags := SplitTags(c.group))
  }

  // What a TOTP cell holds, if anything: an address, or a bare secret, which
  // belongs to the record's own title and user name.
  function ReadTotp(b: Rebuilt, cell: string): Option<Result<Enrolment, OtpauthError>> {
    var text := Trim(cell);
    if text == "" then None
    else if "otpauth://" <= text then Some(Otpauth.Parsed(text))
    else match Base32.ReadSecret(text)
    case Err(why) => Some(Err(BadSecret(why)))
    case Ok(secret) =>
      Some(Ok(Enrolment(secret, DEFAULT.(issuer := Some(b.title), account := Lookup(b.attributes, "username")))))
  }

  // The record with its second factor, or why it has none.
  function Attached(b: Rebuilt, cell: string): (r: (Rebuilt, Option<OtpauthError>)) {
    match ReadTotp(b, cell)
    case None => (b, None)
    case Some(Err(why)) => (b, Some(why))
    case Some(Ok(e)) => (b.(fields := SetPair(b.fields, "totp", e.secret), totp := Some(e.config)), None)
  }

  function Rebuild(header: Cells, cells: Cells): (r: (Rebuilt, Option<OtpauthError>)) {
    var c := ReadColumns(header, cells);
    Attached(FromColumns(c), c.totp)
  }

  method AttachTotp(b: Rebuilt, cell: string) returns (record: Rebuilt, warning: Option<OtpauthError>)
    ensures (record, warning) == Attached(b, cell)
  {
    hide Trim;
    hide Base32.ReadSecret;
    hide Otpauth.Parsed;
    var text := Trim(cell);
    if text == "" {
      return b, None;
    }
    var read;
    if "otpauth://" <= text {
      read := ParseOtpauth(text);
    } else {
      match Base32.ReadSecret(text) {
        case Err(why) => read := Err(BadSecret(why));
        case Ok(secret) =>
          var config := DEFAULT.(issuer := Some(b.title), account := Lookup(b.attributes, "username"));
          read := Ok(Enrolment(secret, config));
      }
    }
    match read
    case Ok(e) =>
      record, warning := b.(fields := SetPair(b.fields, "totp", e.secret), totp := Some(e.config)), None;
    case Err(why) =>
      record, warning := b, Some(why);
  }

  // ----- limits -----

  const MAX_TITLE_LEN: nat := 256
  const MAX_TAGS_PER_RECORD: nat := 64
  const MAX_TAG_LEN: nat := 128
  const MAX_FIELD_BYTES: nat := 8 * 1024
  const MAX_NOTE_BYTES: nat := 256 * 1024

  predicate TagsFit(tags: seq<string>) {
    |tags| <= MAX_TAGS_PER_RECORD && forall i :: 0 <= i < |tags| ==> |Utf8(tags[i])| <= MAX_TAG_LEN
  }

  predicate AttributeFits(pair: (string, string)) {
    |Utf8(pair.0)| <= MAX_TAG_LEN && |Utf8(pair.1)| <= MAX_FIELD_BYTES
  }

  predicate FieldFits(field: (string, seq<byte>)) {
    |field.1| <= MAX_NOTE_BYTES
  }

  predicate TotpFits(totp: TotpConfig) {
    6 <= totp.digits <= 8 && totp.step != 0
  }

  // Record::validate.
  predicate Fits(title: string, tags: seq<string>, attributes: Pairs, fields: Fields,
                 notes: Option<seq<byte>>, totp: Option<TotpConfig>)
  {
    && |Utf8(title)| <= MAX_TITLE_LEN
    && TagsFit(tags)
    && (forall p :: p in attributes ==> AttributeFits(p))
    && (forall f :: f in fields ==> FieldFits(f))
    && (notes.Some? ==> |notes.value| <= MAX_NOTE_BYTES)
    && (totp.Some? ==> TotpFits(totp.value))
  }

  predicate WithinLimits(b: Rebuilt) {
    Fits(b.title, b.tags, b.attributes, b.fields, b.notes, b.totp)
  }

  // ----- whole files -----

  // What is reported of a row; rows are numbered from 2, blank ones not counted.
  datatype Skip = TotpNotImported(row: nat, why: OtpauthError) | OverLimits(row: nat)

  datatype Import = Import(records: seq<Rebuilt>, skipped: seq<Skip>)

  function AddRow(done: Import, header: Cells, cells: Cells, n: nat): Import {
    var (b, warning) := Rebuild(header, cells);
    var skipped := done.skipped + (if warning.Some? then [TotpNotImported(n + 2, warning.value)] else []);
    if WithinLimits(b) then Import(done.records + [b], skipped) else Import(done.records, skipped + [OverLimits(n + 2)])
  }

  function ReadRows(header: Cells, rows: seq<Cells>): Import {
    if rows == [] then Import([], [])
    else var n := |rows| - 1; AddRow(ReadRows(header, rows[..n]), header, rows[n], n)
  }

  function Imported(text: string): Result<Import, ImportError> {
    match HeaderAndRows(text)
    case Err(why) => Err(why)
    case Ok((header, rows)) =>
      if Position(header, "Title").None? && Position(header, "Password").None? then Err(NotKeePass)
      else Ok(ReadRows(header, rows))
  }

  method ImportKeepassxc(text: string) returns (r: Result<Import, ImportError>)
    ensures r == Imported(text)
  {
    hide Csv.Parsed;
    hide ReadRows;
    hide DropBlank;
    hide Position;
    var parsed := ParseCsv(text);
    if parsed.Err? {
      return Err(BadCsv(parsed.error));
    }
    var all := parsed.value;
    if all == [] {
      return Err(NoRows);
    }
    var header := all[0];
    var rows := NonBlankRows(all[1..]);
    if Position(header, "Title").None? && Position(header, "Password").None? {
      return Err(NotKeePass);
    }
    var out := ImportRows(header, rows);
    r := Ok(out);
  }

  method NonBlankRows(rows: seq<Cells>) returns (kept: seq<Cells>)
    ensures kept == DropBlank(rows)
  {
    hide Blank;
    kept := [];
    for i := 0 to |rows|
      invariant kept == DropBlank(rows[..i])
    {
      assert rows[..i + 1][..i] == rows[..i];
      if !Blank(rows[i]) {
        kept := kept + [rows[i]];
      }
    }
    assert rows[..|rows|] == rows;
  }

  method ImportRows(header: Cells, rows: seq<Cells>) returns (out: Import)
    ensures out == ReadRows(header, rows)
  {
    hide ReadColumns;
    hide FromColumns;
    hide Attached;
    hide WithinLimits;
    out := Import([], []);
    for n := 0 to |rows|
      invariant out == ReadRows(header, rows[..n])
    {
      assert rows[..n + 1][..n] == rows[..n];
      var columns := ReadColumns(header, rows[n]);
      var record, warning := AttachTotp(FromColumns(columns), columns.totp);
      if warning.Some? {
        out := out.(skipped := out.skipped + [TotpNotImported(n + 2, warning.value)]);
      }
      if !WithinLimits(record) {
        out := out.(skipped := out.skipped + [OverLimits(n + 2)]);
        continue;
      }
      out := out.(records := out.records + [record]);
    }
    assert rows[..|rows|] == rows;
  }

  // ----- the columns of our own header -----

  // Position of the first column whose name differs from every one before it.
  lemma {:induction false} PositionIs(header: Cells, name: string, n: nat)
    requires n < |header| && Trim(header[n]) == name
    requires forall i :: 0 <= i < n ==> !EqIgnoreCase(Trim(header[i]), name)
    ensures Position(header, name) == Some(n)
    decreases |header|
  {
    hide Trim;
    hide EqIgnoreCase;
    if n > 0 {
      assert forall i :: 0 <= i < n - 1 ==> header[1..][i] == header[i + 1];
      PositionIs(header[1..], name, n - 1);
    } else {
      SameNameMatches(name);
    }
  }

  lemma SameNameMatches(name: string)
    ensures EqIgnoreCase(name, name)
  {
  }

  lemma Differs(a: string, b: string)
    requires |a| != |b| || (a != "" && b != "" && Lower(a[0]) != Lower(b[0]))
    ensures !EqIgnoreCase(a, b)
  {
    assert |Lowered(a)| == |a| && |Lowered(b)| == |b|;
    if a != "" && b != "" {
      assert Lowered(a)[0] == Lower(a[0]) && Lowered(b)[0] == Lower(b[0]);
    }
  }

  // Length and first letter of the columns the importer reads.
  lemma HeaderShape()
    ensures HEADER[..7] == ["Group", "Title", "Username", "Password", "URL", "Notes", "TOTP"] && |HEADER| == 10
  {
  }

  lemma HeaderNamesDiffer(i: nat, j: nat)
    requires i < j < 7
    ensures !EqIgnoreCase(HEADER[i], HEADER[j])
  {
    hide HEADER;
    hide EqIgnoreCase;
    HeaderShape();
    var a, b := HEADER[..7][i], HEADER[..7][j];
    Differs(a, b);
  }

  lemma HeaderColumn(n: nat)
    requires n < 7
    ensures Position(HEADER, HEADER[n]) == Some(n)
  {
    hide HEADER;
    hide EqIgnoreCase;
    hide Position;
    hide Trim;
    HeaderShape();
    forall i | 0 <= i < 7 ensures Trim(HEADER[i]) == HEADER[i] {
      assert HEADER[i] == HEADER[..7][i];
      TrimTidy(HEADER[i]);
    }
    forall i | 0 <= i < n ensures !EqIgnoreCase(Trim(HEADER[i]), HEADER[n]) {
      HeaderNamesDiffer(i, n);
    }
    PositionIs(HEADER, HEADER[n], n);
  }

  lemma HeaderColumns()
    ensures Position(HEADER, "Group") == Some(0)
    ensures Position(HEADER, "Title") == Some(1)
    ensures Position(HEADER, "Username") == Some(2)
    ensures Position(HEADER, "Password") == Some(3)
    ensures Position(HEADER, "URL") == Some(4)
    ensures Position(HEADER, "Notes") == Some(5)
    ensures Position(HEADER, "TOTP") == Some(6)
  {
    hide HEADER;
    hide Position;
    HeaderShape();
    var h := HEADER[..7];
    assert h[0] == HEADER[0] && h[1] == HEADER[1] && h[2] == HEADER[2] && h[3] == HEADER[3]
        && h[4] == HEADER[4] && h[5] == HEADER[5] && h[6] == HEADER[6];
    HeaderColumn(0);
    HeaderColumn(1);
    HeaderColumn(2);
    HeaderColumn(3);
    HeaderColumn(4);
    HeaderColumn(5);
    HeaderColumn(6);
  }

  // ----- which cells come back -----

  lemma OwnColumns(r: Record)
    ensures var c, cells := ReadColumns(HEADER, CellsOf(r)), CellsOf(r);
            && c.title == Undefang(cells[1]) && c.username == Undefang(cells[2])
            && c.password == cells[3] && c.url == Undefang(cells[4])
            && (c.meta, c.notes) == SplitOff(Undefang(cells[5]))
            && c.group == cells[0] && c.totp == cells[6]
  {
    hide Position;
    hide SplitOff;
    hide HEADER;
    HeaderColumns();
  }

  lemma GroupIsTame(r: Record)
    ensures Defang(Group(r)) == Group(r)
  {
    assert Group(r)[0] == 'R';
  }

  ghost predicate NotesComeBack(r: Record) {
    Clean(Exposed(r.notes), r.kind, MetaAttributes(r.attributes), MetaSecrets(r.fields, Primary(r)))
  }

  // A notes column is mistaken for a defanged one when the user's notes are.
  lemma MistakenNotes(notes: Option<string>, meta: seq<string>)
    ensures Mistakable(NotesCell(notes, meta)) <==> Mistakable(OwnText(notes))
  {
    hide META_MARKER;
    NotesCellIs(notes, meta);
    var own, cell := OwnText(notes), CellText(notes, meta);
    MarkerOpens();
    if meta != [] && notes.Some? {
      assert cell == own + ("\n" + Block(meta));
      if own != "" {
        assert cell[0] == own[0] && cell[1..] == own[1..] + ("\n" + Block(meta));
      }
    } else if meta != [] {
      assert cell[0] == META_MARKER[0];
    }
  }

  lemma MarkerOpens()
    ensures |META_MARKER| == 11 && META_MARKER[0] == '['
  {
  }

  lemma {:induction false} TrimmedIsShorter(s: string)
    ensures |TrimEnd(s)| <= |s|
  {
  }

  // Whatever precedes the printer's marker, no more than that comes back.
  lemma HeadIsNoLonger(own: string, tail: string)
    ensures |SplitOff(own).1| <= |own|
    ensures |SplitOff(own + ("\n" + META_MARKER + tail)).1| <= |own|
  {
    hide META_MARKER;
    hide TrimEnd;
    if found :| IndexOf(own, META_MARKER, 0) == Some(found) {
      TrimmedIsShorter(own[..found]);
    }
    var text := own + ("\n" + META_MARKER + tail);
    if Unmarked(own) {
      MarkerFound(own, tail);
      assert text == own + "\n" + META_MARKER + tail;
      assert text[..|own| + 1] == own + ['\n'];
      TrimOne(own, '\n');
      TrimmedIsShorter(own);
    } else {
      MarkerInNotes(own, "\n" + META_MARKER + tail);
      TrimmedIsShorter(text[..IndexOf(own, META_MARKER, 0).value]);
    }
  }

  // Losing the first character of the notes is not made up for.
  lemma MistakenNotesAreLost(notes: Option<string>, meta: seq<string>)
    requires Mistakable(OwnText(notes))
    ensures SplitOff(NotesCell(notes, meta)[1..]).1 != OwnText(notes)
  {
    hide META_MARKER;
    hide SplitOff;
    NotesCellIs(notes, meta);
    var own, tail := OwnText(notes), "\n" + Join(meta);
    HeadIsNoLonger(own[1..], tail);
    if meta != [] {
      assert NotesCell(notes, meta)[1..] == own[1..] + ("\n" + META_MARKER + tail);
    }
  }

  // Column by column, what an import of our own export reads back.
  lemma ColumnsComeBack(r: Record)
    ensures var c := ReadColumns(HEADER, CellsOf(r));
            && c.password == PasswordText(r) && c.totp == TotpCell(r) && c.group == Group(r)
            && (c.title == OwnText(r.title) <==> !Mistakable(OwnText(r.title)))
            && (c.username == Username(r) <==> !Mistakable(Username(r)))
            && (c.url == OwnText(Lookup(r.attributes, "url")) <==> !Mistakable(OwnText(Lookup(r.attributes, "url"))))
    ensures var c := ReadColumns(HEADER, CellsOf(r));
            ((c.meta, c.notes) == (NoteMeta(KindBack(r.kind), MetaAttributes(r.attributes), MetaSecrets(r.fields, Primary(r))),
                                   OwnText(Exposed(r.notes)))
            <==> NotesComeBack(r) && !Mistakable(OwnText(Exposed(r.notes))))
  {
    hide ReadColumns;
    hide SplitOff;
    hide HEADER;
    hide NotesCell;
    hide Clean;
    hide MetaLines;
    hide Defang;
    hide Undefang;
    hide Mistakable;
    hide FromUtf8;
    hide TotpCell;
    OwnColumns(r);
    GroupIsTame(r);
    UndefangUndoesDefang(OwnText(r.title));
    UndefangUndoesDefang(Username(r));
    UndefangUndoesDefang(OwnText(Lookup(r.attributes, "url")));
    var cell := NotesCell(Exposed(r.notes), MetaOf(r));
    UndefangUndoesDefang(cell);
    MistakenNotes(Exposed(r.notes), MetaOf(r));
    SplitUndoesPrint(Exposed(r.notes), r.kind, MetaAttributes(r.attributes), MetaSecrets(r.fields, Primary(r)));
    if Mistakable(OwnText(Exposed(r.notes))) {
      MistakenCell(cell);
      MistakenNotesAreLost(Exposed(r.notes), MetaOf(r));
    }
  }

  lemma MistakenCell(cell: string)
    requires Mistakable(cell)
    ensures Undefang(Defang(cell)) == cell[1..]
  {
  }
}

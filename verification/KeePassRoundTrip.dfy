// Whole records, and whole exports, through an export and an import.
module KeePassRoundTrip {
  import opened Wrappers
  import opened Bytes
  import opened Csv
  import opened Text
  import opened MetaBlock
  import opened MetaRoundTrip
  import opened KeePass
  import opened KeePassImport
  import opened KeePassParts
  import Otpauth
  import OtpauthRoundTrip

  // An import of our own export reads each record's own cells, in order.
  lemma ImportReadsExport(records: seq<Record>)
    ensures Imported(Rendered(records)) == Ok(ReadRows(HEADER, AllCells(records)))
  {
    hide Csv.Parsed;
    hide Rendered;
    hide HEADER;
    hide Position;
    hide ReadRows;
    hide DropBlank;
    RenderedParses(records);
    HeaderColumns();
    var rows := [HEADER] + AllCells(records);
    assert rows[1..] == AllCells(records);
    NoRowIsBlank(records);
  }

  lemma {:induction false} NoRowIsBlank(records: seq<Record>)
    ensures DropBlank(AllCells(records)) == AllCells(records)
  {
    hide CellsOf;
    hide Blank;
    if records != [] {
      var r := records[|records| - 1];
      NoRowIsBlank(records[..|records| - 1]);
      RowIsKept(r);
      ZeroIsNotBlank(CellsOf(r));
    }
  }

  lemma ZeroIsNotBlank(row: Cells)
    requires |row| == 10 && row[7] == "0"
    ensures !Blank(row)
  {
    TrimTidy(row[7]);
  }

  // ----- one record -----

  // Every column of the record can be read back, and no name is used twice:
  // setting an attribute or a field never makes two of one name.
  ghost predicate Legible(r: Record) {
    && !Mistakable(OwnText(r.title)) && !Mistakable(Username(r))
    && !Mistakable(OwnText(Lookup(r.attributes, "url"))) && !Mistakable(OwnText(Exposed(r.notes)))
    && NotesComeBack(r)
    && DistinctNames(r.attributes) && DistinctNames(r.fields)
  }

  // A login that an import takes for a note.
  ghost predicate Vanishes(r: Record) {
    && r.kind == Login
    && Username(r) == "" && OwnText(Lookup(r.attributes, "url")) == ""
    && PasswordText(r) == "" && MetaSecrets(r.fields, Primary(r)) == []
  }

  predicate KeepsTitle(title: string, url: string) {
    Tidy(title) || (Trim(title) == "" && HostOf(url) == Some(title))
  }

  // What a record must be to come back.
  ghost predicate Portable(r: Record) {
    && r.title.Some?
    && (r.kind == Login ==> KeepsTitle(r.title.value, OwnText(Lookup(r.attributes, "url"))) && !Vanishes(r))
    && PlainTags(r.tags)
    && PortableAttributes(r.attributes)
    && PortableFields(r)
    && (r.notes.Some? ==> FromUtf8(r.notes.value).Some? && Tidy(FromUtf8(r.notes.value).value))
    && (r.totp.Some? ==> Lookup(r.fields, "totp").Some? && OtpauthRoundTrip.Restorable(r.totp.value, Username(r)))
  }

  // The same record, as far as anything can be looked up in it.
  ghost predicate Faithful(r: Record, b: Rebuilt) {
    && b.kind == r.kind
    && Some(b.title) == r.title
    && b.tags == r.tags
    && b.notes == r.notes
    && b.totp == r.totp
    && (forall name :: Lookup(b.attributes, name) == Lookup(r.attributes, name))
    && (forall name :: Lookup(b.fields, name) == Lookup(r.fields, name))
  }

  // What the columns of a legible record are read as.
  function PrintedColumns(r: Record): Columns {
    Columns(
      OwnText(r.title), Username(r), PasswordText(r), OwnText(Lookup(r.attributes, "url")),
      NoteMeta(KindBack(r.kind), MetaAttributes(r.attributes), MetaSecrets(r.fields, Primary(r))),
      OwnText(Exposed(r.notes)), Group(r), TotpCell(r))
  }

  lemma LegibleReads(r: Record)
    requires Legible(r)
    ensures ReadColumns(HEADER, CellsOf(r)) == PrintedColumns(r)
  {
    hide ReadColumns;
    hide HEADER;
    hide CellsOf;
    hide MetaAttributes;
    hide MetaSecrets;
    hide Lookup;
    hide Group;
    hide Username;
    hide PasswordText;
    hide TotpCell;
    hide Mistakable;
    hide NotesComeBack;
    hide FromUtf8;
    ColumnsComeBack(r);
  }

  function TitleBack(r: Record): string {
    var title := OwnText(r.title);
    if r.kind == Login then LoginTitle(title, OwnText(Lookup(r.attributes, "url"))) else title
  }

  // What an import makes of a legible record's columns, but for the second
  // factor.
  function Body(r: Record): Rebuilt {
    Rebuilt(r.kind, TitleBack(r), SplitTags(Group(r)), AttributesBack(r), FieldsBack(r),
            NotesIf(OwnText(Exposed(r.notes))), None)
  }

  lemma BodyIs(r: Record)
    ensures if Vanishes(r) then FromColumns(PrintedColumns(r)).kind == Note else FromColumns(PrintedColumns(r)) == Body(r)
  {
    hide MetaAttributes;
    hide MetaSecrets;
    hide SetAttrs;
    hide SetSecrets;
    hide SetSecretIf;
    hide SetAttrIf;
    hide Lookup;
    hide FromUtf8;
    hide SplitTags;
    hide Group;
    hide Username;
    hide PasswordText;
    hide TotpCell;
    hide NotesIf;
    hide LoginTitle;
  }

  // The legible record's second factor included.
  function Whole(r: Record): Rebuilt {
    Body(r).(fields := AllFieldsBack(r), totp := if Enrolled(r) then Some(ConfigBack(r)) else None)
  }

  lemma WholeIs(r: Record)
    requires Legible(r)
    ensures var (b, warning) := Rebuild(HEADER, CellsOf(r));
            && (if Vanishes(r) then b.kind == Note else b == Whole(r))
            && (warning.Some? <==> r.totp.Some? && Lookup(r.fields, "totp").Some? && !Enrolled(r))
  {
    hide ReadColumns;
    hide FromColumns;
    hide HEADER;
    hide CellsOf;
    hide AttributesBack;
    hide FieldsBack;
    hide MetaAttributes;
    hide MetaSecrets;
    hide Legible;
    hide Vanishes;
    hide Attached;
    hide Enrolled;
    hide ConfigBack;
    hide TitleBack;
    hide Lookup;
    hide Username;
    hide PasswordText;
    hide TotpCell;
    LegibleReads(r);
    BodyIs(r);
    TotpComesBack(r, FromColumns(PrintedColumns(r)));
  }

  lemma TitleComesBack(r: Record)
    ensures Some(TitleBack(r)) == r.title
       <==> r.title.Some? && (r.kind == Login ==> KeepsTitle(r.title.value, OwnText(Lookup(r.attributes, "url"))))
  {
    hide Trim;
    hide HostOf;
    hide Lookup;
    TrimTidy("(untitled)");
    EmptyIsBlank();
  }

  lemma NotesAreKept(notes: Option<seq<byte>>)
    ensures NotesIf(OwnText(Exposed(notes))) == notes
       <==> (notes.Some? ==> FromUtf8(notes.value).Some? && Tidy(FromUtf8(notes.value).value))
  {
    hide Trim;
    hide FromUtf8;
    hide Utf8;
    EmptyIsBlank();
    if notes.Some? && FromUtf8(notes.value).Some? {
      var text := FromUtf8(notes.value).value;
      FromUtf8Exactly(notes.value, text);
      FromUtf8Exactly(notes.value, Trim(text));
    }
  }

  // With the seed back, the settings come back exactly when they are
  // restorable.
  lemma SettingsComeBack(r: Record)
    requires PortableFields(r)
    ensures (if Enrolled(r) then Some(ConfigBack(r)) else None) == r.totp
       <==> (r.totp.Some? ==> Lookup(r.fields, "totp").Some? && OtpauthRoundTrip.Restorable(r.totp.value, Username(r)))
  {
    hide Lookup;
    hide Readable;
    hide TotpFits;
    hide FromUtf8;
    hide PrimaryFieldFor;
    hide Username;
    hide OtpauthRoundTrip.Returned;
    hide OtpauthRoundTrip.Restorable;
    if r.totp.Some? {
      OtpauthRoundTrip.ConfigComesBack(r.totp.value, OwnText(r.title), Username(r));
    }
  }

  // A legible record comes back whole exactly when it is portable.
  lemma RecordComesBack(r: Record)
    requires Legible(r)
    ensures Faithful(r, Rebuild(HEADER, CellsOf(r)).0) <==> Portable(r)
  {
    hide Rebuild;
    hide CellsOf;
    hide HEADER;
    hide Lookup;
    hide AttributesBack;
    hide AllFieldsBack;
    hide FieldsBack;
    hide MetaSecrets;
    hide PasswordText;
    hide Username;
    hide PortableAttributes;
    hide PortableFields;
    hide KeepsTitle;
    hide TitleBack;
    hide Tidy;
    hide FromUtf8;
    hide NotesIf;
    hide PlainTags;
    hide SplitTags;
    hide Group;
    hide Enrolled;
    hide ConfigBack;
    hide Exposed;
    hide OtpauthRoundTrip.Restorable;
    WholeIs(r);
    if !Vanishes(r) {
      TitleComesBack(r);
      GroupComesBack(r);
      AttributesComeBack(r);
      FieldsComeBack(r);
      NotesAreKept(r.notes);
      if PortableFields(r) {
        SettingsComeBack(r);
      }
    }
  }

  // A login with a second factor.
  function SampleLogin(password: string, seed: seq<byte>): Record {
    Record(
      Login, Some("GitHub"), ["Work"], [("username", "octocat"), ("url", "https://github.com")],
      [("password", Utf8(password)), ("totp", seed)], None,
      Some(Otpauth.TotpConfig(Some("GitHub"), Some("octocat"), 6, 30, 1, Otpauth.Sha1)), "", "")
  }

  lemma SampleParts(password: string, seed: seq<byte>)
    ensures var r := SampleLogin(password, seed);
            && Lookup(r.attributes, "username") == Some("octocat")
            && Lookup(r.attributes, "url") == Some("https://github.com")
            && Lookup(r.fields, "password") == Some(Utf8(password))
            && Lookup(r.fields, "totp") == Some(seed)
            && DistinctNames(r.attributes) && DistinctNames(r.fields)
  {
    hide Utf8;
    var r := SampleLogin(password, seed);
    assert "username"[0] == 'u' && "username"[1] == 's' && "url"[1] == 'r' && "password"[0] == 'p' && "totp"[0] == 't';
    assert r.attributes[1..] == [("url", "https://github.com")] && r.fields[1..] == [("totp", seed)];
  }

  lemma SampleHasNoBlock(password: string, seed: seq<byte>)
    ensures var r := SampleLogin(password, seed);
            MetaAttributes(r.attributes) == [] && MetaSecrets(r.fields, Primary(r)) == []
  {
    hide MetaSecrets;
    SampleParts(password, seed);
    var r := SampleLogin(password, seed);
    assert r.attributes[..1] == [("username", "octocat")] && r.attributes[..1][..0] == [];
    TwoFieldsNoBlock(Utf8(password), seed);
  }

  lemma TwoFieldsNoBlock(password: seq<byte>, seed: seq<byte>)
    ensures MetaSecrets([("password", password), ("totp", seed)], Some(("password", password))) == []
  {
    hide MetaSecrets;
    hide FromUtf8;
    var first, second, primary := ("password", password), ("totp", seed), Some(("password", password));
    MetaSecretsGrow([], first, primary);
    MetaSecretsGrow([first], second, primary);
    NoFieldNoSecret(primary);
    assert [] + [first] == [first] && [first] + [second] == [first, second];
  }

  lemma NoFieldNoSecret(primary: Option<(string, seq<byte>)>)
    ensures MetaSecrets([], primary) == []
  {
  }

  lemma SampleTexts()
    ensures Tidy("GitHub") && Tidy("octocat") && Tidy("https://github.com") && PlainTag("Work")
    ensures !Mistakable("GitHub") && !Mistakable("octocat") && !Mistakable("https://github.com") && !Mistakable("")
  {
    hide Trim;
    TrimTidy("GitHub");
    TrimTidy("octocat");
    TrimTidy("https://github.com");
    TrimTidy("Work");
    assert "Work"[0] == 'W' && "Root"[0] == 'R';
  }

  // With any password and any seed it comes back whole.
  lemma SampleComesBack(password: string, seed: seq<byte>)
    requires password != "" && seed != []
    ensures Legible(SampleLogin(password, seed))
    ensures Faithful(SampleLogin(password, seed), Rebuild(HEADER, CellsOf(SampleLogin(password, seed))).0)
  {
    hide Utf8;
    hide FromUtf8;
    hide Trim;
    hide Lookup;
    hide MetaAttributes;
    hide MetaSecrets;
    hide Mistakable;
    hide DistinctNames;
    hide HostOf;
    hide Rebuild;
    hide CellsOf;
    hide HEADER;
    hide Faithful;
    var r := SampleLogin(password, seed);
    SampleParts(password, seed);
    SampleHasNoBlock(password, seed);
    SampleTexts();
    FromUtf8Exactly(Utf8(password), password);
    TextHasBytes(password);
    RecordComesBack(r);
  }

  // ----- limits -----

  // A record the vault takes.
  predicate Sized(r: Record) {
    Fits(OwnText(r.title), r.tags, r.attributes, r.fields, r.notes, r.totp)
  }

  // A record that comes back whole is within the limits exactly when the
  // original is.
  lemma LimitsComeBack(r: Record)
    requires Legible(r) && Portable(r)
    ensures WithinLimits(Rebuild(HEADER, CellsOf(r)).0) <==> Sized(r)
  {
    hide Rebuild;
    hide CellsOf;
    hide HEADER;
    hide Lookup;
    hide Portable;
    hide Mistakable;
    hide NotesComeBack;
    hide DistinctNames;
    hide TagsFit;
    hide AttributeFits;
    hide FieldFits;
    hide TotpFits;
    hide Utf8;
    hide FromUtf8;
    var b := Rebuild(HEADER, CellsOf(r)).0;
    RecordComesBack(r);
    ImportedNamesAreDistinct(HEADER, CellsOf(r));
    forall p ensures p in b.attributes <==> p in r.attributes {
      SameAnswersSameEntries(b.attributes, r.attributes, p);
    }
    forall f ensures f in b.fields <==> f in r.fields {
      SameAnswersSameEntries(b.fields, r.fields, f);
    }
    AttributesFitAlike(b.attributes, r.attributes);
    FieldsFitAlike(b.fields, r.fields);
  }

  lemma AttributesFitAlike(a: Pairs, b: Pairs)
    requires forall p :: p in a <==> p in b
    ensures (forall p :: p in a ==> AttributeFits(p)) <==> (forall p :: p in b ==> AttributeFits(p))
  {
    hide AttributeFits;
  }

  lemma FieldsFitAlike(a: Fields, b: Fields)
    requires forall f :: f in a <==> f in b
    ensures (forall f :: f in a ==> FieldFits(f)) <==> (forall f :: f in b ==> FieldFits(f))
  {
    hide FieldFits;
  }

  // ----- whole exports -----

  ghost predicate Silent(row: Cells) {
    Rebuild(HEADER, row).1.None?
  }

  ghost predicate Taken(row: Cells) {
    WithinLimits(Rebuild(HEADER, row).0)
  }

  // A row is missing from the import exactly when its record is too large.
  lemma {:induction false} RowsAreTaken(rows: seq<Cells>)
    ensures var back := ReadRows(HEADER, rows);
            && |back.records| <= |rows|
            && (|back.records| == |rows| <==> forall i :: 0 <= i < |rows| ==> Taken(rows[i]))
            && (|back.records| == |rows| ==> forall i :: 0 <= i < |rows| ==> back.records[i] == Rebuild(HEADER, rows[i]).0)
            && (back.skipped == [] <==> forall i :: 0 <= i < |rows| ==> Taken(rows[i]) && Silent(rows[i]))
    decreases |rows|
  {
    hide Rebuild;
    hide HEADER;
    hide WithinLimits;
    if rows != [] {
      RowsAreTaken(rows[..|rows| - 1]);
    }
  }

  ghost predicate ComesBack(records: seq<Record>, back: seq<Rebuilt>) {
    |back| == |records| && forall i :: 0 <= i < |records| ==> Faithful(records[i], back[i])
  }

  // An export of legible records comes back record by record, in order,
  // exactly when each is portable and within limits; then nothing is reported.
  lemma ExportComesBack(records: seq<Record>)
    requires forall i :: 0 <= i < |records| ==> Legible(records[i])
    ensures Imported(Rendered(records)).Ok?
    ensures var back := Imported(Rendered(records)).value;
            && (ComesBack(records, back.records) <==> forall i :: 0 <= i < |records| ==> Portable(records[i]) && Sized(records[i]))
            && (ComesBack(records, back.records) ==> back.skipped == [])
  {
    hide Imported;
    hide Rendered;
    hide ReadRows;
    hide CellsOf;
    hide HEADER;
    hide Legible;
    hide Portable;
    hide Sized;
    hide Faithful;
    hide Rebuild;
    hide WithinLimits;
    hide AllCells;
    ImportReadsExport(records);
    AllCellsAre(records);
    RowsAreTaken(AllCells(records));
    forall i | 0 <= i < |records|
      ensures Faithful(records[i], Rebuild(HEADER, CellsOf(records[i])).0) <==> Portable(records[i])
      ensures Portable(records[i]) ==> (Taken(CellsOf(records[i])) <==> Sized(records[i])) && Silent(CellsOf(records[i]))
    {
      RecordComesBack(records[i]);
      if Portable(records[i]) {
        LimitsComeBack(records[i]);
        NothingReported(records[i]);
      }
    }
  }

  lemma NothingReported(r: Record)
    requires Legible(r) && Portable(r)
    ensures Silent(CellsOf(r))
  {
    hide Rebuild;
    hide CellsOf;
    hide HEADER;
    hide Legible;
    hide Vanishes;
    hide KeepsTitle;
    hide Enrolled;
    hide Lookup;
    hide OtpauthRoundTrip.Restorable;
    WholeIs(r);
  }
}

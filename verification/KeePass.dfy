// The KeePassXC exporter and importer of crates/blackbag-cli/src/import.rs:
// what the columns hold, and which cells come back.
module KeePass {
  import opened Wrappers
  import opened Bytes
  import opened Csv
  import opened Text
  import opened MetaBlock
  import opened MetaRoundTrip
  import Otpauth

  // ----- formula defanging -----

  predicate Dangerous(s: string) {
    s != "" && (s[0] == '=' || s[0] == '+' || s[0] == '-' || s[0] == '@' || s[0] == '\t' || s[0] == '\r')
  }

  function Defang(value: string): string {
    if Dangerous(value) then "'" + value else value
  }

  function Undefang(value: string): string {
    if value != "" && value[0] == '\'' && Dangerous(value[1..]) then value[1..] else value
  }

  // An apostrophe that would be mistaken for the printer's own.
  predicate Mistakable(value: string) {
    value != "" && value[0] == '\'' && Dangerous(value[1..])
  }

  // What a spreadsheet takes for a formula.
  ghost predicate StartsFormula(s: string) {
    s != "" && s[0] in {'=', '+', '-', '@', '\t', '\r'}
  }

  lemma UndefangUndoesDefang(value: string)
    ensures Undefang(Defang(value)) == value <==> !Mistakable(value)
    ensures !StartsFormula(Defang(value))
    ensures Defang(value) == value <==> !StartsFormula(value)
    ensures Mistakable(value) <==> value != "" && value[0] == '\'' && StartsFormula(value[1..])
  {
    assert ("'" + value)[1..] == value;
  }

  // ----- records -----

  // Named secrets, as bytes.
  type Fields = seq<(string, seq<byte>)>

  // The times are as rendered.
  datatype Record = Record(
    kind: Kind, title: Option<string>, tags: seq<string>, attributes: Pairs, fields: Fields,
    notes: Option<seq<byte>>, totp: Option<Otpauth.TotpConfig>, updatedAt: string, createdAt: string)

  function Lookup<V>(pairs: seq<(string, V)>, name: string): Option<V> {
    if pairs == [] then None
    else if pairs[0].0 == name then Some(pairs[0].1)
    else Lookup(pairs[1..], name)
  }

  // A secret's text, when it is one.
  function Exposed(secret: Option<seq<byte>>): Option<string> {
    match secret case None => None case Some(b) => FromUtf8(b)
  }

  function OrElse<V>(a: Option<V>, b: Option<V>): Option<V> {
    if a.Some? then a else b
  }

  function PrimaryFieldFor(kind: Kind): string {
    match kind
    case Login => "password"
    case Totp => "password"
    case Wifi => "passphrase"
    case Api => "secret_key"
    case Ssh => "private_key"
    case Pgp => "private_key"
    case Wallet => "seed"
    case Bank => "account_number"
    case Id => "number"
    case Contact => "notes"
    case Note => "body"
    case Recovery => "payload"
    case Passkey => "private_key"
  }

  // Which kinds keep their main secret under which name.
  lemma PrimaryFieldsAre(kind: Kind)
    ensures PrimaryFieldFor(kind) == "password" <==> kind in {Login, Totp}
    ensures PrimaryFieldFor(kind) == "private_key" <==> kind in {Ssh, Pgp, Passkey}
    ensures PrimaryFieldFor(kind) == "passphrase" <==> kind == Wifi
    ensures PrimaryFieldFor(kind) == "secret_key" <==> kind == Api
    ensures PrimaryFieldFor(kind) == "seed" <==> kind == Wallet
    ensures PrimaryFieldFor(kind) == "account_number" <==> kind == Bank
    ensures PrimaryFieldFor(kind) == "number" <==> kind == Id
    ensures PrimaryFieldFor(kind) == "notes" <==> kind == Contact
    ensures PrimaryFieldFor(kind) == "body" <==> kind == Note
    ensures PrimaryFieldFor(kind) == "payload" <==> kind == Recovery
  {
    assert |PrimaryFieldFor(kind)| == match kind
                                      case Login => 8 case Totp => 8 case Wifi => 10 case Api => 10 case Ssh => 11
                                      case Pgp => 11 case Wallet => 4 case Bank => 14 case Id => 6 case Contact => 5
                                      case Note => 4 case Recovery => 7 case Passkey => 11;
  }

  // The field printed in the Password column.
  function Primary(r: Record): Option<(string, seq<byte>)> {
    var name := PrimaryFieldFor(r.kind);
    var named := Lookup(r.fields, name);
    if named.Some? then Some((name, named.value))
    else if r.fields == [] then None
    else Some(r.fields[0])
  }

  function JoinWith(parts: seq<string>, sep: string): string {
    if parts == [] then ""
    else if |parts| == 1 then parts[0]
    else parts[0] + sep + JoinWith(parts[1..], sep)
  }

  function Group(r: Record): string {
    if r.tags == [] then "Root" else "Root/" + JoinWith(r.tags, "/")
  }

  function Username(r: Record): string {
    OwnText(OrElse(Lookup(r.attributes, "username"), Lookup(r.attributes, "account")))
  }

  function PasswordText(r: Record): string {
    if Primary(r).Some? then OwnText(FromUtf8(Primary(r).value.1)) else ""
  }

  // The attributes the columns do not already show.
  function MetaAttributes(attributes: Pairs): Pairs {
    if attributes == [] then []
    else
      var (k, v) := attributes[|attributes| - 1];
      MetaAttributes(attributes[..|attributes| - 1])
      + (if k != "username" && k != "url" && k != "account" then [(k, v)] else [])
  }

  // The name of the printed field, which the block leaves out.
  predicate IsPrimary(primary: Option<(string, seq<byte>)>, name: string) {
    primary.Some? && name == primary.value.0
  }

  function MetaSecrets(fields: Fields, primary: Option<(string, seq<byte>)>): Pairs {
    if fields == [] then []
    else
      var (name, secret) := fields[|fields| - 1];
      MetaSecrets(fields[..|fields| - 1], primary)
      + (if !IsPrimary(primary, name) && name != "totp" && FromUtf8(secret).Some?
         then [(name, FromUtf8(secret).value)] else [])
  }

  function MetaOf(r: Record): seq<string> {
    MetaLines(r.kind, MetaAttributes(r.attributes), MetaSecrets(r.fields, Primary(r)))
  }

  // The address of a second factor that has both its settings and its seed.
  function TotpCell(r: Record): string {
    match (r.totp, Lookup(r.fields, "totp"))
    case (Some(config), Some(secret)) => Otpauth.Rendered(config, secret, OwnText(r.title), Username(r))
    case _ => ""
  }

  function CellsOf(r: Record): Cells {
    [ Defang(Group(r)),
      Defang(OwnText(r.title)),
      Defang(Username(r)),
      PasswordText(r),
      Defang(OwnText(Lookup(r.attributes, "url"))),
      Defang(NotesCell(Exposed(r.notes), MetaOf(r))),
      TotpCell(r),
      "0",
      r.updatedAt,
      r.createdAt ]
  }

  function AllCells(records: seq<Record>): seq<Cells> {
    if records == [] then [] else AllCells(records[..|records| - 1]) + [CellsOf(records[|records| - 1])]
  }

  const HEADER: Cells :=
    ["Group", "Title", "Username", "Password", "URL", "Notes", "TOTP", "Icon", "Last Modified", "Created"]

  // The header line quotes every name.
  function InQuotes(row: Cells): seq<string> {
    if row == [] then [] else ["\"" + row[0] + "\""] + InQuotes(row[1..])
  }

  function Rendered(records: seq<Record>): string {
    Commas(InQuotes(HEADER)) + "\n" + PrintRows(AllCells(records), "\n")
  }

  // ----- rendering -----

  method MetaFor(r: Record) returns (meta: seq<string>)
    ensures meta == MetaOf(r)
  {
    meta := [];
    if r.kind != Login {
      meta := ["kind: " + KindText(r.kind)];
    }
    var attributes := AttributeLines(r.attributes);
    meta := meta + attributes;
    var secrets := SecretLines(r.fields, Primary(r));
    meta := meta + secrets;
  }

  method AttributeLines(attributes: Pairs) returns (lines: seq<string>)
    ensures lines == PairLines("attr ", MetaAttributes(attributes))
  {
    hide PairLines;
    hide Escape;
    lines := [];
    NoPairNoLine("attr ");
    for i := 0 to |attributes|
      invariant lines == PairLines("attr ", MetaAttributes(attributes[..i]))
    {
      assert attributes[..i + 1][..i] == attributes[..i];
      var (k, v) := attributes[i];
      if k != "username" && k != "url" && k != "account" {
        var escaped := MetaEscape(v);
        PairLinesGrow("attr ", MetaAttributes(attributes[..i]), (k, v));
        lines := lines + ["attr " + k + ": " + escaped];
        assert MetaAttributes(attributes[..i + 1]) == MetaAttributes(attributes[..i]) + [(k, v)];
      } else {
        assert MetaAttributes(attributes[..i + 1]) == MetaAttributes(attributes[..i]);
      }
    }
    assert attributes[..|attributes|] == attributes;
  }

  method SecretLines(fields: Fields, primary: Option<(string, seq<byte>)>) returns (lines: seq<string>)
    ensures lines == PairLines("secret ", MetaSecrets(fields, primary))
  {
    hide FromUtf8;
    hide PairLines;
    hide Escape;
    lines := [];
    NoPairNoLine("secret ");
    for i := 0 to |fields|
      invariant lines == PairLines("secret ", MetaSecrets(fields[..i], primary))
    {
      assert fields[..i + 1][..i] == fields[..i];
      var (name, secret) := fields[i];
      var text := FromUtf8(secret);
      if !IsPrimary(primary, name) && name != "totp" && text.Some? {
        var escaped := MetaEscape(text.value);
        PairLinesGrow("secret ", MetaSecrets(fields[..i], primary), (name, text.value));
        lines := lines + ["secret " + name + ": " + escaped];
        assert MetaSecrets(fields[..i + 1], primary) == MetaSecrets(fields[..i], primary) + [(name, text.value)];
      } else {
        assert MetaSecrets(fields[..i + 1], primary) == MetaSecrets(fields[..i], primary);
      }
    }
    assert fields[..|fields|] == fields;
  }

  lemma NoPairNoLine(keyword: string)
    ensures PairLines(keyword, []) == []
  {
  }

  lemma PairLinesGrow(keyword: string, pairs: Pairs, pair: (string, string))
    ensures PairLines(keyword, pairs + [pair]) == PairLines(keyword, pairs) + [PairLine(keyword, pair)]
  {
    assert (pairs + [pair])[..|pairs|] == pairs;
  }

  method RenderKeepassxc(records: seq<Record>) returns (out: string)
    ensures out == Rendered(records)
  {
    hide CellsOf;
    hide HEADER;
    out := Commas(InQuotes(HEADER)) + "\n";
    ghost var top := out;
    assert out + PrintRows([], "\n") == out;
    for i := 0 to |records|
      invariant out == top + PrintRows(AllCells(records[..i]), "\n")
    {
      assert records[..i + 1][..i] == records[..i];
      var line := LineFor(records[i]);
      PrintRowsGrow(AllCells(records[..i]), CellsOf(records[i]));
      out := out + line;
      out := out + "\n";
    }
    assert records[..|records|] == records;
  }

  method TotpFor(r: Record) returns (cell: string)
    ensures cell == TotpCell(r)
  {
    var secret := Lookup(r.fields, "totp");
    if r.totp.Some? && secret.Some? {
      cell := Otpauth.Render(r.totp.value, secret.value, OwnText(r.title), Username(r));
    } else {
      cell := "";
    }
  }

  method LineFor(r: Record) returns (line: string)
    ensures line == PrintRow(CellsOf(r))
  {
    hide PrintRow;
    hide TotpCell;
    hide FromUtf8;
    var notes := [];
    var own := Exposed(r.notes);
    if own.Some? {
      notes := [own.value];
    }
    var meta := MetaFor(r);
    if meta != [] {
      notes := notes + [META_MARKER + "\n" + Join(meta)];
    }
    var totp := TotpFor(r);
    var cells := [
      Defang(Group(r)), Defang(OwnText(r.title)), Defang(Username(r)), PasswordText(r),
      Defang(OwnText(Lookup(r.attributes, "url"))), Defang(Join(notes)), totp, "0", r.updatedAt, r.createdAt];
    line := PrintRow(cells);
  }

  lemma {:induction false} PrintRowsGrow(rows: seq<Cells>, row: Cells)
    ensures PrintRows(rows + [row], "\n") == PrintRows(rows, "\n") + PrintRow(row) + "\n"
    decreases |rows|
  {
    hide PrintRow;
    if rows == [] {
      assert ([] + [row])[1..] == [];
    } else {
      assert (rows + [row])[1..] == rows[1..] + [row];
      PrintRowsGrow(rows[1..], row);
    }
  }

  // ----- the CSV layer of the round trip -----

  predicate NoQuote(s: string) {
    forall i :: 0 <= i < |s| ==> s[i] != '"'
  }

  lemma {:induction false} DoubledPlain(s: string)
    requires NoQuote(s)
    ensures Doubled(s) == s
  {
    if s != "" {
      assert forall i :: 0 <= i < |s[1..]| ==> s[1..][i] == s[i + 1];
      DoubledPlain(s[1..]);
    }
  }

  lemma {:induction false} InQuotesShows(row: Cells)
    requires forall i :: 0 <= i < |row| ==> NoQuote(row[i])
    ensures ShowsAll(InQuotes(row), row)
  {
    hide Doubled;
    if row != [] {
      DoubledPlain(row[0]);
      InQuotesShows(row[1..]);
    }
  }

  lemma HeaderHasNoQuote()
    ensures forall i :: 0 <= i < |HEADER| ==> NoQuote(HEADER[i])
  {
  }

  lemma {:induction false} AllCellsAre(records: seq<Record>)
    ensures |AllCells(records)| == |records|
    ensures forall i :: 0 <= i < |records| ==> AllCells(records)[i] == CellsOf(records[i])
  {
    hide CellsOf;
    if records != [] {
      AllCellsAre(records[..|records| - 1]);
    }
  }

  lemma RowIsKept(r: Record)
    ensures |CellsOf(r)| == 10 && !AllEmpty(CellsOf(r)) && CellsOf(r)[7] == "0"
  {
    assert CellsOf(r)[7] == "0";
  }

  lemma NoTrailingRow(records: seq<Record>)
    ensures DropTrailing([HEADER] + AllCells(records)) == [HEADER] + AllCells(records)
  {
    hide HEADER;
    hide CellsOf;
    hide AllCells;
    hide DropTrailing;
    HeaderIsLong();
    AllCellsAre(records);
    var all := [HEADER] + AllCells(records);
    if records != [] {
      RowIsKept(records[|records| - 1]);
      assert all[|all| - 1] == CellsOf(records[|records| - 1]);
    }
    DropNone(all);
  }

  lemma RenderedScans(records: seq<Record>)
    ensures Scan(Rendered(records), FRESH) == FRESH.(rows := [HEADER] + AllCells(records))
  {
    hide Scan;
    hide HEADER;
    hide CellsOf;
    hide AllCells;
    hide Commas;
    hide InQuotes;
    hide PrintRows;
    HeaderHasNoQuote();
    HeaderIsLong();
    InQuotesShows(HEADER);
    ScanRow(InQuotes(HEADER), HEADER, "\n", PrintRows(AllCells(records), "\n"), FRESH);
    AllCellsAre(records);
    forall i | 0 <= i < |records| ensures AllCells(records)[i] != [] {
      RowIsKept(records[i]);
    }
    assert PrintRows(AllCells(records), "\n") + "" == PrintRows(AllCells(records), "\n");
    ScanRows(AllCells(records), "\n", "", FRESH.(rows := [HEADER]));
    NothingLeft("", FRESH.(rows := [HEADER] + AllCells(records)));
    assert [] + HEADER == HEADER && [] + [HEADER] == [HEADER];
  }

  // Whatever the records hold, the rendered text parses to the header and one
  // row of cells for each record.
  lemma RenderedParses(records: seq<Record>)
    ensures Parsed(Rendered(records)) == Ok([HEADER] + AllCells(records))
  {
    hide Scan;
    hide HEADER;
    hide AllCells;
    hide DropTrailing;
    hide Commas;
    hide InQuotes;
    hide PrintRows;
    HeaderStart();
    assert Rendered(records)[0] == Commas(InQuotes(HEADER))[0];
    RenderedScans(records);
    NoTrailingRow(records);
  }

  lemma HeaderIsLong()
    ensures HEADER != [] && !AllEmpty(HEADER)
  {
    assert HEADER[0] == "Group";
  }

  lemma HeaderStart()
    ensures Commas(InQuotes(HEADER)) != "" && Commas(InQuotes(HEADER))[0] == '"'
  {
    hide Commas;
    var texts := InQuotes(HEADER);
    assert texts[0] == "\"" + HEADER[0] + "\"";
    CommasStart(texts);
  }

  lemma CommasStart(texts: seq<string>)
    requires texts != [] && texts[0] != ""
    ensures Commas(texts) != "" && Commas(texts)[0] == texts[0][0]
  {
  }
}

// What the KeePassXC importer makes of files other programs write, and under
// which names our own columns stand.
module KeePassReading {
  import opened Wrappers
  import opened Csv
  import opened Substring
  import opened Text
  import opened KeePass
  import opened KeePassImport
  import Otpauth
  import opened MetaBlock

  // ----- our own columns by name -----

  lemma LastColumns()
    ensures HEADER[7..] == ["Icon", "Last Modified", "Created"]
  {
  }

  lemma LaterColumn(n: nat)
    requires 7 <= n < 10
    ensures Position(HEADER, HEADER[n]) == Some(n)
  {
    hide HEADER;
    hide EqIgnoreCase;
    hide Position;
    hide Trim;
    HeaderShape();
    LastColumns();
    assert HEADER == HEADER[..7] + HEADER[7..];
    forall i | 0 <= i < 10 ensures Trim(HEADER[i]) == HEADER[i] {
      TrimTidy(HEADER[i]);
    }
    forall i | 0 <= i < n ensures !EqIgnoreCase(Trim(HEADER[i]), HEADER[n]) {
      Differs(HEADER[i], HEADER[n]);
    }
    PositionIs(HEADER, HEADER[n], n);
  }

  // The times stand under their own names.
  lemma TimesAreNamed(r: Record)
    ensures Get(HEADER, CellsOf(r), "Last Modified") == r.updatedAt
    ensures Get(HEADER, CellsOf(r), "Created") == r.createdAt
    ensures Get(HEADER, CellsOf(r), "Icon") == "0"
  {
    hide HEADER;
    hide Position;
    hide CellsOf;
    HeaderShape();
    LastColumns();
    LaterColumn(7);
    LaterColumn(8);
    LaterColumn(9);
    LastCells(r);
    assert HEADER[7] == HEADER[7..][0] && HEADER[8] == HEADER[7..][1] && HEADER[9] == HEADER[7..][2];
  }

  lemma LastCells(r: Record)
    ensures |CellsOf(r)| == 10 && CellsOf(r)[7] == "0" && CellsOf(r)[8] == r.updatedAt && CellsOf(r)[9] == r.createdAt
  {
    hide Defang;
    hide Group;
    hide Username;
    hide PasswordText;
    hide NotesCell;
    hide MetaOf;
    hide TotpCell;
    hide Exposed;
  }

  // ----- columns of any header -----

  ghost predicate Names(header: Cells, i: nat, name: string) {
    i < |header| && Lowered(Trim(header[i])) == Lowered(name)
  }

  // A column is found by the first name that matches, white space around it
  // and case aside.
  lemma {:induction false} PositionExactly(header: Cells, name: string, n: nat)
    ensures Position(header, name) == Some(n) <==> Names(header, n, name) && forall i: nat :: i < n ==> !Names(header, i, name)
    decreases |header|
  {
    hide Trim;
    hide Lowered;
    if header != [] {
      var rest := header[1..];
      assert forall i: nat :: i < |rest| ==> (Names(rest, i, name) <==> Names(header, i + 1, name));
      if n > 0 {
        PositionExactly(rest, name, n - 1);
        assert Names(header, 0, name) <==> EqIgnoreCase(Trim(header[0]), name);
        if Names(header, n, name) && forall i: nat :: i < n ==> !Names(header, i, name) {
          forall i: nat | i < n - 1 ensures !Names(rest, i, name) {
            assert !Names(header, i + 1, name);
          }
        }
        if Position(header, name) == Some(n) {
          forall i: nat | i < n ensures !Names(header, i, name) {
            if i > 0 {
              assert !Names(rest, i - 1, name);
            }
          }
        }
      }
    }
  }

  lemma {:induction false} NoPosition(header: Cells, name: string)
    ensures Position(header, name) == None <==> forall i: nat :: !Names(header, i, name)
  {
    hide Position;
    if Position(header, name).Some? {
      PositionExactly(header, name, Position(header, name).value);
    }
    if i: nat :| Names(header, i, name) {
      var n := FirstName(header, name, i);
      PositionExactly(header, name, n);
    }
  }

  lemma {:induction false} FirstName(header: Cells, name: string, i: nat) returns (n: nat)
    requires Names(header, i, name)
    ensures Names(header, n, name) && forall j: nat :: j < n ==> !Names(header, j, name)
    decreases i
  {
    hide Names;
    if j: nat :| j < i && Names(header, j, name) {
      n := FirstName(header, name, j);
    } else {
      n := i;
    }
  }

  // A cell is the one under the first such name; without such a name, or in a
  // row too short for it, it is empty.
  lemma CellsRead(header: Cells, cells: Cells, name: string, n: nat)
    requires Names(header, n, name) && forall i: nat :: i < n ==> !Names(header, i, name)
    ensures Get(header, cells, name) == if n < |cells| then cells[n] else ""
  {
    hide Names;
    hide Position;
    PositionExactly(header, name, n);
  }

  lemma NoSuchColumn(header: Cells, cells: Cells, name: string)
    requires forall i: nat :: !Names(header, i, name)
    ensures Get(header, cells, name) == ""
  {
    hide Names;
    hide Position;
    NoPosition(header, name);
  }

  // A file is refused exactly when it is no CSV, has no rows, or names neither
  // a title nor a password.
  lemma RefusedExactly(text: string)
    ensures match Csv.Parsed(text)
            case Err(why) => Imported(text) == Err(BadCsv(why))
            case Ok(rows) =>
              && (Imported(text) == Err(NoRows) <==> rows == [])
              && (Imported(text) == Err(NotKeePass) <==>
                    rows != [] && forall i: nat :: !Names(rows[0], i, "Title") && !Names(rows[0], i, "Password"))
              && (Imported(text).Err? ==> Imported(text).error != BadCsv(EndsInsideQuotes))
  {
    hide Csv.Parsed;
    hide Position;
    hide Names;
    hide ReadRows;
    hide DropBlank;
    if Csv.Parsed(text).Ok? && Csv.Parsed(text).value != [] {
      var header := Csv.Parsed(text).value[0];
      NoPosition(header, "Title");
      NoPosition(header, "Password");
    }
  }

  // ----- blank rows -----

  ghost predicate HasText(row: Cells) {
    exists i, j :: 0 <= i < |row| && 0 <= j < |row[i]| && !IsSpace(row[i][j])
  }

  lemma {:induction false} TrimStartBlank(s: string)
    ensures TrimStart(s) == "" <==> forall j :: 0 <= j < |s| ==> IsSpace(s[j])
  {
    hide IsSpace;
    if s != "" && IsSpace(s[0]) {
      TrimStartBlank(s[1..]);
      assert forall j :: 0 < j < |s| ==> s[j] == s[1..][j - 1];
    }
  }

  lemma {:induction false} TrimEndBlank(s: string)
    ensures TrimEnd(s) == "" <==> forall j :: 0 <= j < |s| ==> IsSpace(s[j])
  {
    hide IsSpace;
    if s != "" && IsSpace(s[|s| - 1]) {
      TrimEndBlank(s[..|s| - 1]);
      assert forall j :: 0 <= j < |s| - 1 ==> s[j] == s[..|s| - 1][j];
    }
  }

  lemma TrimBlank(s: string)
    ensures Trim(s) == "" <==> forall j :: 0 <= j < |s| ==> IsSpace(s[j])
  {
    hide IsSpace;
    hide TrimStart;
    hide TrimEnd;
    TrimEndBlank(s);
    TrimStartBlank(TrimEnd(s));
    var cut := TrimEnd(s);
    if cut != "" {
      assert !IsSpace(cut[|cut| - 1]);
    }
  }

  lemma BlankExactly(row: Cells)
    ensures Blank(row) <==> !HasText(row)
  {
    hide IsSpace;
    hide Trim;
    forall i | 0 <= i < |row| ensures Trim(row[i]) == "" <==> forall j :: 0 <= j < |row[i]| ==> IsSpace(row[i][j]) {
      TrimBlank(row[i]);
    }
  }

  // Of the rows, those with some text are kept, each and in order: `at` says
  // where they stand.
  ghost predicate KeptRows(kept: seq<Cells>, at: seq<nat>, rows: seq<Cells>) {
    && |at| == |kept|
    && (forall k :: 0 <= k < |at| ==> at[k] < |rows|)
    && (forall k :: 0 <= k < |at| ==> kept[k] == rows[at[k]] && HasText(kept[k]))
    && (forall k, l :: 0 <= k < l < |at| ==> at[k] < at[l])
    && (forall i: nat :: i < |rows| && HasText(rows[i]) ==> i in at)
  }

  lemma {:induction false} BlankRowsGo(rows: seq<Cells>) returns (at: seq<nat>)
    ensures KeptRows(DropBlank(rows), at, rows)
    decreases |rows|
  {
    hide HasText;
    hide Blank;
    if rows == [] {
      at := [];
    } else {
      var n := |rows| - 1;
      at := BlankRowsGo(rows[..n]);
      BlankExactly(rows[n]);
      assert forall i :: 0 <= i < n ==> rows[..n][i] == rows[i];
      if HasText(rows[n]) {
        at := at + [n];
      }
    }
  }

  // ----- what is reported of which row -----

  // What is beyond the limits of a record, in bytes.
  ghost predicate TooLarge(b: Rebuilt) {
    || |Utf8(b.title)| > 256
    || |b.tags| > 64
    || (exists t :: t in b.tags && |Utf8(t)| > 128)
    || (exists a :: a in b.attributes && (|Utf8(a.0)| > 128 || |Utf8(a.1)| > 8192))
    || (exists f :: f in b.fields && |f.1| > 262144)
    || (b.notes.Some? && |b.notes.value| > 262144)
    || (b.totp.Some? && (b.totp.value.digits < 6 || b.totp.value.digits > 8 || b.totp.value.step == 0))
  }

  lemma LimitsExactly(b: Rebuilt)
    ensures WithinLimits(b) <==> !TooLarge(b)
  {
    hide Utf8;
    if t :| t in b.tags && |Utf8(t)| > 128 {
      var i :| 0 <= i < |b.tags| && b.tags[i] == t;
    }
  }

  // Rows are numbered from 2, blank ones not counted; a second factor that
  // cannot be read is reported, and so is a record beyond the limits, which
  // alone is left out.
  lemma {:induction false} RowsAreReported(header: Cells, rows: seq<Cells>, m: nat, why: Otpauth.OtpauthError)
    ensures var out := ReadRows(header, rows);
            && (TotpNotImported(m, why) in out.skipped <==>
                  2 <= m < |rows| + 2 && Rebuild(header, rows[m - 2]).1 == Some(why))
            && (OverLimits(m) in out.skipped <==> 2 <= m < |rows| + 2 && TooLarge(Rebuild(header, rows[m - 2]).0))
    decreases |rows|
  {
    hide Rebuild;
    hide WithinLimits;
    hide TooLarge;
    if rows != [] {
      RowsAreReported(header, rows[..|rows| - 1], m, why);
      LimitsExactly(Rebuild(header, rows[|rows| - 1]).0);
    }
  }

  ghost predicate KeptRecords(records: seq<Rebuilt>, at: seq<nat>, header: Cells, rows: seq<Cells>) {
    && |at| == |records|
    && (forall k :: 0 <= k < |at| ==> at[k] < |rows|)
    && (forall k :: 0 <= k < |at| ==> records[k] == Rebuild(header, rows[at[k]]).0 && !TooLarge(records[k]))
    && (forall k, l :: 0 <= k < l < |at| ==> at[k] < at[l])
    && (forall i: nat :: i < |rows| && !TooLarge(Rebuild(header, rows[i]).0) ==> i in at)
  }

  lemma {:induction false} RowsAreImported(header: Cells, rows: seq<Cells>) returns (at: seq<nat>)
    ensures KeptRecords(ReadRows(header, rows).records, at, header, rows)
    decreases |rows|
  {
    hide Rebuild;
    hide WithinLimits;
    hide TooLarge;
    if rows == [] {
      at := [];
    } else {
      var n := |rows| - 1;
      at := RowsAreImported(header, rows[..n]);
      LimitsExactly(Rebuild(header, rows[n]).0);
      assert forall i :: 0 <= i < n ==> rows[..n][i] == rows[i];
      if WithinLimits(Rebuild(header, rows[n]).0) {
        at := at + [n];
      }
    }
  }

  // A row without user name, password, address and secrets of its own is a
  // note, whose body is the notes just as they are.
  lemma BareRowIsNote(c: Columns)
    requires c.username == "" && c.password == "" && c.url == "" && c.meta.secrets == []
    requires c.meta.kind.None? || c.meta.kind.value == Login
    ensures var b := FromColumns(c);
            && b.kind == Note && b.title == c.title && b.notes == None
            && b.fields == if c.notes == "" then [] else [("body", Utf8(c.notes))]
  {
    hide SplitTags;
  }

  // ----- the title of a login without one -----

  predicate Lacks(s: string, c: char) {
    forall i :: 0 <= i < |s| ==> s[i] != c
  }

  // What may stand between the scheme and the path of a web address.
  datatype Site = Site(user: Option<string>, www: bool, host: string, port: Option<string>) {
    function Name(): string {
      (if www then "www." else "") + host
    }

    function Place(): string {
      Name() + (match port case None => "" case Some(p) => ":" + p)
    }

    function Written(): string {
      (match user case None => "" case Some(u) => u + "@") + Place()
    }

    predicate Plain() {
      && host != "" && Lacks(host, '@') && Lacks(host, ':')
      && (!www ==> !("www." <= host))
      && (port.Some? ==> port.value != "" && Lacks(port.value, '@') && Lacks(port.value, ':'))
      && Tidy(Written()) && Lacks(Written(), '/') && Lacks(Written(), '?') && Lacks(Written(), '#')
    }
  }

  predicate IsPath(path: string) {
    path == "" || path[0] == '/' || path[0] == '?' || path[0] == '#'
  }

  // The first `c` is cut off with all that follows, and none is in `a`.
  lemma CutAfter(a: string, p: string, c: char) returns (n: nat)
    requires Lacks(a, c)
    ensures n <= |p| && Before(a + p, [c]) == a + p[..n] && (p != "" && p[0] == c ==> n == 0)
  {
    var s := a + p;
    var found := IndexOf(s, [c], 0);
    IndexOfIsFirst(s, [c], 0, found);
    if p != "" && p[0] == c {
      assert s[|a|..|a| + 1] == [c] && HitAt(s, [c], |a|);
    }
    if found.Some? {
      var h := found.value;
      assert s[h..h + 1][0] == c && s[h] == c && h >= |a|;
      assert s[..h] == a + p[..h - |a|];
      n := h - |a|;
    } else {
      n := |p|;
      assert s == a + p[..n];
    }
  }

  lemma PathIsCut(a: string, path: string)
    requires IsPath(path) && Lacks(a, '/') && Lacks(a, '?') && Lacks(a, '#')
    ensures Before(Before(Before(a + path, "/"), "?"), "#") == a
  {
    hide Before;
    var m := CutAfter(a, path, '/');
    var q := path[..m];
    var n := CutAfter(a, q, '?');
    var r := q[..n];
    var k := CutAfter(a, r, '#');
    assert r[..k] == "";
    assert a + "" == a;
  }

  lemma {:induction false} AfterLastIs(a: string, c: char, b: string)
    requires Lacks(b, c)
    ensures AfterLast(a + [c] + b, c) == b
    decreases |b|
  {
    var s := a + [c] + b;
    if b != "" {
      assert s[..|s| - 1] == a + [c] + b[..|b| - 1];
      AfterLastIs(a, c, b[..|b| - 1]);
    }
  }

  lemma {:induction false} AfterLastNone(b: string, c: char)
    requires Lacks(b, c)
    ensures AfterLast(b, c) == b
  {
    if b != "" {
      AfterLastNone(b[..|b| - 1], c);
    }
  }

  // A second "://" is in the path, so cutting there loses no more than path.
  lemma SchemeIsOver(a: string, path: string) returns (n: nat)
    requires IsPath(path) && Lacks(a, '/') && a != "" && a[|a| - 1] != ':'
    ensures n <= |path| && Before(a + path, "://") == a + path[..n]
  {
    var s := a + path;
    var found := IndexOf(s, "://", 0);
    IndexOfIsFirst(s, "://", 0, found);
    if found.Some? {
      var h := found.value;
      assert s[h..h + 3][0] == s[h] && s[h..h + 3][1] == s[h + 1];
      assert s[h] == ':' && s[h + 1] == '/';
      assert h >= |a|;
      assert s[..h] == a + path[..h - |a|];
      n := h - |a|;
    } else {
      n := |path|;
      assert s == a + path[..n];
    }
  }

  lemma PlaceIsRead(site: Site)
    requires site.Plain()
    ensures Before(AfterLast(site.Written(), '@'), ":") == site.Name()
  {
    hide Before;
    hide AfterLast;
    var place := site.Place();
    assert Lacks(place, '@');
    PortIsCut(site);
    match site.user
    case None =>
      assert site.Written() == place;
      AfterLastNone(place, '@');
    case Some(u) =>
      assert site.Written() == u + ['@'] + place;
      AfterLastIs(u, '@', place);
  }

  lemma PortIsCut(site: Site)
    requires site.Plain()
    ensures Before(site.Place(), ":") == site.Name()
  {
    hide Before;
    var p := match site.port case None => "" case Some(p) => ":" + p;
    var n := CutAfter(site.Name(), p, ':');
    assert site.Name() + p[..n] == site.Name();
  }

  lemma SiteEnds(site: Site)
    requires site.Plain()
    ensures site.Written() != "" && site.Written()[|site.Written()| - 1] != ':'
  {
    var last := site.Written()[|site.Written()| - 1];
    match site.port
    case None => assert last == site.host[|site.host| - 1];
    case Some(p) => assert last == p[|p| - 1];
  }

  // The host of a web address, without user, port, path and a leading "www.".
  lemma HostReads(scheme: string, site: Site, path: string)
    requires Lacks(scheme, ':') && site.Plain() && IsPath(path)
    ensures HostOf(scheme + "://" + site.Written() + path) == Some(site.host)
  {
    hide Before;
    hide AfterLast;
    hide IndexOf;
    hide Trim;
    hide Site.Written;
    var a := site.Written();
    var url := scheme + "://" + a + path;
    SchemeStands(scheme, a + path);
    assert url == scheme + "://" + (a + path);
    SiteEnds(site);
    var n := SchemeIsOver(a, path);
    PathIsCut(a, path[..n]);
    PlaceIsRead(site);
    assert site.www ==> site.Name()[4..] == site.host && "www." <= site.Name();
    assert !site.www ==> site.Name() == site.host;
  }

  lemma SchemeStands(scheme: string, rest: string)
    requires Lacks(scheme, ':')
    ensures var url := scheme + "://" + rest;
            IndexOf(url, "://", 0) == Some(|scheme|) && url[|scheme| + 3..] == rest
  {
    var url := scheme + "://" + rest;
    forall k | 0 <= k < |scheme| ensures !HitAt(url, "://", k) {
      assert url[k..k + 3][0] == url[k] == scheme[k];
    }
    assert url[|scheme|..|scheme| + 3] == "://";
    IndexOfIsFirst(url, "://", 0, Some(|scheme|));
  }

  // A login whose title is blank is called after its address.
  lemma UntitledLoginIsItsHost(c: Columns, scheme: string, site: Site, path: string)
    requires Lacks(scheme, ':') && site.Plain() && IsPath(path) && c.url == scheme + "://" + site.Written() + path
    requires Trim(c.title) == "" && (c.meta.kind.None? || c.meta.kind.value == Login)
    ensures FromColumns(c).kind == Login && FromColumns(c).title == site.host
  {
    hide HostOf;
    hide Trim;
    hide SplitTags;
    HostReads(scheme, site, path);
    assert c.url != "";
  }
}

// When the meta block's reader undoes its printer.
module MetaRoundTrip {
  import opened Wrappers
  import opened Substring
  import opened Text
  import opened MetaBlock

  // ----- the condition -----

  ghost predicate OneLine(s: string) {
    forall i :: 0 <= i < |s| ==> s[i] != '\n'
  }

  // A name the reader can tell from its value.
  ghost predicate Plain(name: string) {
    OneLine(name) && IndexOf(name, ": ", 0) == None
  }

  // White space that survives escaping as itself.
  predicate Fades(c: char) {
    IsSpace(c) && c != '\n' && c != '\r'
  }

  // A value trimming a line cannot reach: some last character, and one that
  // is not white space once escaped.
  predicate Firm(value: string) {
    value != "" && !Fades(value[|value| - 1])
  }

  ghost predicate PlainNames(pairs: Pairs) {
    forall i :: 0 <= i < |pairs| ==> Plain(pairs[i].0)
  }

  ghost predicate FirmValues(pairs: Pairs) {
    forall i :: 0 <= i < |pairs| ==> Firm(pairs[i].1)
  }

  // ----- one line -----

  // The value with its fading tail gone.
  function DropTail(v: string): string {
    if v != "" && Fades(v[|v| - 1]) then DropTail(v[..|v| - 1]) else v
  }

  lemma TrimOne(s: string, c: char)
    ensures TrimEnd(s + [c]) == if IsSpace(c) then TrimEnd(s) else s + [c]
  {
    assert (s + [c])[..|s|] == s;
  }

  lemma {:induction false} TrimEscaped(p: string, v: string)
    ensures TrimEnd(p + Escape(v)) == if DropTail(v) == "" then TrimEnd(p) else p + Escape(DropTail(v))
    decreases |v|
  {
    hide TrimEnd;
    if v == "" {
      assert p + Escape(v) == p;
    } else {
      var rest, c := v[..|v| - 1], v[|v| - 1];
      var e := Escaped(c);
      assert p + Escape(v) == (p + Escape(rest) + e[..|e| - 1]) + [e[|e| - 1]];
      TrimOne(p + Escape(rest) + e[..|e| - 1], e[|e| - 1]);
      if Fades(c) {
        assert p + Escape(rest) + e[..|e| - 1] == p + Escape(rest);
        TrimEscaped(p, rest);
      }
    }
  }

  lemma OneLineHasNoMark(s: string)
    requires Plain(s)
    ensures forall k :: 0 <= k ==> !HitAt(s, ": ", k)
  {
    IndexOfIsFirst(s, ": ", 0, None);
  }

  // The first ": " after a plain name is the printer's own.
  lemma NameEnds(name: string, rest: string)
    requires Plain(name)
    ensures SplitOnce(name + ": " + rest) == Some((name, rest))
  {
    var s := name + ": " + rest;
    OneLineHasNoMark(name);
    forall k | 0 <= k < |name| ensures !HitAt(s, ": ", k) {
      if k + 2 <= |name| {
        assert s[k..k + 2] == name[k..k + 2];
        assert !HitAt(name, ": ", k);
      } else {
        assert s[k..k + 2][1] == s[k + 1] == ':';
      }
    }
    assert HitAt(s, ": ", |name|);
    IndexOfIsFirst(s, ": ", 0, Some(|name|));
    assert s[..|name|] == name && s[|name| + 2..] == rest;
  }

  lemma NameAlone(name: string)
    requires Plain(name)
    ensures SplitOnce(name + ":") == None
  {
    var s := name + ":";
    OneLineHasNoMark(name);
    forall k | 0 <= k ensures !HitAt(s, ": ", k) {
      if k + 2 <= |name| {
        assert s[k..k + 2] == name[k..k + 2];
        assert !HitAt(name, ": ", k);
      } else if k + 2 <= |s| {
        assert s[k..k + 2][1] == ':';
      }
    }
    IndexOfIsFirst(s, ": ", 0, None);
  }

  // What a printed pair comes back as.
  function Returned(pair: (string, string)): Pairs {
    if DropTail(pair.1) == "" then [] else [(pair.0, DropTail(pair.1))]
  }

  lemma PairReturns(keyword: string, pair: (string, string))
    requires Plain(pair.0)
    ensures keyword <= TrimEnd(PairLine(keyword, pair))
    ensures Entry(TrimEnd(PairLine(keyword, pair))[|keyword|..]) == Returned(pair)
  {
    hide TrimEnd;
    hide Escape;
    hide SplitOnce;
    var (name, v) := pair;
    var p := keyword + name + ": ";
    TrimEscaped(p, v);
    var line := TrimEnd(PairLine(keyword, pair));
    if DropTail(v) == "" {
      TrimColon(keyword + name);
      assert line == keyword + (name + ":");
      assert line[|keyword|..] == name + ":";
      NameAlone(name);
    } else {
      var e := Escape(DropTail(v));
      assert line == keyword + (name + ": " + e);
      assert line[|keyword|..] == name + ": " + e;
      NameEnds(name, e);
      UnescapeUndoesEscape(DropTail(v));
    }
  }

  lemma TrimColon(s: string)
    ensures TrimEnd(s + ": ") == s + ":"
  {
    var t := s + ": ";
    assert t[..|t| - 1] == s + ":";
    assert !IsSpace((s + ":")[|s|]);
    assert TrimEnd(s + ":") == s + ":";
  }

  lemma FirstLetterTells(line: string)
    ensures "attr " <= line ==> !("kind: " <= line) && !("secret " <= line)
    ensures "secret " <= line ==> !("kind: " <= line) && !("attr " <= line)
  {
    assert "attr "[0] == 'a' && "secret "[0] == 's' && "kind: "[0] == 'k';
  }

  lemma AttrLineReads(meta: NoteMeta, pair: (string, string))
    requires Plain(pair.0)
    ensures ReadLine(meta, PairLine("attr ", pair)) == meta.(attributes := meta.attributes + Returned(pair))
  {
    hide TrimEnd;
    hide PairLine;
    hide Entry;
    PairReturns("attr ", pair);
    FirstLetterTells(TrimEnd(PairLine("attr ", pair)));
  }

  lemma SecretLineReads(meta: NoteMeta, pair: (string, string))
    requires Plain(pair.0)
    ensures ReadLine(meta, PairLine("secret ", pair)) == meta.(secrets := meta.secrets + Returned(pair))
  {
    hide TrimEnd;
    hide PairLine;
    hide Entry;
    PairReturns("secret ", pair);
    FirstLetterTells(TrimEnd(PairLine("secret ", pair)));
  }

  lemma KindLineReads(meta: NoteMeta, kind: Kind)
    ensures ReadLine(meta, "kind: " + KindText(kind)) == meta.(kind := Some(kind))
  {
    hide ParseKind;
    var t := KindText(kind);
    KindTextIsLower(kind);
    assert t != "" && !IsSpace(t[0]) && !IsSpace(t[|t| - 1]);
    var line := "kind: " + t;
    assert line[|line| - 1] == t[|t| - 1];
    assert TrimEnd(line) == line && line[6..] == t;
    assert Trim(t) == t;
    ParseKindUndoesText(kind);
  }

  // ----- all the lines -----

  function ReturnedAll(pairs: Pairs): Pairs {
    if pairs == [] then [] else ReturnedAll(pairs[..|pairs| - 1]) + Returned(pairs[|pairs| - 1])
  }

  lemma {:induction false} ReadLinesSplits(meta: NoteMeta, a: seq<string>, b: seq<string>)
    ensures ReadLines(meta, a + b) == ReadLines(ReadLines(meta, a), b)
    decreases |b|
  {
    hide ReadLine;
    if b == [] {
      assert a + b == a;
    } else {
      assert (a + b)[..|a + b| - 1] == a + b[..|b| - 1];
      ReadLinesSplits(meta, a, b[..|b| - 1]);
    }
  }

  lemma {:induction false} AttrLinesRead(meta: NoteMeta, pairs: Pairs)
    requires PlainNames(pairs)
    ensures ReadLines(meta, PairLines("attr ", pairs)) == meta.(attributes := meta.attributes + ReturnedAll(pairs))
    decreases |pairs|
  {
    hide ReadLine;
    hide PairLine;
    hide Returned;
    hide Plain;
    if pairs == [] {
      assert meta.attributes + [] == meta.attributes;
    } else {
      var n := |pairs| - 1;
      AttrLinesRead(meta, pairs[..n]);
      var lines := PairLines("attr ", pairs);
      assert lines[..|lines| - 1] == PairLines("attr ", pairs[..n]);
      AttrLineReads(ReadLines(meta, PairLines("attr ", pairs[..n])), pairs[n]);
    }
  }

  lemma {:induction false} SecretLinesRead(meta: NoteMeta, pairs: Pairs)
    requires PlainNames(pairs)
    ensures ReadLines(meta, PairLines("secret ", pairs)) == meta.(secrets := meta.secrets + ReturnedAll(pairs))
    decreases |pairs|
  {
    hide ReadLine;
    hide PairLine;
    hide Returned;
    hide Plain;
    if pairs == [] {
      assert meta.secrets + [] == meta.secrets;
    } else {
      var n := |pairs| - 1;
      SecretLinesRead(meta, pairs[..n]);
      var lines := PairLines("secret ", pairs);
      assert lines[..|lines| - 1] == PairLines("secret ", pairs[..n]);
      SecretLineReads(ReadLines(meta, PairLines("secret ", pairs[..n])), pairs[n]);
    }
  }

  function KindBack(kind: Kind): Option<Kind> {
    if kind == Login then None else Some(kind)
  }

  lemma MetaLinesRead(kind: Kind, attributes: Pairs, secrets: Pairs)
    requires PlainNames(attributes) && PlainNames(secrets)
    ensures ReadLines(NO_META, MetaLines(kind, attributes, secrets))
         == NoteMeta(KindBack(kind), ReturnedAll(attributes), ReturnedAll(secrets))
  {
    hide ReadLine;
    hide PairLines;
    hide ReturnedAll;
    var a := if kind == Login then [] else ["kind: " + KindText(kind)];
    var b, c := PairLines("attr ", attributes), PairLines("secret ", secrets);
    KindLineReads(NO_META, kind);
    var first := NO_META.(kind := KindBack(kind));
    assert ReadLines(NO_META, a) == first by {
      if kind != Login {
        assert a[..0] == [];
        assert ReadLines(NO_META, []) == NO_META;
      }
    }
    ReadLinesSplits(NO_META, a, b);
    AttrLinesRead(first, attributes);
    ReadLinesSplits(NO_META, a + b, c);
    SecretLinesRead(first.(attributes := ReturnedAll(attributes)), secrets);
    assert [] + ReturnedAll(attributes) == ReturnedAll(attributes);
    assert [] + ReturnedAll(secrets) == ReturnedAll(secrets);
  }

  // ----- the block as physical lines -----

  // A line `Lines` gives back as it is.
  ghost predicate Physical(line: string) {
    line != "" && OneLine(line) && line[|line| - 1] != '\r'
  }

  lemma {:induction false} LinesUndoJoin(lines: seq<string>)
    requires forall i :: 0 <= i < |lines| ==> Physical(lines[i])
    ensures Lines(Join(lines)) == lines
    decreases |lines|
  {
    hide IndexOf;
    if lines != [] {
      assert Physical(lines[0]);
      if |lines| == 1 {
        FirstSeparator(lines[0], '\n', "");
        assert lines == [lines[0]];
      } else {
        var rest := Join(lines[1..]);
        FirstSeparator(lines[0], '\n', rest);
        var s := lines[0] + "\n" + rest;
        assert Join(lines) == s && s[..|lines[0]|] == lines[0] && s[|lines[0]| + 1..] == rest;
        LinesUndoJoin(lines[1..]);
        assert lines == [lines[0]] + lines[1..];
      }
    }
  }

  lemma PairLineIsPhysical(keyword: string, pair: (string, string))
    requires OneLine(keyword) && OneLine(pair.0)
    ensures Physical(PairLine(keyword, pair))
  {
    EscapeIsOneLine(pair.1);
    var e := Escape(pair.1);
    var line := PairLine(keyword, pair);
    assert line == (keyword + pair.0 + ": ") + e;
    assert line[|line| - 1] == if e == "" then ' ' else e[|e| - 1];
  }

  lemma {:induction false} PairLinesArePhysical(keyword: string, pairs: Pairs)
    requires OneLine(keyword) && forall i :: 0 <= i < |pairs| ==> OneLine(pairs[i].0)
    ensures forall i :: 0 <= i < |PairLines(keyword, pairs)| ==> Physical(PairLines(keyword, pairs)[i])
    decreases |pairs|
  {
    hide PairLine;
    hide Physical;
    if pairs != [] {
      PairLinesArePhysical(keyword, pairs[..|pairs| - 1]);
      PairLineIsPhysical(keyword, pairs[|pairs| - 1]);
    }
  }

  lemma MetaLinesArePhysical(kind: Kind, attributes: Pairs, secrets: Pairs)
    requires PlainNames(attributes) && PlainNames(secrets)
    ensures forall i :: 0 <= i < |MetaLines(kind, attributes, secrets)| ==> Physical(MetaLines(kind, attributes, secrets)[i])
  {
    hide PairLines;
    forall i | 0 <= i < |attributes| ensures OneLine(attributes[i].0) { assert Plain(attributes[i].0); }
    forall i | 0 <= i < |secrets| ensures OneLine(secrets[i].0) { assert Plain(secrets[i].0); }
    PairLinesArePhysical("attr ", attributes);
    PairLinesArePhysical("secret ", secrets);
    KindTextIsLower(kind);
    assert Physical("kind: " + KindText(kind));
  }

  // ----- finding the block -----

  ghost predicate Unmarked(s: string) {
    IndexOf(s, META_MARKER, 0) == None
  }

  lemma MarkerHasNoNewline(k: int)
    requires 0 <= k < |META_MARKER|
    ensures META_MARKER[k] != '\n'
  {
  }

  // The printer's marker is the first one when the notes hold none.
  lemma MarkerFound(own: string, tail: string)
    requires Unmarked(own)
    ensures IndexOf(own + "\n" + META_MARKER + tail, META_MARKER, 0) == Some(|own| + 1)
  {
    hide META_MARKER;
    var s := own + "\n" + META_MARKER + tail;
    assert s[|own|] == '\n' by {
      assert s == own + ("\n" + (META_MARKER + tail));
    }
    assert s == (own + "\n") + (META_MARKER + tail);
    IndexOfIsFirst(own, META_MARKER, 0, None);
    forall k | 0 <= k < |own| + 1 ensures !HitAt(s, META_MARKER, k) {
      if k + |META_MARKER| <= |own| {
        assert s[k..k + |META_MARKER|] == own[k..k + |META_MARKER|];
        assert !HitAt(own, META_MARKER, k);
      } else {
        MarkerIsLong();
        MarkerHasNoNewline(|own| - k);
        assert s[k..k + |META_MARKER|][|own| - k] == s[|own|] == '\n';
      }
    }
    assert s[|own| + 1..|own| + 1 + |META_MARKER|] == META_MARKER;
    IndexOfIsFirst(s, META_MARKER, 0, Some(|own| + 1));
  }

  lemma MarkerIsLong()
    ensures |META_MARKER| == 11
  {
  }

  lemma MarkerFirst(tail: string)
    ensures IndexOf(META_MARKER + tail, META_MARKER, 0) == Some(0)
  {
    assert (META_MARKER + tail)[0..|META_MARKER|] == META_MARKER;
  }

  // A marker in the notes is found there, block or no block.
  lemma MarkerInNotes(own: string, tail: string)
    requires !Unmarked(own)
    ensures IndexOf(own + tail, META_MARKER, 0) == IndexOf(own, META_MARKER, 0)
  {
    IndexOfExtends(own, tail, META_MARKER, IndexOf(own, META_MARKER, 0).value);
  }

  // ----- the whole column -----

  function OwnText(notes: Option<string>): string {
    if notes.Some? then notes.value else ""
  }

  function Block(meta: seq<string>): string {
    META_MARKER + "\n" + Join(meta)
  }

  function CellText(notes: Option<string>, meta: seq<string>): string {
    if meta == [] then OwnText(notes)
    else if notes.None? then Block(meta)
    else notes.value + "\n" + Block(meta)
  }

  lemma NotesCellIs(notes: Option<string>, meta: seq<string>)
    ensures NotesCell(notes, meta) == CellText(notes, meta)
  {
    hide META_MARKER;
    var block := Block(meta);
    assert Join([block]) == block;
    if notes.Some? {
      assert [notes.value] + [block] == [notes.value, block] && [notes.value, block][1..] == [block];
      assert Join([notes.value, block]) == notes.value + "\n" + block;
    } else {
      assert [] + [block] == [block];
    }
  }

  ghost predicate AllPhysical(meta: seq<string>) {
    forall i :: 0 <= i < |meta| ==> Physical(meta[i])
  }

  lemma BlockLines(meta: seq<string>)
    requires meta != [] && AllPhysical(meta)
    ensures Lines(Block(meta)) == [META_MARKER] + meta
  {
    hide Lines;
    var all := [META_MARKER] + meta;
    assert all[1..] == meta;
    assert Join(all) == Block(meta);
    assert Physical(META_MARKER);
    LinesUndoJoin(all);
  }

  lemma BlockAloneReads(meta: seq<string>)
    requires meta != [] && AllPhysical(meta)
    ensures SplitOff(Block(meta)) == (ReadLines(NO_META, meta), "")
  {
    hide META_MARKER;
    hide Lines;
    hide Physical;
    hide ReadLines;
    BlockLines(meta);
    MarkerFirst("\n" + Join(meta));
    assert Block(meta) == META_MARKER + ("\n" + Join(meta));
    assert ([META_MARKER] + meta)[1..] == meta;
    assert Block(meta)[0..] == Block(meta) && TrimEnd(Block(meta)[..0]) == "";
  }

  lemma BlockAfterNotesReads(own: string, meta: seq<string>)
    requires meta != [] && AllPhysical(meta) && Unmarked(own)
    ensures SplitOff(own + "\n" + Block(meta)) == (ReadLines(NO_META, meta), TrimEnd(own))
  {
    hide META_MARKER;
    hide Lines;
    hide Physical;
    hide ReadLines;
    hide TrimEnd;
    BlockLines(meta);
    MarkerFound(own, "\n" + Join(meta));
    TrimOne(own, '\n');
    var cell := own + "\n" + Block(meta);
    assert cell == own + "\n" + META_MARKER + ("\n" + Join(meta));
    assert ([META_MARKER] + meta)[1..] == meta;
    assert cell[|own| + 1..] == Block(meta) && cell[..|own| + 1] == own + ['\n'];
  }

  // What comes back, exactly, when names are plain and the notes unmarked.
  lemma CellReads(notes: Option<string>, kind: Kind, attributes: Pairs, secrets: Pairs)
    requires PlainNames(attributes) && PlainNames(secrets) && Unmarked(OwnText(notes))
    ensures var meta, own := MetaLines(kind, attributes, secrets), OwnText(notes);
            (SplitOff(NotesCell(notes, meta))
             == (NoteMeta(KindBack(kind), ReturnedAll(attributes), ReturnedAll(secrets)),
                 if meta == [] then own else TrimEnd(own)))
  {
    hide META_MARKER;
    hide ReturnedAll;
    hide Block;
    hide MetaLines;
    hide NotesCell;
    hide PlainNames;
    hide Physical;
    hide ReadLine;
    hide Lines;
    var meta := MetaLines(kind, attributes, secrets);
    MetaLinesRead(kind, attributes, secrets);
    NotesCellIs(notes, meta);
    if meta != [] {
      MetaLinesArePhysical(kind, attributes, secrets);
      if notes.None? {
        BlockAloneReads(meta);
        MarkerNotInNothing();
      } else {
        BlockAfterNotesReads(notes.value, meta);
      }
    }
  }

  ghost predicate Clean(notes: Option<string>, kind: Kind, attributes: Pairs, secrets: Pairs) {
    var own := OwnText(notes);
    && Unmarked(own)
    && (MetaLines(kind, attributes, secrets) != [] && own != "" ==> !IsSpace(own[|own| - 1]))
    && PlainNames(attributes) && PlainNames(secrets)
    && FirmValues(attributes) && FirmValues(secrets)
  }

  // The column comes back as it went in exactly when it is clean: no marker
  // in the notes and nothing trimmable at their end, names without a newline
  // or ": ", and values that trimming cannot shorten.
  lemma SplitUndoesPrint(notes: Option<string>, kind: Kind, attributes: Pairs, secrets: Pairs)
    ensures SplitOff(NotesCell(notes, MetaLines(kind, attributes, secrets)))
         == (NoteMeta(KindBack(kind), attributes, secrets), OwnText(notes))
       <==> Clean(notes, kind, attributes, secrets)
  {
    hide SplitOff;
    hide MetaLines;
    hide PlainNames;
    hide FirmValues;
    hide NotesCell;
    var meta, own := MetaLines(kind, attributes, secrets), OwnText(notes);
    var want := (NoteMeta(KindBack(kind), attributes, secrets), own);
    FirmExactlyWhenReturned(attributes);
    FirmExactlyWhenReturned(secrets);
    UntrimmedExactly(own);
    if Unmarked(own) && PlainNames(attributes) && PlainNames(secrets) {
      CellReads(notes, kind, attributes, secrets);
    } else if SplitOff(NotesCell(notes, meta)) == want {
      NamesComeBackPlain(NotesCell(notes, meta));
      MarkedNotesAreCut(notes, meta);
      assert false;
    }
  }

  lemma UntrimmedExactly(s: string)
    ensures TrimEnd(s) == s <==> s == "" || !IsSpace(s[|s| - 1])
  {
  }

  lemma {:induction false} FirmExactlyWhenReturned(pairs: Pairs)
    ensures ReturnedAll(pairs) == pairs <==> FirmValues(pairs)
    ensures |ReturnedAll(pairs)| <= |pairs|
    decreases |pairs|
  {
    if pairs != [] {
      var n := |pairs| - 1;
      var rest, last := pairs[..n], pairs[n];
      FirmExactlyWhenReturned(rest);
      TailDroppedExactly(last.1);
      var back := ReturnedAll(rest);
      assert pairs == rest + [last];
      assert FirmValues(pairs) <==> FirmValues(rest) && Firm(last.1) by {
        assert forall i :: 0 <= i < n ==> rest[i] == pairs[i];
      }
      if ReturnedAll(pairs) == pairs {
        assert |back + Returned(last)| == n + 1;
        assert |Returned(last)| == 1;
        assert (back + Returned(last))[n] == last;
        assert back == pairs[..n];
      }
    }
  }

  lemma {:induction false} TailDroppedExactly(v: string)
    ensures |DropTail(v)| <= |v|
    ensures DropTail(v) == v && v != "" <==> Firm(v)
    decreases |v|
  {
    if v != "" && Fades(v[|v| - 1]) {
      TailDroppedExactly(v[..|v| - 1]);
    }
  }

  // ----- what can never come back -----

  lemma MarkedNotesAreCut(notes: Option<string>, meta: seq<string>)
    ensures SplitOff(NotesCell(notes, meta)).1 == OwnText(notes) ==> Unmarked(OwnText(notes))
  {
    hide META_MARKER;
    var own := OwnText(notes);
    NotesCellIs(notes, meta);
    if !Unmarked(own) {
      var tail := if meta == [] then "" else "\n" + Block(meta);
      if notes.None? {
        MarkerNotInNothing();
      } else {
        assert CellText(notes, meta) == own + tail;
        MarkerInNotes(own, tail);
        MarkerIsLong();
        var at := IndexOf(own, META_MARKER, 0).value;
        assert |TrimEnd((own + tail)[..at])| <= at < |own|;
      }
    }
  }

  lemma MarkerNotInNothing()
    ensures Unmarked("")
  {
  }

  lemma HitInPrefix(s: string, h: nat, k: nat)
    requires h <= |s|
    ensures HitAt(s[..h], ": ", k) ==> k < h && HitAt(s, ": ", k)
  {
    if k + 2 <= h {
      assert s[..h][k..k + 2] == s[k..k + 2];
    }
  }

  lemma PlainBeforeMark(rest: string)
    requires OneLine(rest)
    ensures PlainNames(Entry(rest))
  {
    hide HitAt;
    hide IndexOf;
    if h :| IndexOf(rest, ": ", 0) == Some(h) {
      var name := rest[..h];
      IndexOfIsFirst(rest, ": ", 0, Some(h));
      forall k: nat ensures !HitAt(name, ": ", k) {
        HitInPrefix(rest, h, k);
        assert k < h ==> !HitAt(rest, ": ", k);
      }
      IndexOfIsFirst(name, ": ", 0, None);
      assert Plain(name);
    }
  }

  ghost predicate PlainMeta(meta: NoteMeta) {
    PlainNames(meta.attributes) && PlainNames(meta.secrets)
  }

  lemma LineKeepsPlain(meta: NoteMeta, raw: string)
    requires PlainMeta(meta) && OneLine(raw)
    ensures PlainMeta(ReadLine(meta, raw))
  {
    hide Plain;
    hide Entry;
    var line := TrimEnd(raw);
    assert OneLine(line);
    if "attr " <= line {
      PlainBeforeMark(line[5..]);
    }
    if "secret " <= line {
      PlainBeforeMark(line[7..]);
    }
  }

  lemma {:induction false} LinesKeepPlain(lines: seq<string>)
    requires forall i :: 0 <= i < |lines| ==> OneLine(lines[i])
    ensures PlainMeta(ReadLines(NO_META, lines))
    decreases |lines|
  {
    hide ReadLine;
    if lines != [] {
      LinesKeepPlain(lines[..|lines| - 1]);
      LineKeepsPlain(ReadLines(NO_META, lines[..|lines| - 1]), lines[|lines| - 1]);
    }
  }

  lemma NoBreakBefore(s: string, n: nat)
    requires n <= |s| && forall k :: 0 <= k < n ==> !HitAt(s, "\n", k)
    ensures OneLine(s[..n])
  {
    forall i | 0 <= i < n ensures s[..n][i] != '\n' {
      assert s[i..i + 1] == [s[i]];
      assert !HitAt(s, "\n", i);
    }
  }

  lemma {:induction false} LinesAreOneLine(s: string)
    ensures forall i :: 0 <= i < |Lines(s)| ==> OneLine(Lines(s)[i])
    decreases |s|
  {
    hide IndexOf;
    hide HitAt;
    if s != "" {
      var r := IndexOf(s, "\n", 0);
      BreakIsFirst(s);
      if r.Some? {
        LinesAreOneLine(s[r.value + 1..]);
      } else {
        assert s[..|s|] == s;
      }
    }
  }

  lemma BreakIsFirst(s: string)
    ensures var r := IndexOf(s, "\n", 0);
            OneLine(s[..if r.Some? then r.value else |s|])
  {
    var r := IndexOf(s, "\n", 0);
    IndexOfIsFirst(s, "\n", 0, r);
    NoBreakBefore(s, if r.Some? then r.value else |s|);
  }

  lemma NamesComeBackPlain(cell: string)
    ensures PlainMeta(SplitOff(cell).0)
  {
    hide Lines;
    hide ReadLines;
    hide META_MARKER;
    var found := IndexOf(cell, META_MARKER, 0);
    if found.Some? {
      LinesAreOneLine(cell[found.value..]);
      var lines := Lines(cell[found.value..]);
      LinesKeepPlain(if lines == [] then [] else lines[1..]);
    }
  }
}

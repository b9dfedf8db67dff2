// The streaming record splitter of desktop/src/datastream.cpp.
//
// A pipe delivers a stream in chunks whose boundaries mean nothing. The parser
// keeps what it has not yet been able to cut in a buffer, and must emit the
// same records however the stream was chunked.
module SplitParser {
  import opened Wrappers
  import opened Substring

  // ----- what a whole stream means -----

  // The pieces of `s` between leftmost, non-overlapping markers; the last one
  // is whatever follows the last marker.
  function Pieces(s: string, m: string): (ps: seq<string>)
    requires m != ""
    ensures ps != []
    decreases |s|
  {
    match IndexOf(s, m, 0)
    case None => [s]
    case Some(h) => [s[..h]] + Pieces(s[h + |m|..], m)
  }

  function NonEmpty(ps: seq<string>): seq<string> {
    if ps == [] then []
    else if ps[0] == "" then NonEmpty(ps[1..])
    else [ps[0]] + NonEmpty(ps[1..])
  }

  // The records a stream stands for. Without a marker nothing can be cut.
  function Records(s: string, m: string): seq<string> {
    NonEmpty(if m == "" then [s] else Pieces(s, m))
  }

  // The records a buffer already completes, and what it must hold back.
  function Completed(s: string, m: string): seq<string>
    decreases |s|
  {
    if m == "" then [] else
    match IndexOf(s, m, 0)
    case None => []
    case Some(h) => (if h == 0 then [] else [s[..h]]) + Completed(s[h + |m|..], m)
  }

  function Held(s: string, m: string): string
    decreases |s|
  {
    if m == "" then s else
    match IndexOf(s, m, 0)
    case None => s
    case Some(h) => Held(s[h + |m|..], m)
  }

  lemma {:induction false} NonEmptyAppend(ps: seq<string>, qs: seq<string>)
    ensures NonEmpty(ps + qs) == NonEmpty(ps) + NonEmpty(qs)
  {
    if ps == [] {
      assert ps + qs == qs;
    } else {
      assert (ps + qs)[1..] == ps[1..] + qs;
      NonEmptyAppend(ps[1..], qs);
    }
  }

  lemma {:induction false} RecordsAreCompletedAndHeld(s: string, m: string)
    ensures Records(s, m) == Completed(s, m) + NonEmpty([Held(s, m)])
    decreases |s|
  {
    if m != "" && IndexOf(s, m, 0).Some? {
      var h := IndexOf(s, m, 0).value;
      RecordsAreCompletedAndHeld(s[h + |m|..], m);
      NonEmptyAppend([s[..h]], Pieces(s[h + |m|..], m));
    }
  }

  // Cutting the stream after `a` changes nothing, even inside a marker.
  lemma {:induction false} CutAnywhere(a: string, b: string, m: string)
    ensures Completed(a + b, m) == Completed(a, m) + Completed(Held(a, m) + b, m)
    ensures Held(a + b, m) == Held(Held(a, m) + b, m)
    decreases |a|
  {
    hide HitAt;
    hide IndexOf;
    hide Completed;
    hide Held;
    if m != "" && IndexOf(a, m, 0).Some? {
      var h := IndexOf(a, m, 0).value;
      var rest := a[h + |m|..];
      CutAnywhere(rest, b, m);
      IndexOfExtends(a, b, m, h);
      assert (a + b)[..h] == a[..h] && (a + b)[h + |m|..] == rest + b;
      CutFirst(a, m, h);
      CutFirst(a + b, m, h);
      var first, held := if h == 0 then [] else [a[..h]], Held(rest, m) + b;
      assert first + (Completed(rest, m) + Completed(held, m)) == (first + Completed(rest, m)) + Completed(held, m);
    } else {
      NothingCut(a, m);
      assert [] + Completed(a + b, m) == Completed(a + b, m);
    }
  }

  lemma NothingCut(s: string, m: string)
    requires m == "" || IndexOf(s, m, 0).None?
    ensures Completed(s, m) == [] && Held(s, m) == s
  {
    hide IndexOf;
  }

  lemma Unmarked(s: string)
    ensures Completed(s, "") == [] && Held(s, "") == s
  {
  }

  // One marker found at `h`, scanning from `at`.
  lemma Advance(s: string, m: string, at: nat, h: nat)
    requires m != "" && at <= |s| && IndexOf(s, m, at) == Some(h)
    ensures Completed(s[at..], m) == (if at == h then [] else [s[at..h]]) + Completed(s[h + |m|..], m)
    ensures Held(s[at..], m) == Held(s[h + |m|..], m)
  {
    hide IndexOf;
    hide Completed;
    hide Held;
    IndexOfInSuffix(s, m, at);
    CutFirst(s[at..], m, h - at);
    assert s[at..][..h - at] == s[at..h];
    assert s[at..][h - at + |m|..] == s[h + |m|..];
  }

  lemma CutFirst(s: string, m: string, h: nat)
    requires m != "" && IndexOf(s, m, 0) == Some(h)
    ensures Completed(s, m) == (if h == 0 then [] else [s[..h]]) + Completed(s[h + |m|..], m)
    ensures Held(s, m) == Held(s[h + |m|..], m)
  {
    hide IndexOf;
  }

  // No marker left, scanning from `at`.
  lemma Exhausted(s: string, m: string, at: nat)
    requires m != "" && at <= |s| && IndexOf(s, m, at) == None
    ensures Completed(s[at..], m) == [] && Held(s[at..], m) == s[at..]
  {
    IndexOfInSuffix(s, m, at);
  }

  // ----- an independent description of the pieces -----

  function Join(ps: seq<string>, m: string): string
    requires ps != []
  {
    if |ps| == 1 then ps[0] else ps[0] + m + Join(ps[1..], m)
  }

  // Every piece but the last runs exactly up to the next marker, and the last
  // one holds no marker at all.
  ghost predicate CutAtLeftmostMarkers(ps: seq<string>, m: string) {
    && ps != []
    && IndexOf(ps[|ps| - 1], m, 0).None?
    && forall i :: 0 <= i < |ps| - 1 ==> IndexOf(ps[i] + m, m, 0) == Some(|ps[i]|)
  }

  lemma {:induction false} PiecesAreTheLeftmostCut(s: string, m: string, ps: seq<string>)
    requires m != ""
    ensures ps == Pieces(s, m) <==> CutAtLeftmostMarkers(ps, m) && Join(ps, m) == s
  {
    PiecesCut(s, m);
    if CutAtLeftmostMarkers(ps, m) && Join(ps, m) == s {
      CutIsUnique(s, m, ps);
    }
  }

  lemma {:induction false} PiecesCut(s: string, m: string)
    requires m != ""
    ensures CutAtLeftmostMarkers(Pieces(s, m), m) && Join(Pieces(s, m), m) == s
    decreases |s|
  {
    hide IndexOf;
    match IndexOf(s, m, 0)
    case None =>
    case Some(h) =>
      var rest := s[h + |m|..];
      PiecesCut(rest, m);
      var ps := Pieces(s, m);
      assert ps[1..] == Pieces(rest, m);
      IndexOfIsFirst(s, m, 0, Some(h));
      assert s[..h] + m == s[..h + |m|];
      assert s == s[..h + |m|] + rest;
      IndexOfExtends(s[..h + |m|], rest, m, h);
      forall i | 0 <= i < |ps| - 1 ensures IndexOf(ps[i] + m, m, 0) == Some(|ps[i]|) {
        if i > 0 {
          assert ps[i] == Pieces(rest, m)[i - 1];
        }
      }
  }

  lemma {:induction false} CutIsUnique(s: string, m: string, ps: seq<string>)
    requires m != "" && CutAtLeftmostMarkers(ps, m) && Join(ps, m) == s
    ensures ps == Pieces(s, m)
    decreases |ps|
  {
    hide IndexOf;
    if |ps| > 1 {
      var tail := Join(ps[1..], m);
      var h := |ps[0]|;
      IndexOfExtends(ps[0] + m, tail, m, h);
      assert s[..h] == ps[0] && s[h + |m|..] == tail;
      forall i | 0 <= i < |ps[1..]| - 1 ensures IndexOf(ps[1..][i] + m, m, 0) == Some(|ps[1..][i]|) {
        assert ps[1..][i] == ps[i + 1];
      }
      CutIsUnique(tail, m, ps[1..]);
      assert ps == [ps[0]] + ps[1..];
    }
  }

  // ----- a stream in chunks -----

  function Flatten(chunks: seq<string>): string {
    if chunks == [] then "" else chunks[0] + Flatten(chunks[1..])
  }

  lemma {:induction false} FlattenAppend(chunks: seq<string>, c: string)
    ensures Flatten(chunks + [c]) == Flatten(chunks) + c
  {
    if chunks == [] {
      assert [c][1..] == [];
      assert chunks + [c] == [c];
    } else {
      assert (chunks + [c])[1..] == chunks[1..] + [c];
      FlattenAppend(chunks[1..], c);
    }
  }

  class SplitParser {
    const marker: string
    var buffer: string

    constructor (marker: string)
      ensures this.marker == marker && buffer == ""
    {
      this.marker := marker;
      buffer := "";
    }

    // Take one chunk; `read` collects the records emitted, in order.
    method Feed(chunk: string) returns (read: seq<string>)
      modifies this
      ensures read == Completed(old(buffer) + chunk, marker)
      ensures buffer == Held(old(buffer) + chunk, marker)
    {
      hide Completed;
      hide Held;
      hide IndexOf;
      read := [];
      if marker == "" {
        buffer := buffer + chunk;
        Unmarked(buffer);
        return;
      }
      buffer := buffer + chunk;
      var at := 0;
      assert buffer[at..] == buffer;
      while true
        invariant 0 <= at <= |buffer|
        invariant buffer == old(buffer) + chunk
        invariant Completed(buffer, marker) == read + Completed(buffer[at..], marker)
        invariant Held(buffer, marker) == Held(buffer[at..], marker)
        decreases |buffer| - at
      {
        var found := IndexOf(buffer, marker, at);
        if found.None? {
          Exhausted(buffer, marker, at);
          break;
        }
        var hit := found.value;
        Advance(buffer, marker, at, hit);
        var record := buffer[at..hit];
        at := hit + |marker|;
        if record != "" {
          read := read + [record];
        }
      }
      if at > 0 {
        buffer := buffer[at..];
      }
    }

    // End of stream: an unterminated last record is still a record.
    method Finish() returns (read: seq<string>)
      modifies this
      ensures read == NonEmpty([old(buffer)])
      ensures buffer == ""
    {
      read := [];
      if buffer != "" {
        var tail := buffer;
        buffer := "";
        read := [tail];
      }
    }

    // Begin the next run empty, whatever the last one left behind.
    method Reset()
      modifies this
      ensures buffer == ""
    {
      if buffer != "" {
        buffer := seq(|buffer|, _ => '\0');
        buffer := "";
      }
    }

    // One whole run: the records depend on the stream, never on its chunking.
    method Run(chunks: seq<string>) returns (read: seq<string>)
      modifies this
      ensures read == Records(Flatten(chunks), marker)
      ensures buffer == ""
    {
      Reset();
      read := [];
      assert chunks[..0] == [];
      for i := 0 to |chunks|
        invariant read == Completed(Flatten(chunks[..i]), marker)
        invariant buffer == Held(Flatten(chunks[..i]), marker)
      {
        assert chunks[..i + 1] == chunks[..i] + [chunks[i]];
        FlattenAppend(chunks[..i], chunks[i]);
        CutAnywhere(Flatten(chunks[..i]), chunks[i], marker);
        var more := Feed(chunks[i]);
        read := read + more;
      }
      assert chunks[..|chunks|] == chunks;
      RecordsAreCompletedAndHeld(Flatten(chunks), marker);
      var last := Finish();
      read := read + last;
    }
  }
}

// How many phrases there are, and why none is likelier than another.
module PhraseEntropy {
  import opened Bytes
  import opened Text
  import opened Counting
  import opened UniformDraw
  import opened Passphrase
  import Password

  // ----- nine bits a word, exactly -----

  ghost function Indices(bound: nat): (s: set<nat>)
    ensures forall i: nat :: i in s <==> i < bound
  {
    if bound == 0 then {} else Indices(bound - 1) + {bound - 1}
  }

  lemma {:induction false} IndicesCount(bound: nat)
    ensures |Indices(bound)| == bound
  {
    if bound > 0 {
      var fewer := Indices(bound - 1);
      IndicesCount(bound - 1);
      assert Indices(bound) == fewer + {bound - 1} && bound - 1 !in fewer;
    }
  }

  // Every choice of `n` words.
  ghost function AllPicks(n: nat): set<seq<nat>> {
    Strings(Indices(LIST_LENGTH), n)
  }

  lemma InAllPicks(n: nat, p: seq<nat>)
    ensures p in AllPicks(n) <==> |p| == n && forall i :: 0 <= i < n ==> p[i] < LIST_LENGTH
  {
    hide Strings;
    InStrings(Indices(LIST_LENGTH), n, p);
  }

  // The phrase a choice of words makes.
  function PhraseOf(spec: PassphraseSpec, words: seq<seq<byte>>, p: seq<nat>): seq<byte>
    requires Picks(p, words)
  {
    Phrase(p, words, EncodeUtf8(spec.separator), spec.capitalise)
  }

  ghost predicate AllPicked(picks: set<seq<nat>>, words: seq<seq<byte>>) {
    forall p :: p in picks ==> Picks(p, words)
  }

  ghost function Phrases(spec: PassphraseSpec, words: seq<seq<byte>>, picks: set<seq<nat>>): set<seq<byte>>
    requires AllPicked(picks, words)
  {
    set p | p in picks :: PhraseOf(spec, words, p)
  }

  // A list and a separator from which the words can be read off again.
  ghost predicate Exact(spec: PassphraseSpec, words: seq<seq<byte>>) {
    WordList(words) && (PrefixFree(words) || !IsAsciiLetter(spec.separator))
  }

  lemma {:induction false} PhrasesCount(spec: PassphraseSpec, words: seq<seq<byte>>, picks: set<seq<nat>>)
    requires Exact(spec, words) && AllPicked(picks, words)
    requires forall p :: p in picks ==> |p| == spec.words
    ensures |Phrases(spec, words, picks)| == |picks|
    decreases |picks|
  {
    hide PhraseOf;
    hide Exact;
    hide Picks;
    if p :| p in picks {
      var rest := picks - {p};
      PhrasesCount(spec, words, rest);
      var s := PhraseOf(spec, words, p);
      assert Phrases(spec, words, picks) == Phrases(spec, words, rest) + {s};
      forall q | q in rest ensures PhraseOf(spec, words, q) != s {
        PicksAreRead(spec, words, p, q);
      }
    }
  }

  lemma PicksAreRead(spec: PassphraseSpec, words: seq<seq<byte>>, p: seq<nat>, q: seq<nat>)
    requires Exact(spec, words) && Picks(p, words) && Picks(q, words) && |p| == |q| == spec.words
    ensures PhraseOf(spec, words, p) == PhraseOf(spec, words, q) <==> p == q
  {
    hide Phrase;
    if p != q {
      DifferentPicksDifferentPhrases(spec, words, p, q);
    }
  }

  lemma {:induction false} NineBits(n: nat)
    ensures Pow(512, n) == Pow(2, 9 * n)
  {
    if n > 0 {
      NineBits(n - 1);
      PowAdd(2, 9, 9 * (n - 1));
      assert Pow(2, 9) == 512;
    }
  }

  // Every phrase a specification can give.
  ghost function AllPhrases(spec: PassphraseSpec, words: seq<seq<byte>>): set<seq<byte>>
    requires WordList(words)
  {
    AllAreReal(spec.words, words);
    Phrases(spec, words, AllPicks(spec.words))
  }

  lemma AllAreReal(n: nat, words: seq<seq<byte>>)
    requires WordList(words)
    ensures AllPicked(AllPicks(n), words)
  {
    hide AllPicks;
    forall p | p in AllPicks(n) ensures Picks(p, words) {
      InAllPicks(n, p);
    }
  }

  // The number of distinct phrases a specification can give.
  lemma PhraseEntropyIsExact(spec: PassphraseSpec, words: seq<seq<byte>>)
    requires Exact(spec, words)
    ensures |AllPhrases(spec, words)| == Pow(2, 9 * spec.words)
  {
    hide Pow;
    hide Phrases;
    AllAreReal(spec.words, words);
    forall p | p in AllPicks(spec.words) ensures |p| == spec.words {
      InAllPicks(spec.words, p);
    }
    PhrasesCount(spec, words, AllPicks(spec.words));
    IndicesCount(LIST_LENGTH);
    StringsCount(Indices(LIST_LENGTH), spec.words);
    NineBits(spec.words);
  }

  // ----- every phrase is as likely as every other -----

  // What a tape mints, as `Passphrase.Passphrase` says.
  ghost predicate Mints(spec: PassphraseSpec, words: seq<seq<byte>>, tape: seq<word>, s: seq<byte>)
    requires WordList(words)
  {
    spec.words <= |tape| && PhraseOf(spec, words, PicksOf(tape, spec.words)) == s
  }

  ghost function TapesMinting(spec: PassphraseSpec, words: seq<seq<byte>>, s: seq<byte>, size: nat): set<seq<word>>
    requires WordList(words)
  {
    set t | t in Strings(Password.AllWords(), size) && Mints(spec, words, t, s)
  }

  // Drawing the picks is filling a string of indices below 512.
  lemma {:induction false} FillPicks(tape: seq<word>, n: nat)
    ensures Password.FillFrom(tape, LIST_LENGTH, n)
         == if n <= |tape| then Drew(PicksOf(tape, n), tape[n..]) else NoDraw(TapeEnded, [])
    decreases n
  {
    hide DrawBelow;
    if n > 0 {
      NoDrawIsRejected(tape);
      if tape != [] {
        FillPicks(tape[1..], n - 1);
        if n <= |tape| {
          assert PicksOf(tape, n) == [tape[0] % LIST_LENGTH] + PicksOf(tape[1..], n - 1);
          assert tape[1..][n - 1..] == tape[n..];
        }
      }
    }
  }

  ghost function OfLength(n: nat): iset<seq<nat>> {
    iset p: seq<nat> | |p| == n
  }

  // The tapes that mint a phrase are those that draw its picks.
  lemma TapesDrawPicks(spec: PassphraseSpec, words: seq<seq<byte>>, p: seq<nat>, size: nat)
    requires Exact(spec, words) && p in AllPicks(spec.words) && Picks(p, words)
    ensures TapesMinting(spec, words, PhraseOf(spec, words, p), size)
         == Password.TapesMinting(OfLength(spec.words), LIST_LENGTH, spec.words, 1, p, size)
  {
    hide PhraseOf;
    hide Password.FillFrom;
    hide Strings;
    InAllPicks(spec.words, p);
    forall t: seq<word> ensures Mints(spec, words, t, PhraseOf(spec, words, p))
                            <==> Password.Mints(t, OfLength(spec.words), LIST_LENGTH, spec.words, 1, p)
    {
      FillPicks(t, spec.words);
      if spec.words <= |t| {
        PicksAreRead(spec, words, PicksOf(t, spec.words), p);
      }
    }
  }

  // Any two phrases of a specification are minted by equally many tapes of
  // every length.
  lemma PassphraseIsUniform(spec: PassphraseSpec, words: seq<seq<byte>>, s: seq<byte>, t: seq<byte>, size: nat)
    requires Exact(spec, words) && s in AllPhrases(spec, words) && t in AllPhrases(spec, words)
    ensures |TapesMinting(spec, words, s, size)| == |TapesMinting(spec, words, t, size)|
  {
    hide PhraseOf;
    hide TapesMinting;
    hide AllPicks;
    AllAreReal(spec.words, words);
    var p :| p in AllPicks(spec.words) && PhraseOf(spec, words, p) == s;
    var q :| q in AllPicks(spec.words) && PhraseOf(spec, words, q) == t;
    InAllPicks(spec.words, p);
    InAllPicks(spec.words, q);
    TapesDrawPicks(spec, words, p, size);
    TapesDrawPicks(spec, words, q, size);
    Password.MintingIsUniform(OfLength(spec.words), LIST_LENGTH, spec.words, 1, p, q, size);
  }

  function AsTape(p: seq<nat>): (tape: seq<word>)
    requires forall i :: 0 <= i < |p| ==> p[i] < WORDS
    ensures |tape| == |p| && forall i :: 0 <= i < |p| ==> tape[i] == p[i]
  {
    if p == [] then [] else AsTape(p[..|p| - 1]) + [p[|p| - 1]]
  }

  // What a tape of enough words mints is one of the phrases, and each of them
  // is minted by a tape of one word a pick.
  lemma MintedExactly(spec: PassphraseSpec, words: seq<seq<byte>>, s: seq<byte>)
    requires WordList(words)
    ensures s in AllPhrases(spec, words) <==> exists tape: seq<word> :: |tape| == spec.words && Mints(spec, words, tape, s)
  {
    hide PhraseOf;
    hide AllPicks;
    AllAreReal(spec.words, words);
    if s in AllPhrases(spec, words) {
      var p :| p in AllPicks(spec.words) && PhraseOf(spec, words, p) == s;
      InAllPicks(spec.words, p);
      var tape := AsTape(p);
      assert PicksOf(tape, spec.words) == p;
      assert Mints(spec, words, tape, s);
    }
    if tape: seq<word> :| |tape| == spec.words && Mints(spec, words, tape, s) {
      InAllPicks(spec.words, PicksOf(tape, spec.words));
    }
  }
}

// The prefixes a breach check asks for, of crates/blackbag-core/src/breach.rs:
// sorted without repeats, padded with decoys and shuffled.
module BreachFetch {
  import opened Wrappers
  import opened BreachMatch
  import opened Lists
  import opened Text

  // ----- sorted distinct prefixes -----

  function DistinctPrefixes(candidates: seq<Candidate>): seq<string> {
    if candidates == [] then []
    else AddOrdered(DistinctPrefixes(candidates[..|candidates| - 1]), candidates[|candidates| - 1].prefix, Precedes)
  }

  // One request per distinct prefix, in order.
  lemma {:induction false} DistinctPrefixesAre(candidates: seq<Candidate>)
    ensures Ascending(DistinctPrefixes(candidates), Precedes)
    ensures forall p :: p in DistinctPrefixes(candidates) <==> exists c :: c in candidates && c.prefix == p
    decreases |candidates|
  {
    hide AddOrdered;
    if candidates != [] {
      var rest, last := candidates[..|candidates| - 1], candidates[|candidates| - 1];
      DistinctPrefixesAre(rest);
      PrecedesIsStrict();
      AddOrderedKeeps(DistinctPrefixes(rest), last.prefix, Precedes);
      AddOrderedHas(DistinctPrefixes(rest), last.prefix, Precedes);
      assert candidates == rest + [last];
      forall p ensures p in DistinctPrefixes(candidates) <==> exists c :: c in candidates && c.prefix == p {
        if p in DistinctPrefixes(rest) {
          var c :| c in rest && c.prefix == p;
          assert c in candidates;
        }
        if p == last.prefix {
          assert last in candidates;
        }
      }
    }
  }

  // ----- padding -----

  // The least positive multiple of PAD_TO that fits `n`.
  function Target(n: nat): (t: nat)
    ensures t % 8 == 0 && t >= n && t >= 8
    ensures t == 8 || t < n + 8
  {
    var groups := (n + PAD_TO - 1) / PAD_TO;
    (if groups > 1 then groups else 1) * PAD_TO
  }

  // The decoys the loop takes from those drawn: not real, and not seen before.
  function Fresh(drawn: seq<string>, wanted: seq<string>): seq<string> {
    if drawn == [] then []
    else
      var before := Fresh(drawn[..|drawn| - 1], wanted);
      var d := drawn[|drawn| - 1];
      if d !in wanted && d !in before then before + [d] else before
  }

  ghost predicate IsPermutation(order: seq<nat>, n: nat) {
    && |order| == n
    && (forall i :: 0 <= i < n ==> order[i] < n)
    && (forall i, j :: 0 <= i < j < n ==> order[i] != order[j])
    && (forall k :: 0 <= k < n ==> k in order)
  }

  function Shuffled(xs: seq<string>, order: seq<nat>): (r: seq<string>)
    requires |order| == |xs| && forall i :: 0 <= i < |order| ==> order[i] < |xs|
    ensures |r| == |xs| && forall i :: 0 <= i < |xs| ==> r[i] == xs[order[i]]
  {
    seq(|xs|, i requires 0 <= i < |xs| => xs[order[i]])
  }

  // `drawn` is what the generator yields, `order` the shuffle it makes; no
  // answer when what is drawn runs out before the loop ends.
  method PaddedPrefixes(wanted: seq<string>, drawn: seq<string>, order: seq<nat>) returns (sent: Option<seq<string>>)
    requires IsPermutation(order, Target(|wanted|))
    ensures var decoys, need := Fresh(drawn, wanted), Target(|wanted|) - |wanted|;
            sent == if |decoys| < need then None else Some(Shuffled(wanted + decoys[..need], order))
  {
    hide IsPermutation;
    PermutationFits(order, Target(|wanted|));
    var out := wanted;
    var target := Target(|wanted|);
    var i := 0;
    while |out| < target
      invariant 0 <= i <= |drawn|
      invariant out == wanted + Fresh(drawn[..i], wanted) && |out| <= target
      decreases |drawn| - i
    {
      if i == |drawn| {
        assert drawn[..i] == drawn;
        return None;
      }
      var decoy := drawn[i];
      assert drawn[..i + 1][..i] == drawn[..i];
      assert out[|wanted|..] == Fresh(drawn[..i], wanted);
      i := i + 1;
      if decoy !in wanted && decoy !in out[|wanted|..] {
        out := out + [decoy];
      }
    }
    FreshGrows(drawn, i, wanted);
    assert Fresh(drawn, wanted)[..target - |wanted|] == Fresh(drawn[..i], wanted);
    sent := Some(Shuffled(out, order));
  }

  lemma PermutationFits(order: seq<nat>, n: nat)
    requires IsPermutation(order, n)
    ensures |order| == n && forall i :: 0 <= i < |order| ==> order[i] < n
  {
  }

  lemma {:induction false} FreshGrows(drawn: seq<string>, i: nat, wanted: seq<string>)
    requires i <= |drawn|
    ensures Fresh(drawn[..i], wanted) <= Fresh(drawn, wanted)
    decreases |drawn|
  {
    if i == |drawn| {
      assert drawn[..i] == drawn;
    } else {
      var rest := drawn[..|drawn| - 1];
      assert rest[..i] == drawn[..i];
      FreshGrows(rest, i, wanted);
    }
  }

  lemma {:induction false} FreshIsNew(drawn: seq<string>, wanted: seq<string>)
    ensures NoRepeats(Fresh(drawn, wanted))
    ensures forall d :: d in Fresh(drawn, wanted) ==> d in drawn && d !in wanted
    decreases |drawn|
  {
    if drawn != [] {
      FreshIsNew(drawn[..|drawn| - 1], wanted);
      assert drawn == drawn[..|drawn| - 1] + [drawn[|drawn| - 1]];
    }
  }

  // Padding keeps every real prefix, repeats none, adds only what was drawn,
  // and makes the number of requests a multiple of PAD_TO.
  lemma PaddingHides(wanted: seq<string>, drawn: seq<string>, order: seq<nat>)
    requires IsPermutation(order, Target(|wanted|)) && |Fresh(drawn, wanted)| >= Target(|wanted|) - |wanted|
    ensures var sent := Shuffled(wanted + Fresh(drawn, wanted)[..Target(|wanted|) - |wanted|], order);
            && |sent| == Target(|wanted|)
            && (forall p :: p in wanted ==> p in sent)
            && (forall p :: p in sent ==> p in wanted || p in drawn)
            && (NoRepeats(wanted) ==> NoRepeats(sent))
  {
    hide Fresh;
    hide IsPermutation;
    var decoys := Fresh(drawn, wanted)[..Target(|wanted|) - |wanted|];
    FreshIsNew(drawn, wanted);
    assert forall d :: d in decoys ==> d in Fresh(drawn, wanted);
    ShuffleKeeps(wanted + decoys, order);
    if NoRepeats(wanted) {
      JoinedHasNoRepeats(wanted, decoys);
    }
  }

  lemma ShuffleKeeps(all: seq<string>, order: seq<nat>)
    requires IsPermutation(order, |all|)
    ensures forall p :: p in all <==> p in Shuffled(all, order)
    ensures NoRepeats(all) ==> NoRepeats(Shuffled(all, order))
  {
    var sent := Shuffled(all, order);
    forall p | p in all ensures p in sent {
      var k :| 0 <= k < |all| && all[k] == p;
      assert k in order;
      var i :| 0 <= i < |order| && order[i] == k;
      assert sent[i] == p;
    }
    if NoRepeats(all) {
      forall i, j | 0 <= i < j < |sent| ensures sent[i] != sent[j] {
        assert order[i] != order[j];
      }
    }
  }

  // ----- a padded check -----

  // What comes back for a list of requests; any of them may fail.
  function FetchAll(prefixes: seq<string>, fetch: string -> Option<Range>): seq<Range> {
    if prefixes == [] then []
    else
      FetchAll(prefixes[..|prefixes| - 1], fetch)
      + (match fetch(prefixes[|prefixes| - 1]) case None => [] case Some(range) => [range])
  }

  ghost predicate AnswersWhatWasAsked(fetch: string -> Option<Range>) {
    forall p :: fetch(p).Some? ==> fetch(p).value.prefix == p
  }

  lemma BucketsGrow(ranges: seq<Range>, r: Range)
    ensures Buckets(ranges + [r]) == Buckets(ranges)[r.prefix := r]
  {
    assert (ranges + [r])[..|ranges|] == ranges;
  }

  lemma {:induction false} FetchedBuckets(prefixes: seq<string>, fetch: string -> Option<Range>, p: string)
    requires AnswersWhatWasAsked(fetch)
    ensures var buckets := Buckets(FetchAll(prefixes, fetch));
            && (p in buckets <==> p in prefixes && fetch(p).Some?)
            && (p in buckets ==> buckets[p] == fetch(p).value)
    decreases |prefixes|
  {
    hide Buckets;
    if prefixes == [] {
      NoBuckets();
    } else {
      var rest, last := prefixes[..|prefixes| - 1], prefixes[|prefixes| - 1];
      assert prefixes == rest + [last];
      FetchedBuckets(rest, fetch, p);
      var before := FetchAll(rest, fetch);
      assert before + [] == before;
      if fetch(last).Some? {
        BucketsGrow(before, fetch(last).value);
      }
    }
  }

  lemma NoBuckets()
    ensures Buckets([]) == map[]
  {
  }

  // Sending any list that covers the real prefixes, whatever the decoys, the
  // order and the failures, tells what sending the real ones alone would.
  lemma PaddedCheckIsPlainCheck(items: seq<Item>, sent: seq<string>, fetch: string -> Option<Range>, previous: ExposureMap)
    requires AnswersWhatWasAsked(fetch)
    requires forall p :: p in DistinctPrefixes(CandidatesOf(items)) ==> p in sent
    ensures var padded, plain := Buckets(FetchAll(sent, fetch)), Buckets(FetchAll(DistinctPrefixes(CandidatesOf(items)), fetch));
            && ReportOn(items, padded) == ReportOn(items, plain)
            && StoredAfter(items, padded, previous) == StoredAfter(items, plain, previous)
  {
    hide Buckets;
    hide FetchAll;
    hide ReportOn;
    hide StoredAfter;
    hide FindSuffix;
    hide DistinctPrefixes;
    hide AnswersWhatWasAsked;
    var candidates := CandidatesOf(items);
    var wanted := DistinctPrefixes(candidates);
    DistinctPrefixesAre(candidates);
    var padded, plain := Buckets(FetchAll(sent, fetch)), Buckets(FetchAll(wanted, fetch));
    forall i | 0 <= i < |items| ensures VerdictOf(items[i], padded) == VerdictOf(items[i], plain) {
      var p := PrefixOf(items[i]);
      assert candidates[i] in candidates && candidates[i].prefix == p;
      FetchedBuckets(sent, fetch, p);
      FetchedBuckets(wanted, fetch, p);
    }
    SameVerdictsSameResult(items, padded, plain, previous);
  }
}

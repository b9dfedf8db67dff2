// The breach matcher of crates/blackbag-core/src/breach.rs: a lookup split
// into a prefix that leaves the agent and a suffix that does not.
module BreachMatch {
  import opened Bytes
  import opened Wrappers

  const PREFIX_LEN: nat := 5
  const PAD_TO: nat := 8

  // Uppercase hex of a SHA-1 digest.
  type Hash = s: string | |s| == 40 witness "0000000000000000000000000000000000000000"

  datatype Field = Field(name: string, secret: seq<byte>)

  datatype Record = Record(id: nat, title: Option<string>, fields: seq<Field>)

  datatype Candidate = Candidate(id: nat, title: Option<string>, field: string, prefix: string)

  datatype Range = Range(prefix: string, suffixes: seq<(string, nat)>)

  datatype Exposure = Exposure(id: nat, title: Option<string>, field: string, breaches: nat)

  datatype Report = Report(checked: nat, unchecked: nat, exposed: seq<Exposure>)

  type Key = (nat, string)

  type ExposureMap = map<Key, nat>

  predicate Checked(name: string) {
    name == "password" || name == "passphrase" || name == "pin"
  }

  // ----- the fields looked at -----

  // A checked field and the hash of its value.
  datatype Item = Item(id: nat, title: Option<string>, field: string, hash: Hash)

  function KeyOf(item: Item): Key {
    (item.id, item.field)
  }

  function FieldItems(r: Record, fields: seq<Field>, hash: seq<byte> -> Hash): seq<Item> {
    if fields == [] then []
    else
      var f := fields[|fields| - 1];
      FieldItems(r, fields[..|fields| - 1], hash)
      + (if Checked(f.name) then [Item(r.id, r.title, f.name, hash(f.secret))] else [])
  }

  function Items(records: seq<Record>, hash: seq<byte> -> Hash): seq<Item> {
    if records == [] then []
    else
      var r := records[|records| - 1];
      Items(records[..|records| - 1], hash) + FieldItems(r, r.fields, hash)
  }

  lemma ItemsStep(records: seq<Record>, i: nat, hash: seq<byte> -> Hash)
    requires i < |records|
    ensures Items(records[..i + 1], hash) == Items(records[..i], hash) + FieldItems(records[i], records[i].fields, hash)
  {
    assert records[..i + 1][..i] == records[..i];
  }

  lemma FieldStep(r: Record, j: nat, hash: seq<byte> -> Hash)
    requires j < |r.fields|
    ensures FieldItems(r, r.fields[..j + 1], hash)
         == FieldItems(r, r.fields[..j], hash)
            + (if Checked(r.fields[j].name) then [Item(r.id, r.title, r.fields[j].name, hash(r.fields[j].secret))] else [])
  {
    assert r.fields[..j + 1][..j] == r.fields[..j];
  }

  lemma NoRecordNoItem(records: seq<Record>, hash: seq<byte> -> Hash)
    requires records == []
    ensures Items(records, hash) == []
  {
  }

  lemma NoItems(r: Record, hash: seq<byte> -> Hash)
    ensures FieldItems(r, [], hash) == []
  {
  }

  function PrefixOf(item: Item): string {
    item.hash[..PREFIX_LEN]
  }

  function SuffixOf(item: Item): string {
    item.hash[PREFIX_LEN..]
  }

  function CandidatesOf(items: seq<Item>): (r: seq<Candidate>)
    ensures |r| == |items|
    ensures forall i :: 0 <= i < |items| ==>
              r[i] == Candidate(items[i].id, items[i].title, items[i].field, items[i].hash[..5])
  {
    seq(|items|, i requires 0 <= i < |items| =>
      Candidate(items[i].id, items[i].title, items[i].field, PrefixOf(items[i])))
  }

  method Candidates(records: seq<Record>, hash: seq<byte> -> Hash) returns (out: seq<Candidate>)
    ensures out == CandidatesOf(Items(records, hash))
  {
    out := [];
    ghost var items: seq<Item> := [];
    for i := 0 to |records|
      invariant items == Items(records[..i], hash)
      invariant out == CandidatesOf(items)
    {
      ItemsStep(records, i, hash);
      var record := records[i];
      ghost var before := items;
      assert before + [] == before;
      for j := 0 to |record.fields|
        invariant items == before + FieldItems(record, record.fields[..j], hash)
        invariant out == CandidatesOf(items)
      {
        FieldStep(record, j, hash);
        var field := record.fields[j];
        if !Checked(field.name) {
          continue;
        }
        var h := hash(field.secret);
        out := out + [Candidate(record.id, record.title, field.name, h[..PREFIX_LEN])];
        items := items + [Item(record.id, record.title, field.name, h)];
      }
      assert record.fields[..|record.fields|] == record.fields;
    }
    assert records[..|records|] == records;
  }

  // ----- which fields are looked at -----

  // The item stands for field `at.1` of record `at.0`, a field of one of the
  // three names, with the hash of its value.
  ghost predicate StandsFor(item: Item, at: (nat, nat), records: seq<Record>, hash: seq<byte> -> Hash) {
    && at.0 < |records| && at.1 < |records[at.0].fields|
    && var r, f := records[at.0], records[at.0].fields[at.1];
       && f.name in {"password", "passphrase", "pin"}
       && item.id == r.id && item.title == r.title && item.field == f.name && item.hash == hash(f.secret)
  }

  ghost predicate WorthALook(records: seq<Record>, i: nat, j: nat) {
    i < |records| && j < |records[i].fields| && records[i].fields[j].name in {"password", "passphrase", "pin"}
  }

  ghost predicate Earlier(a: (nat, nat), b: (nat, nat)) {
    a.0 < b.0 || (a.0 == b.0 && a.1 < b.1)
  }

  // The items stand for fields in order, each for one, and for every field of
  // those names among the first `n` records and the first `m` fields of the
  // next.
  ghost predicate Cover(items: seq<Item>, at: seq<(nat, nat)>, records: seq<Record>, hash: seq<byte> -> Hash, n: nat, m: nat) {
    && |at| == |items|
    && (forall k :: 0 <= k < |at| ==> StandsFor(items[k], at[k], records, hash) && Earlier(at[k], (n, m)))
    && (forall k, l :: 0 <= k < l < |at| ==> Earlier(at[k], at[l]))
    && (forall i: nat, j: nat :: WorthALook(records, i, j) && Earlier((i, j), (n, m)) ==> (i, j) in at)
  }

  lemma FieldCovered(items: seq<Item>, at: seq<(nat, nat)>, records: seq<Record>, hash: seq<byte> -> Hash, n: nat, m: nat)
    requires n < |records| && m < |records[n].fields| && Cover(items, at, records, hash, n, m)
    ensures var r, f := records[n], records[n].fields[m];
            if Checked(f.name)
            then Cover(items + [Item(r.id, r.title, f.name, hash(f.secret))], at + [(n, m)], records, hash, n, m + 1)
            else Cover(items, at, records, hash, n, m + 1)
  {
    var f := records[n].fields[m];
    forall i: nat, j: nat | WorthALook(records, i, j) && Earlier((i, j), (n, m + 1))
      ensures (i, j) in at + (if Checked(f.name) then [(n, m)] else [])
    {
      if (i, j) != (n, m) {
        assert Earlier((i, j), (n, m));
      }
    }
  }

  lemma NextRecord(items: seq<Item>, at: seq<(nat, nat)>, records: seq<Record>, hash: seq<byte> -> Hash, n: nat)
    requires n < |records| && Cover(items, at, records, hash, n, |records[n].fields|)
    ensures Cover(items, at, records, hash, n + 1, 0)
  {
  }

  // Exactly the fields called password, passphrase or pin are looked at, in
  // order.
  lemma ItemsCover(records: seq<Record>, hash: seq<byte> -> Hash) returns (at: seq<(nat, nat)>)
    ensures Cover(Items(records, hash), at, records, hash, |records|, 0)
  {
    hide Items;
    hide FieldItems;
    hide Cover;
    at := [];
    NoRecordNoItem(records[..0], hash);
    NothingCovered(records, hash);
    for n := 0 to |records|
      invariant Cover(Items(records[..n], hash), at, records, hash, n, 0)
    {
      ItemsStep(records, n, hash);
      var r, before := records[n], Items(records[..n], hash);
      NoItems(r, hash);
      assert r.fields[..0] == [] && before + [] == before;
      for m := 0 to |r.fields|
        invariant Cover(before + FieldItems(r, r.fields[..m], hash), at, records, hash, n, m)
      {
        FieldStep(r, m, hash);
        var items := before + FieldItems(r, r.fields[..m], hash);
        FieldCovered(items, at, records, hash, n, m);
        if Checked(r.fields[m].name) {
          at := at + [(n, m)];
          assert before + FieldItems(r, r.fields[..m + 1], hash)
              == items + [Item(r.id, r.title, r.fields[m].name, hash(r.fields[m].secret))];
        } else {
          assert before + FieldItems(r, r.fields[..m + 1], hash) == items;
        }
      }
      assert r.fields[..|r.fields|] == r.fields;
      NextRecord(before + FieldItems(r, r.fields, hash), at, records, hash, n);
    }
    assert records[..|records|] == records;
  }

  lemma NothingCovered(records: seq<Record>, hash: seq<byte> -> Hash)
    ensures Cover([], [], records, hash, 0, 0)
  {
  }

  // ----- matching -----

  function Buckets(ranges: seq<Range>): map<string, Range> {
    if ranges == [] then map[]
    else Buckets(ranges[..|ranges| - 1])[ranges[|ranges| - 1].prefix := ranges[|ranges| - 1]]
  }

  // Iterator::find.
  function FindSuffix(suffixes: seq<(string, nat)>, suffix: string): Option<nat> {
    if suffixes == [] then None
    else if suffixes[0].0 == suffix then Some(suffixes[0].1)
    else FindSuffix(suffixes[1..], suffix)
  }

  datatype Verdict = NoBucket | Absent | Found(count: nat)

  function VerdictOf(item: Item, buckets: map<string, Range>): Verdict {
    if PrefixOf(item) !in buckets then NoBucket
    else match FindSuffix(buckets[PrefixOf(item)].suffixes, SuffixOf(item))
         case None => Absent
         case Some(count) => Found(count)
  }

  function Stored(stored: ExposureMap, item: Item, verdict: Verdict, previous: ExposureMap): ExposureMap {
    match verdict
    case Found(count) => stored[KeyOf(item) := count]
    case Absent => stored
    case NoBucket => if KeyOf(item) in previous then stored[KeyOf(item) := previous[KeyOf(item)]] else stored
  }

  function Reported(report: Report, item: Item, verdict: Verdict): Report {
    match verdict
    case NoBucket => report.(unchecked := report.unchecked + 1)
    case Absent => report.(checked := report.checked + 1)
    case Found(count) =>
      Report(report.checked + 1, report.unchecked,
             report.exposed + [Exposure(item.id, item.title, item.field, count)])
  }

  function ReportOn(items: seq<Item>, buckets: map<string, Range>): Report {
    if items == [] then Report(0, 0, [])
    else
      var item := items[|items| - 1];
      Reported(ReportOn(items[..|items| - 1], buckets), item, VerdictOf(item, buckets))
  }

  function StoredAfter(items: seq<Item>, buckets: map<string, Range>, previous: ExposureMap): ExposureMap {
    if items == [] then map[]
    else
      var item := items[|items| - 1];
      Stored(StoredAfter(items[..|items| - 1], buckets, previous), item, VerdictOf(item, buckets), previous)
  }

  method CollectBuckets(ranges: seq<Range>) returns (buckets: map<string, Range>)
    ensures buckets == Buckets(ranges)
  {
    buckets := map[];
    for i := 0 to |ranges|
      invariant buckets == Buckets(ranges[..i])
    {
      assert ranges[..i + 1][..i] == ranges[..i];
      buckets := buckets[ranges[i].prefix := ranges[i]];
    }
    assert ranges[..|ranges|] == ranges;
  }

  lemma MatchStep(items: seq<Item>, item: Item, buckets: map<string, Range>, previous: ExposureMap)
    ensures ReportOn(items + [item], buckets) == Reported(ReportOn(items, buckets), item, VerdictOf(item, buckets))
    ensures StoredAfter(items + [item], buckets, previous)
         == Stored(StoredAfter(items, buckets, previous), item, VerdictOf(item, buckets), previous)
  {
    assert (items + [item])[..|items|] == items;
  }

  method MatchRanges(records: seq<Record>, ranges: seq<Range>, previous: ExposureMap, hash: seq<byte> -> Hash)
    returns (report: Report, stored: ExposureMap)
    ensures report == ReportOn(Items(records, hash), Buckets(ranges))
    ensures stored == StoredAfter(Items(records, hash), Buckets(ranges), previous)
  {
    hide FindSuffix;
    hide Buckets;
    hide ReportOn;
    hide StoredAfter;
    hide Items;
    hide FieldItems;
    var buckets := CollectBuckets(ranges);
    report, stored := Report(0, 0, []), map[];
    ghost var items: seq<Item> := [];
    NothingMatched(buckets, previous);
    NoRecordNoItem(records[..0], hash);
    for i := 0 to |records|
      invariant items == Items(records[..i], hash)
      invariant report == ReportOn(items, buckets)
      invariant stored == StoredAfter(items, buckets, previous)
    {
      ItemsStep(records, i, hash);
      var record := records[i];
      ghost var before := items;
      NoItems(record, hash);
      assert record.fields[..0] == [] && before + [] == before;
      for j := 0 to |record.fields|
        invariant items == before + FieldItems(record, record.fields[..j], hash)
        invariant report == ReportOn(items, buckets)
        invariant stored == StoredAfter(items, buckets, previous)
      {
        FieldStep(record, j, hash);
        var field := record.fields[j];
        if !Checked(field.name) {
          continue;
        }
        var h := hash(field.secret);
        ghost var item := Item(record.id, record.title, field.name, h);
        MatchStep(items, item, buckets, previous);
        items := items + [item];
        var prefix, suffix := h[..PREFIX_LEN], h[PREFIX_LEN..];
        if prefix !in buckets {
          report := report.(unchecked := report.unchecked + 1);
          if (record.id, field.name) in previous {
            stored := stored[(record.id, field.name) := previous[(record.id, field.name)]];
          }
          continue;
        }
        report := report.(checked := report.checked + 1);
        var found := FindSuffix(buckets[prefix].suffixes, suffix);
        if found.Some? {
          report := report.(exposed := report.exposed + [Exposure(record.id, record.title, field.name, found.value)]);
          stored := stored[(record.id, field.name) := found.value];
        }
      }
      assert record.fields[..|record.fields|] == record.fields;
    }
    assert records[..|records|] == records;
  }

  lemma NothingMatched(buckets: map<string, Range>, previous: ExposureMap)
    ensures ReportOn([], buckets) == Report(0, 0, []) && StoredAfter([], buckets, previous) == map[]
  {
  }

  // ----- counting -----

  // Every candidate is counted once, as checked or as not.
  lemma {:induction false} EveryCandidateIsCounted(items: seq<Item>, buckets: map<string, Range>)
    ensures var r := ReportOn(items, buckets); r.checked + r.unchecked == |CandidatesOf(items)|
  {
    if items != [] {
      EveryCandidateIsCounted(items[..|items| - 1], buckets);
    }
  }

  // ----- the corpus -----

  // Breach counts by whole hash.
  type Corpus = map<string, nat>

  // A bucket is the corpus restricted to the hashes that begin with it.
  ghost predicate IsBucketOf(range: Range, corpus: Corpus) {
    && |range.prefix| == 5
    && forall s: string, n: nat ::
         (s, n) in range.suffixes <==> range.prefix + s in corpus && corpus[range.prefix + s] == n
  }

  function Covered(items: seq<Item>, prefixes: set<string>): seq<Item> {
    if items == [] then []
    else
      var item := items[|items| - 1];
      Covered(items[..|items| - 1], prefixes) + (if PrefixOf(item) in prefixes then [item] else [])
  }

  function WholeLookup(items: seq<Item>, corpus: Corpus): seq<Exposure> {
    if items == [] then []
    else
      var item := items[|items| - 1];
      WholeLookup(items[..|items| - 1], corpus)
      + (if item.hash in corpus then [Exposure(item.id, item.title, item.field, corpus[item.hash])] else [])
  }

  function PrefixesOf(ranges: seq<Range>): set<string> {
    set r | r in ranges :: r.prefix
  }

  lemma {:induction false} FindSuffixFinds(suffixes: seq<(string, nat)>, suffix: string)
    ensures match FindSuffix(suffixes, suffix)
            case Some(n) => (suffix, n) in suffixes
            case None => forall n: nat :: (suffix, n) !in suffixes
  {
    if suffixes != [] {
      FindSuffixFinds(suffixes[1..], suffix);
      assert suffixes == [suffixes[0]] + suffixes[1..];
    }
  }

  lemma {:induction false} BucketsAre(ranges: seq<Range>)
    ensures Buckets(ranges).Keys == PrefixesOf(ranges)
    ensures forall p :: p in Buckets(ranges) ==> Buckets(ranges)[p] in ranges && Buckets(ranges)[p].prefix == p
  {
    if ranges != [] {
      var rest, last := ranges[..|ranges| - 1], ranges[|ranges| - 1];
      BucketsAre(rest);
      assert ranges == rest + [last];
    }
  }

  lemma VerdictIsCorpus(item: Item, ranges: seq<Range>, corpus: Corpus)
    requires forall r :: r in ranges ==> IsBucketOf(r, corpus)
    ensures VerdictOf(item, Buckets(ranges))
         == if PrefixOf(item) !in PrefixesOf(ranges) then NoBucket
            else if item.hash in corpus then Found(corpus[item.hash])
            else Absent
  {
    hide FindSuffix;
    hide Buckets;
    BucketsAre(ranges);
    if PrefixOf(item) in PrefixesOf(ranges) {
      var bucket := Buckets(ranges)[PrefixOf(item)];
      assert IsBucketOf(bucket, corpus);
      FindSuffixFinds(bucket.suffixes, SuffixOf(item));
      assert PrefixOf(item) + SuffixOf(item) == item.hash;
      assert item.hash in corpus <==> (SuffixOf(item), if item.hash in corpus then corpus[item.hash] else 0) in bucket.suffixes
                                      && item.hash in corpus;
    }
  }

  // The split lookup finds exactly what looking up whole hashes would, among
  // the fields whose bucket arrived.
  lemma {:induction false} SplitLookupIsWholeLookup(items: seq<Item>, ranges: seq<Range>, corpus: Corpus)
    requires forall r :: r in ranges ==> IsBucketOf(r, corpus)
    ensures var r, covered := ReportOn(items, Buckets(ranges)), Covered(items, PrefixesOf(ranges));
            && r.checked == |covered| && r.unchecked == |items| - |covered|
            && r.exposed == WholeLookup(covered, corpus)
  {
    hide Buckets;
    hide VerdictOf;
    hide IsBucketOf;
    if items != [] {
      var rest, item := items[..|items| - 1], items[|items| - 1];
      SplitLookupIsWholeLookup(rest, ranges, corpus);
      VerdictIsCorpus(item, ranges, corpus);
      var before := Covered(rest, PrefixesOf(ranges));
      assert (before + [item])[..|before|] == before;
      assert before + [] == before;
      var exposed := WholeLookup(before, corpus);
      assert exposed + [] == exposed;
    }
  }

  lemma {:induction false} AllCovered(items: seq<Item>, prefixes: set<string>)
    requires forall i :: 0 <= i < |items| ==> PrefixOf(items[i]) in prefixes
    ensures Covered(items, prefixes) == items
  {
    if items != [] {
      AllCovered(items[..|items| - 1], prefixes);
    }
  }

  // With every bucket there, nothing is left unchecked and the result is the
  // whole lookup.
  lemma FullFetchIsWholeLookup(items: seq<Item>, ranges: seq<Range>, corpus: Corpus)
    requires forall r :: r in ranges ==> IsBucketOf(r, corpus)
    requires forall i :: 0 <= i < |items| ==> PrefixOf(items[i]) in PrefixesOf(ranges)
    ensures ReportOn(items, Buckets(ranges)) == Report(|items|, 0, WholeLookup(items, corpus))
  {
    hide IsBucketOf;
    hide Buckets;
    SplitLookupIsWholeLookup(items, ranges, corpus);
    AllCovered(items, PrefixesOf(ranges));
  }

  // ----- what the matcher does not look at -----

  ghost predicate SameVerdicts(items: seq<Item>, a: map<string, Range>, b: map<string, Range>) {
    forall i :: 0 <= i < |items| ==> VerdictOf(items[i], a) == VerdictOf(items[i], b)
  }

  lemma {:induction false} SameVerdictsSameResult(
      items: seq<Item>, a: map<string, Range>, b: map<string, Range>, previous: ExposureMap)
    requires SameVerdicts(items, a, b)
    ensures ReportOn(items, a) == ReportOn(items, b)
    ensures StoredAfter(items, a, previous) == StoredAfter(items, b, previous)
  {
    hide VerdictOf;
    if items != [] {
      SameVerdictsSameResult(items[..|items| - 1], a, b, previous);
    }
  }

  lemma {:induction false} BucketsWithout(a: seq<Range>, r: Range, b: seq<Range>, p: string)
    requires p != r.prefix
    ensures p in Buckets(a + [r] + b) <==> p in Buckets(a + b)
    ensures p in Buckets(a + b) ==> Buckets(a + [r] + b)[p] == Buckets(a + b)[p]
    decreases |b|
  {
    if b == [] {
      assert a + [r] + b == a + [r] && a + b == a && (a + [r])[..|a|] == a;
    } else {
      var rest, last := b[..|b| - 1], b[|b| - 1];
      BucketsWithout(a, r, rest, p);
      var with, without := a + [r] + b, a + b;
      assert with[..|with| - 1] == a + [r] + rest && with[|with| - 1] == last;
      assert without[..|without| - 1] == a + rest && without[|without| - 1] == last;
    }
  }

  // A bucket nobody asked for changes no result, wherever it stands.
  lemma DecoyChangesNothing(items: seq<Item>, a: seq<Range>, decoy: Range, b: seq<Range>, previous: ExposureMap)
    requires forall i :: 0 <= i < |items| ==> PrefixOf(items[i]) != decoy.prefix
    ensures ReportOn(items, Buckets(a + [decoy] + b)) == ReportOn(items, Buckets(a + b))
    ensures StoredAfter(items, Buckets(a + [decoy] + b), previous) == StoredAfter(items, Buckets(a + b), previous)
  {
    hide Buckets;
    hide ReportOn;
    hide StoredAfter;
    hide FindSuffix;
    forall i | 0 <= i < |items| ensures VerdictOf(items[i], Buckets(a + [decoy] + b)) == VerdictOf(items[i], Buckets(a + b)) {
      BucketsWithout(a, decoy, b, PrefixOf(items[i]));
    }
    SameVerdictsSameResult(items, Buckets(a + [decoy] + b), Buckets(a + b), previous);
  }

  ghost predicate DistinctBuckets(ranges: seq<Range>) {
    forall i, j :: 0 <= i < j < |ranges| ==> ranges[i].prefix != ranges[j].prefix
  }

  lemma {:induction false} DistinctBucketsAre(ranges: seq<Range>, r: Range)
    requires DistinctBuckets(ranges)
    ensures r in ranges <==> r.prefix in Buckets(ranges) && Buckets(ranges)[r.prefix] == r
  {
    if ranges != [] {
      var rest, last := ranges[..|ranges| - 1], ranges[|ranges| - 1];
      assert ranges == rest + [last];
      DistinctBucketsAre(rest, r);
    }
  }

  // Nor does the order the buckets come in.
  lemma OrderChangesNothing(a: seq<Range>, b: seq<Range>)
    requires DistinctBuckets(a) && DistinctBuckets(b)
    requires multiset(a) == multiset(b)
    ensures Buckets(a) == Buckets(b)
  {
    hide Buckets;
    BucketsAre(a);
    BucketsAre(b);
    forall r: Range ensures r in a <==> r in b {
      assert r in a <==> r in multiset(a);
      assert r in b <==> r in multiset(b);
    }
    forall p | p in Buckets(a) ensures Buckets(a)[p] == Buckets(b)[p] {
      DistinctBucketsAre(b, Buckets(a)[p]);
    }
  }

  // ----- many checks -----

  ghost predicate DistinctKeys(items: seq<Item>) {
    forall i, j :: 0 <= i < j < |items| ==> KeyOf(items[i]) != KeyOf(items[j])
  }

  // The map carried through a sequence of checks, each with the buckets that
  // arrived for it.
  function AfterChecks(items: seq<Item>, checks: seq<seq<Range>>): ExposureMap {
    if checks == [] then map[]
    else StoredAfter(items, Buckets(checks[|checks| - 1]), AfterChecks(items, checks[..|checks| - 1]))
  }

  // The verdict of the latest check whose bucket for this item arrived.
  function Latest(item: Item, checks: seq<seq<Range>>): Verdict {
    if checks == [] then NoBucket
    else
      var now := VerdictOf(item, Buckets(checks[|checks| - 1]));
      if now == NoBucket then Latest(item, checks[..|checks| - 1]) else now
  }

  function Asked(stored: ExposureMap, key: Key): Option<nat> {
    if key in stored then Some(stored[key]) else None
  }

  function Told(verdict: Verdict, otherwise: Option<nat>): Option<nat> {
    match verdict
    case Found(count) => Some(count)
    case Absent => None
    case NoBucket => otherwise
  }

  lemma {:induction false} OneCheck(items: seq<Item>, buckets: map<string, Range>, previous: ExposureMap)
    requires DistinctKeys(items)
    ensures forall i :: 0 <= i < |items| ==>
              Asked(StoredAfter(items, buckets, previous), KeyOf(items[i]))
              == Told(VerdictOf(items[i], buckets), Asked(previous, KeyOf(items[i])))
    ensures forall key :: key in StoredAfter(items, buckets, previous) ==>
              exists i :: 0 <= i < |items| && KeyOf(items[i]) == key
  {
    hide VerdictOf;
    hide KeyOf;
    if items != [] {
      var rest, item := items[..|items| - 1], items[|items| - 1];
      OneCheck(rest, buckets, previous);
      var before, after := StoredAfter(rest, buckets, previous), StoredAfter(items, buckets, previous);
      assert KeyOf(item) !in before;
      forall i | 0 <= i < |rest| ensures Asked(after, KeyOf(items[i])) == Asked(before, KeyOf(rest[i])) {
        assert KeyOf(items[i]) != KeyOf(item);
      }
      forall key | key in after ensures exists i :: 0 <= i < |items| && KeyOf(items[i]) == key {
        if key in before {
          var i :| 0 <= i < |rest| && KeyOf(rest[i]) == key;
          assert KeyOf(items[i]) == key;
        } else {
          assert KeyOf(items[|items| - 1]) == key;
        }
      }
    }
  }

  // Over any sequence of checks, what is stored for a field is the verdict of
  // the latest check that had its bucket, and nothing else is stored.
  lemma {:induction false} StoredIsLatestVerdict(items: seq<Item>, checks: seq<seq<Range>>)
    requires DistinctKeys(items)
    ensures forall i :: 0 <= i < |items| ==>
              Asked(AfterChecks(items, checks), KeyOf(items[i])) == Told(Latest(items[i], checks), None)
    ensures forall key :: key in AfterChecks(items, checks) ==>
              exists i :: 0 <= i < |items| && KeyOf(items[i]) == key
    decreases |checks|
  {
    hide VerdictOf;
    hide KeyOf;
    hide StoredAfter;
    hide Buckets;
    hide DistinctKeys;
    if checks != [] {
      StoredIsLatestVerdict(items, checks[..|checks| - 1]);
      OneCheck(items, Buckets(checks[|checks| - 1]), AfterChecks(items, checks[..|checks| - 1]));
    }
  }
}

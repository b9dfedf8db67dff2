// The reuse findings and the score of crates/blackbag-core/src/hygiene.rs.
module Hygiene {
  import opened Bytes
  import opened Lists
  import opened StableSort
  import opened Text

  datatype Severity = High | Medium | Low

  function Weight(s: Severity): nat {
    match s case High => 5 case Medium => 2 case Low => 1
  }

  // Declaration order, worst first.
  function Rank(s: Severity): nat {
    match s case High => 0 case Medium => 1 case Low => 2
  }

  datatype Field = Field(name: string, secret: seq<byte>)

  // `others` are the severities of the record's other findings, in the order
  // the analysis makes them.
  datatype Record = Record(id: nat, fields: seq<Field>, others: seq<Severity>)

  // A field name and the handle of its value.
  type Key = (string, string)

  type HandleOf = (string, seq<byte>) -> string

  datatype Issue = Reused(field: string, sharedWith: seq<nat>, handle: string) | Other(severity: Severity)

  function SeverityOf(i: Issue): Severity {
    match i case Reused(_, _, _) => High case Other(s) => s
  }

  datatype RecordReport = RecordReport(id: nat, issues: seq<Issue>)

  datatype Contribution = Contribution(id: nat, demerits: nat)

  datatype Score = Score(
    high: nat, medium: nat, low: nat, demerits: nat,
    recordsWithIssues: nat, cleanRecords: nat, contributions: seq<Contribution>)

  // ----- handles -----

  function HandlesIn(fields: seq<Field>, handleOf: HandleOf): seq<Key> {
    if fields == [] then []
    else
      var before := HandlesIn(fields[..|fields| - 1], handleOf);
      var f := fields[|fields| - 1];
      var key := (f.name, handleOf(f.name, f.secret));
      if f.secret == [] || key in before then before else before + [key]
  }

  function Handles(r: Record, handleOf: HandleOf): seq<Key> {
    HandlesIn(r.fields, handleOf)
  }

  method RecordHandles(r: Record, handleOf: HandleOf) returns (out: seq<Key>)
    ensures out == Handles(r, handleOf)
  {
    out := [];
    for i := 0 to |r.fields|
      invariant out == HandlesIn(r.fields[..i], handleOf)
    {
      assert r.fields[..i + 1][..i] == r.fields[..i];
      var field := r.fields[i];
      if field.secret == [] {
        continue;
      }
      var key := (field.name, handleOf(field.name, field.secret));
      if key in out {
        continue;
      }
      out := out + [key];
    }
    assert r.fields[..|r.fields|] == r.fields;
  }

  // A key is a handle of the record exactly when some non-empty field has it.
  lemma {:induction false} HandlesAre(fields: seq<Field>, handleOf: HandleOf, key: Key)
    ensures key in HandlesIn(fields, handleOf) <==>
            exists f :: f in fields && f.secret != [] && key == (f.name, handleOf(f.name, f.secret))
  {
    if fields != [] {
      var rest, last := fields[..|fields| - 1], fields[|fields| - 1];
      HandlesAre(rest, handleOf, key);
      assert fields == rest + [last];
      if key in HandlesIn(rest, handleOf) {
        var f :| f in rest && f.secret != [] && key == (f.name, handleOf(f.name, f.secret));
        assert f in fields;
      }
      assert last in fields;
    }
  }

  // And it is collected once, so one record makes one finding of it.
  lemma {:induction false} HandlesDiffer(fields: seq<Field>, handleOf: HandleOf)
    ensures NoRepeats(HandlesIn(fields, handleOf))
  {
    if fields != [] {
      var rest, f := fields[..|fields| - 1], fields[|fields| - 1];
      HandlesDiffer(rest, handleOf);
      var before, key := HandlesIn(rest, handleOf), (f.name, handleOf(f.name, f.secret));
      if f.secret != [] && key !in before {
        OneMore(before, key);
      }
    }
  }

  // Handles stand in the order in which the fields first bring them.
  lemma {:induction false} HandlesInOrder(fields: seq<Field>, handleOf: HandleOf, i: nat, j: nat)
    requires i < j < |HandlesIn(fields, handleOf)|
    ensures var keys := HandlesIn(fields, handleOf);
            exists n :: 0 <= n <= |fields| && keys[i] in HandlesIn(fields[..n], handleOf)
                        && forall f :: f in fields[..n] && f.secret != [] ==> keys[j] != (f.name, handleOf(f.name, f.secret))
    decreases |fields|
  {
    var n := |fields| - 1;
    var rest, keys := fields[..n], HandlesIn(fields, handleOf);
    if j < |HandlesIn(rest, handleOf)| {
      HandlesInOrder(rest, handleOf, i, j);
      var m :| 0 <= m <= n && keys[i] in HandlesIn(rest[..m], handleOf)
               && forall f :: f in rest[..m] && f.secret != [] ==> keys[j] != (f.name, handleOf(f.name, f.secret));
      assert fields[..m] == rest[..m];
    } else {
      HandlesAre(rest, handleOf, keys[j]);
      HandlesDiffer(fields, handleOf);
      assert keys[i] in HandlesIn(fields[..n], handleOf);
    }
  }

  // ----- clusters -----

  predicate Has(r: Record, key: Key, handleOf: HandleOf) {
    key in Handles(r, handleOf)
  }

  // The ids of the records that have a key, in order, each once.
  function Members(records: seq<Record>, key: Key, handleOf: HandleOf): seq<nat> {
    if records == [] then []
    else
      var before, r := Members(records[..|records| - 1], key, handleOf), records[|records| - 1];
      if Has(r, key, handleOf) && r.id !in before then before + [r.id] else before
  }

  ghost predicate IsGrouping(clusters: map<Key, seq<nat>>, records: seq<Record>, handleOf: HandleOf) {
    && (forall key :: key in clusters <==> Members(records, key, handleOf) != [])
    && (forall key :: key in clusters ==> clusters[key] == Members(records, key, handleOf))
  }

  lemma MembersGrow(records: seq<Record>, i: nat, key: Key, handleOf: HandleOf)
    requires i < |records|
    ensures var before, r := Members(records[..i], key, handleOf), records[i];
            Members(records[..i + 1], key, handleOf)
            == if Has(r, key, handleOf) && r.id !in before then before + [r.id] else before
  {
    assert records[..i + 1][..i] == records[..i];
  }

  function Entry(clusters: map<Key, seq<nat>>, key: Key): seq<nat> {
    if key in clusters then clusters[key] else []
  }

  ghost predicate NoEmptyEntry(clusters: map<Key, seq<nat>>) {
    forall key :: key in clusters ==> clusters[key] != []
  }

  function WithMember(members: seq<nat>, id: nat): seq<nat> {
    if id in members then members else members + [id]
  }

  // The order of the map's keys: by field name, then by handle.
  predicate KeyPrecedes(a: Key, b: Key) {
    Precedes(a.0, b.0) || (a.0 == b.0 && Precedes(a.1, b.1))
  }

  lemma KeyOrderIsStrict()
    ensures StrictOrder(KeyPrecedes)
  {
    hide Precedes;
    PrecedesIsStrict();
  }

  // `order` lists the map's keys as iterating over it would.
  method ClusterMap(records: seq<Record>, handleOf: HandleOf)
    returns (order: seq<Key>, clusters: map<Key, seq<nat>>)
    ensures IsGrouping(clusters, records, handleOf)
    ensures Ascending(order, KeyPrecedes) && forall key :: key in order <==> key in clusters
  {
    hide Precedes;
    hide AddOrdered;
    KeyOrderIsStrict();
    order := [];
    hide Members;
    hide Handles;
    clusters := map[];
    forall key ensures Members(records[..0], key, handleOf) == [] {
      NoMembers(records[..0], key, handleOf);
    }
    for i := 0 to |records|
      invariant NoEmptyEntry(clusters)
      invariant Ascending(order, KeyPrecedes) && forall key :: key in order <==> key in clusters
      invariant forall key :: Entry(clusters, key) == Members(records[..i], key, handleOf)
    {
      var record := records[i];
      var perField := RecordHandles(record, handleOf);
      ghost var before := clusters;
      for j := 0 to |perField|
        invariant NoEmptyEntry(clusters)
        invariant Ascending(order, KeyPrecedes) && forall key :: key in order <==> key in clusters
        invariant forall key :: Entry(clusters, key)
                            == if key in perField[..j] then WithMember(Entry(before, key), record.id) else Entry(before, key)
      {
        var key := perField[j];
        var members := Entry(clusters, key);
        if record.id !in members {
          members := members + [record.id];
        }
        AddOrderedKeeps(order, key, KeyPrecedes);
        AddOrderedHas(order, key, KeyPrecedes);
        order := AddOrdered(order, key, KeyPrecedes);
        clusters := clusters[key := members];
      }
      assert perField[..|perField|] == perField;
      forall key ensures Entry(clusters, key) == Members(records[..i + 1], key, handleOf) {
        MembersGrow(records, i, key, handleOf);
      }
    }
    assert records[..|records|] == records;
    forall key ensures key in clusters <==> Members(records, key, handleOf) != [] {
      assert Entry(clusters, key) == Members(records, key, handleOf);
    }
  }

  lemma NoMembers(records: seq<Record>, key: Key, handleOf: HandleOf)
    requires records == []
    ensures Members(records, key, handleOf) == []
  {
  }

  lemma {:induction false} MembersAre(records: seq<Record>, key: Key, handleOf: HandleOf)
    ensures NoRepeats(Members(records, key, handleOf))
    ensures forall id :: id in Members(records, key, handleOf) <==>
                         exists r :: r in records && r.id == id && Has(r, key, handleOf)
    decreases |records|
  {
    hide Handles;
    hide Has;
    if records != [] {
      var rest, last := records[..|records| - 1], records[|records| - 1];
      MembersAre(rest, key, handleOf);
      assert records == rest + [last] && last in records;
      forall id ensures id in Members(records, key, handleOf) <==>
                        exists r :: r in records && r.id == id && Has(r, key, handleOf)
      {
        if id in Members(rest, key, handleOf) {
          var r :| r in rest && r.id == id && Has(r, key, handleOf);
          assert r in records;
        }
      }
    }
  }

  // Members stand in the order in which the records first bring them.
  lemma {:induction false} MembersInOrder(records: seq<Record>, key: Key, handleOf: HandleOf, i: nat, j: nat)
    requires i < j < |Members(records, key, handleOf)|
    ensures var ids := Members(records, key, handleOf);
            exists n :: 0 <= n <= |records| && ids[i] in Members(records[..n], key, handleOf)
                        && forall r :: r in records[..n] && r.id == ids[j] ==> !Has(r, key, handleOf)
    decreases |records|
  {
    hide Has;
    var n := |records| - 1;
    var rest, r, ids := records[..n], records[n], Members(records, key, handleOf);
    MembersAre(rest, key, handleOf);
    if j < |Members(rest, key, handleOf)| {
      MembersInOrder(rest, key, handleOf, i, j);
      var m :| 0 <= m <= n && ids[i] in Members(rest[..m], key, handleOf)
               && forall r :: r in rest[..m] && r.id == ids[j] ==> !Has(r, key, handleOf);
      assert records[..m] == rest[..m];
    } else {
      assert ids[i] in Members(records[..n], key, handleOf);
    }
  }

  datatype ReuseCluster = ReuseCluster(field: string, handle: string, members: seq<nat>)

  function KeyOf(c: ReuseCluster): Key {
    (c.field, c.handle)
  }

  function ClusterOf(records: seq<Record>, key: Key, handleOf: HandleOf): ReuseCluster {
    ReuseCluster(key.0, key.1, Members(records, key, handleOf))
  }

  // Clusters are reported by field, and those of one field by handle, both as
  // texts are ordered: by the first character that differs.
  lemma ClustersAreOrdered(reuse: seq<ReuseCluster>, records: seq<Record>, handleOf: HandleOf, i: nat, j: nat)
    requires AreClusters(reuse, records, handleOf) && i < j < |reuse|
    ensures var a, b := reuse[i], reuse[j];
            || (exists n: nat :: PartsBefore(a.field, b.field, n))
            || (a.field == b.field && exists n: nat :: PartsBefore(a.handle, b.handle, n))
  {
    hide Precedes;
    hide PartsBefore;
    PrecedesExactly(reuse[i].field, reuse[j].field);
    PrecedesExactly(reuse[i].handle, reuse[j].handle);
    assert KeyPrecedes(KeyOf(reuse[i]), KeyOf(reuse[j]));
  }

  ghost predicate InKeyOrder(reuse: seq<ReuseCluster>) {
    forall i, j :: 0 <= i < j < |reuse| ==> KeyPrecedes(KeyOf(reuse[i]), KeyOf(reuse[j]))
  }

  // The clusters reported: the groups of more than one, in order.
  ghost predicate AreClusters(reuse: seq<ReuseCluster>, records: seq<Record>, handleOf: HandleOf) {
    && InKeyOrder(reuse)
    && forall c :: c in reuse <==> |c.members| > 1 && c == ClusterOf(records, KeyOf(c), handleOf)
  }

  method ReportClusters(records: seq<Record>, order: seq<Key>, clusters: map<Key, seq<nat>>, handleOf: HandleOf)
    returns (reuse: seq<ReuseCluster>)
    requires IsGrouping(clusters, records, handleOf)
    requires Ascending(order, KeyPrecedes) && forall key :: key in order <==> key in clusters
    ensures AreClusters(reuse, records, handleOf)
  {
    hide Members;
    hide KeyPrecedes;
    reuse := [];
    for i := 0 to |order|
      invariant InKeyOrder(reuse) && forall j :: 0 <= j < |reuse| ==> KeyOf(reuse[j]) in order[..i]
      invariant forall c :: c in reuse <==> KeyOf(c) in order[..i] && |c.members| > 1 && c.members == Members(records, KeyOf(c), handleOf)
    {
      assert order[..i + 1] == order[..i] + [order[i]];
      var key := order[i];
      assert forall k :: k in order[..i] ==> KeyPrecedes(k, key);
      if |clusters[key]| > 1 {
        reuse := reuse + [ReuseCluster(key.0, key.1, clusters[key])];
      }
    }
    assert order[..|order|] == order;
  }

  // Exactly the groups that two records with different ids share.
  lemma ClustersAreSharedGroups(records: seq<Record>, handleOf: HandleOf, reuse: seq<ReuseCluster>, key: Key)
    requires AreClusters(reuse, records, handleOf)
    ensures var c := ClusterOf(records, key, handleOf);
            && (c in reuse <==>
                exists a, b :: a in records && b in records && a.id != b.id && Has(a, key, handleOf) && Has(b, key, handleOf))
            && NoRepeats(c.members)
            && (forall id :: id in c.members <==> exists r :: r in records && r.id == id && Has(r, key, handleOf))
            && (forall d :: d in reuse && KeyOf(d) == key ==> d == c)
  {
    hide Members;
    hide Has;
    hide KeyPrecedes;
    MembersAre(records, key, handleOf);
    var members := Members(records, key, handleOf);
    if |members| > 1 {
      assert members[0] in members && members[1] in members;
      var a :| a in records && a.id == members[0] && Has(a, key, handleOf);
      var b :| b in records && b.id == members[1] && Has(b, key, handleOf);
      assert a.id != b.id;
    }
    if a, b :| a in records && b in records && a.id != b.id && Has(a, key, handleOf) && Has(b, key, handleOf) {
      assert a.id in members && b.id in members;
      TwoMembers(members, a.id, b.id);
    }
  }

  lemma TwoMembers(ids: seq<nat>, a: nat, b: nat)
    requires a in ids && b in ids && a != b
    ensures |ids| > 1
  {
    var i :| 0 <= i < |ids| && ids[i] == a;
    var j :| 0 <= j < |ids| && ids[j] == b;
  }

  // ----- findings -----

  function NotId(id: nat): nat -> bool {
    other => other != id
  }

  function SharedWith(records: seq<Record>, id: nat, key: Key, handleOf: HandleOf): seq<nat> {
    Filter(Members(records, key, handleOf), NotId(id))
  }

  function ReusedIssues(records: seq<Record>, id: nat, keys: seq<Key>, handleOf: HandleOf): seq<Issue> {
    if keys == [] then []
    else
      var key := keys[|keys| - 1];
      var shared := SharedWith(records, id, key, handleOf);
      ReusedIssues(records, id, keys[..|keys| - 1], handleOf)
      + (if shared == [] then [] else [Reused(key.0, shared, key.1)])
  }

  function OtherIssues(severities: seq<Severity>): (r: seq<Issue>)
    ensures |r| == |severities|
    ensures forall i :: 0 <= i < |severities| ==> r[i] == Other(severities[i])
  {
    seq(|severities|, i requires 0 <= i < |severities| => Other(severities[i]))
  }

  predicate WorseFirst(a: Issue, b: Issue) {
    Rank(SeverityOf(a)) <= Rank(SeverityOf(b))
  }

  function IssuesOf(records: seq<Record>, r: Record, handleOf: HandleOf): seq<Issue> {
    SortBy(ReusedIssues(records, r.id, Handles(r, handleOf), handleOf) + OtherIssues(r.others), WorseFirst)
  }

  // A record with no issue is left out.
  function ReportsOf(records: seq<Record>, some: seq<Record>, handleOf: HandleOf): seq<RecordReport> {
    if some == [] then []
    else
      var r := some[|some| - 1];
      var issues := IssuesOf(records, r, handleOf);
      ReportsOf(records, some[..|some| - 1], handleOf)
      + (if issues == [] then [] else [RecordReport(r.id, issues)])
  }

  function AllReports(records: seq<Record>, handleOf: HandleOf): seq<RecordReport> {
    ReportsOf(records, records, handleOf)
  }

  method Analyse(records: seq<Record>, handleOf: HandleOf)
    returns (reports: seq<RecordReport>, reuseClusters: seq<ReuseCluster>, score: Score)
    ensures reports == AllReports(records, handleOf)
    ensures AreClusters(reuseClusters, records, handleOf)
    ensures Tallies(score, reports, |records|)
  {
    hide Members;
    hide Handles;
    hide SortBy;
    hide Filter;
    hide Tallies;
    var order, clusters := ClusterMap(records, handleOf);
    reports := [];
    for i := 0 to |records|
      invariant reports == ReportsOf(records, records[..i], handleOf)
    {
      assert records[..i + 1][..i] == records[..i];
      var record := records[i];
      var keys := RecordHandles(record, handleOf);
      var issues := ReusedOf(records, record, keys, clusters, handleOf);
      issues := issues + OtherIssues(record.others);
      SortKeepsEmptiness(issues);
      if issues == [] {
        continue;
      }
      issues := SortBy(issues, WorseFirst);
      reports := reports + [RecordReport(record.id, issues)];
    }
    assert records[..|records|] == records;
    reuseClusters := ReportClusters(records, order, clusters, handleOf);
    score := ScoreOf(reports, |records|);
  }

  method ReusedOf(records: seq<Record>, record: Record, keys: seq<Key>, clusters: map<Key, seq<nat>>, handleOf: HandleOf)
    returns (issues: seq<Issue>)
    requires IsGrouping(clusters, records, handleOf)
    ensures issues == ReusedIssues(records, record.id, keys, handleOf)
  {
    hide Members;
    hide Filter;
    issues := [];
    for j := 0 to |keys|
      invariant issues == ReusedIssues(records, record.id, keys[..j], handleOf)
    {
      assert keys[..j + 1][..j] == keys[..j];
      var key := keys[j];
      FilterNothing<nat>([], NotId(record.id));
      if key !in clusters {
        continue;
      }
      var sharedWith := Filter(clusters[key], NotId(record.id));
      if sharedWith == [] {
        continue;
      }
      issues := issues + [Reused(key.0, sharedWith, key.1)];
    }
    assert keys[..|keys|] == keys;
  }

  lemma WorseFirstIsTotal()
    ensures TotalPreorder(WorseFirst)
  {
  }

  lemma SortKeepsEmptiness(issues: seq<Issue>)
    ensures SortBy(issues, WorseFirst) == [] <==> issues == []
  {
    hide SortBy;
    WorseFirstIsTotal();
    SortBySorts(issues, WorseFirst);
    if issues != [] {
      assert issues[0] in multiset(issues);
    }
  }

  function Is(severity: Severity): Issue -> bool {
    issue => issue == Other(severity)
  }

  // The three severities one after the other, reuse in front, each in the
  // order the analysis made it.
  function BySeverity(reused: seq<Issue>, others: seq<Issue>): seq<Issue> {
    reused + Filter(others, Is(High)) + Filter(others, Is(Medium)) + Filter(others, Is(Low))
  }

  lemma {:induction false} InsertPast<T>(x: T, a: seq<T>, b: seq<T>, le: (T, T) -> bool)
    requires forall y :: y in a ==> !le(x, y)
    requires b != [] ==> le(x, b[0])
    ensures Insert(x, a + b, le) == a + [x] + b
    decreases |a|
  {
    if a == [] {
      assert a + b == b;
    } else {
      assert (a + b)[1..] == a[1..] + b && (a + b)[0] == a[0];
      InsertPast(x, a[1..], b, le);
      assert [a[0]] + (a[1..] + [x] + b) == a + [x] + b;
    }
  }

  lemma {:induction false} SortOthers(others: seq<Issue>)
    requires forall i :: i in others ==> i.Other?
    ensures SortBy(others, WorseFirst) == BySeverity([], others)
    decreases |others|
  {
    hide Insert;
    hide Filter;
    if others == [] {
      FilterNothing(others, Is(High));
      FilterNothing(others, Is(Medium));
      FilterNothing(others, Is(Low));
    } else {
      var x, rest := others[0], others[1..];
      assert others == [x] + rest && x in others;
      SortOthers(rest);
      SortCons(x, rest, WorseFirst);
      var h, m, l := Filter(rest, Is(High)), Filter(rest, Is(Medium)), Filter(rest, Is(Low));
      FilterIsPart(rest, Is(High));
      FilterIsPart(rest, Is(Medium));
      FilterIsPart(rest, Is(Low));
      FilterCons(x, rest, Is(High));
      FilterCons(x, rest, Is(Medium));
      FilterCons(x, rest, Is(Low));
      PlaceBySeverity(x, h, m, l);
    }
  }

  lemma PlaceBySeverity(x: Issue, h: seq<Issue>, m: seq<Issue>, l: seq<Issue>)
    requires x.Other?
    requires (forall i :: i in h ==> i == Other(High)) && (forall i :: i in m ==> i == Other(Medium)) && (forall i :: i in l ==> i == Other(Low))
    ensures Insert(x, [] + h + m + l, WorseFirst) == match x.severity
                                                case High => [] + ([x] + h) + m + l
                                                case Medium => [] + h + ([x] + m) + l
                                                case Low => [] + h + m + ([x] + l)
  {
    hide Insert;
    match x.severity
    case High =>
      assert [] + h + m + l == [] + (h + m + l);
      forall y | y in h + m + l ensures WorseFirst(x, y) { }
      assert h + m + l != [] ==> (h + m + l)[0] in h + m + l;
      InsertPast(x, [], h + m + l, WorseFirst);
      assert [] + [x] + (h + m + l) == [] + ([x] + h) + m + l;
    case Medium =>
      assert [] + h + m + l == h + (m + l);
      assert m + l != [] ==> (m + l)[0] in m + l;
      InsertPast(x, h, m + l, WorseFirst);
      assert h + [x] + (m + l) == [] + h + ([x] + m) + l;
    case Low =>
      assert [] + h + m + l == h + m + l;
      assert l != [] ==> l[0] in l;
      InsertPast(x, h + m, l, WorseFirst);
      assert (h + m) + [x] + l == [] + h + m + ([x] + l);
  }

  lemma {:induction false} ReusedToFront(reused: seq<Issue>, others: seq<Issue>)
    requires forall i :: i in reused ==> i.Reused?
    ensures SortBy(reused + others, WorseFirst) == reused + SortBy(others, WorseFirst)
    decreases |reused|
  {
    hide Insert;
    if reused == [] {
      assert reused + others == others;
    } else {
      var x, rest := reused[0], reused[1..];
      assert reused == [x] + rest && x in reused && reused + others == [x] + (rest + others);
      ReusedToFront(rest, others);
      SortCons(x, rest + others, WorseFirst);
      var sorted := rest + SortBy(others, WorseFirst);
      InsertFirst(x, sorted, WorseFirst);
      assert [x] + sorted == reused + SortBy(others, WorseFirst);
    }
  }

  lemma {:induction false} ReusedAreReused(records: seq<Record>, id: nat, keys: seq<Key>, handleOf: HandleOf)
    ensures forall i :: i in ReusedIssues(records, id, keys, handleOf) ==> i.Reused?
  {
    hide SharedWith;
    if keys != [] {
      ReusedAreReused(records, id, keys[..|keys| - 1], handleOf);
    }
  }

  // A record's findings, exactly: reuse, then what is high, medium and low.
  lemma FindingsAreBySeverity(records: seq<Record>, r: Record, handleOf: HandleOf)
    ensures IssuesOf(records, r, handleOf)
         == BySeverity(ReusedIssues(records, r.id, Handles(r, handleOf), handleOf), OtherIssues(r.others))
  {
    hide SortBy;
    hide Filter;
    hide Handles;
    hide ReusedIssues;
    var reused, others := ReusedIssues(records, r.id, Handles(r, handleOf), handleOf), OtherIssues(r.others);
    ReusedAreReused(records, r.id, Handles(r, handleOf), handleOf);
    ReusedToFront(reused, others);
    SortOthers(others);
    var h, m, l := Filter(others, Is(High)), Filter(others, Is(Medium)), Filter(others, Is(Low));
    assert reused + ([] + h + m + l) == reused + h + m + l;
  }

  // How bad a finding is, the worst being 2.
  function Gravity(i: Issue): nat {
    if i == Other(Low) then 0 else if i == Other(Medium) then 1 else 2
  }

  // No finding stands before a worse one.
  ghost predicate WorstFirst(issues: seq<Issue>) {
    && (forall i, j :: 0 <= i < j < |issues| ==> Gravity(issues[i]) >= Gravity(issues[j]))
    && (forall i, j :: 0 <= i < j < |issues| && issues[j].Reused? ==> issues[i].Reused?)
  }

  lemma BySeverityIsWorstFirst(reused: seq<Issue>, others: seq<Issue>)
    requires forall i :: i in reused ==> i.Reused?
    ensures WorstFirst(BySeverity(reused, others))
  {
    hide Filter;
    FilterIsPart(others, Is(High));
    FilterIsPart(others, Is(Medium));
    FilterIsPart(others, Is(Low));
    var h, m, l := Filter(others, Is(High)), Filter(others, Is(Medium)), Filter(others, Is(Low));
    var issues := BySeverity(reused, others);
    forall i | 0 <= i < |issues|
      ensures if i < |reused| then issues[i].Reused?
              else if i < |reused| + |h| then issues[i] == Other(High)
              else if i < |reused| + |h| + |m| then issues[i] == Other(Medium)
              else issues[i] == Other(Low)
    {
      if i < |reused| {
        assert issues[i] == reused[i] && reused[i] in reused;
      } else if i < |reused| + |h| {
        assert issues[i] == h[i - |reused|] && issues[i] in h;
      } else if i < |reused| + |h| + |m| {
        assert issues[i] == m[i - |reused| - |h|] && issues[i] in m;
      } else {
        assert issues[i] == l[i - |reused| - |h| - |m|] && issues[i] in l;
      }
    }
  }

  // A record's findings stand worst first, reuse before all else, none lost and
  // none added.
  lemma FindingsAreWorstFirst(records: seq<Record>, r: Record, handleOf: HandleOf)
    ensures WorstFirst(IssuesOf(records, r, handleOf))
    ensures multiset(IssuesOf(records, r, handleOf))
         == multiset(ReusedIssues(records, r.id, Handles(r, handleOf), handleOf)) + multiset(OtherIssues(r.others))
  {
    hide SortBy;
    hide Handles;
    hide ReusedIssues;
    hide BySeverity;
    hide WorstFirst;
    WorseFirstIsTotal();
    var reused, others := ReusedIssues(records, r.id, Handles(r, handleOf), handleOf), OtherIssues(r.others);
    SortBySorts(reused + others, WorseFirst);
    ReusedAreReused(records, r.id, Handles(r, handleOf), handleOf);
    FindingsAreBySeverity(records, r, handleOf);
    BySeverityIsWorstFirst(reused, others);
  }

  // Which records are reported: those with a finding, in order, each with its
  // id and all its findings, the worst first. `at` says where they stand.
  ghost predicate Reported(reports: seq<RecordReport>, at: seq<nat>, records: seq<Record>, some: seq<Record>, handleOf: HandleOf) {
    && |at| == |reports|
    && (forall k :: 0 <= k < |at| ==> at[k] < |some|)
    && (forall k :: 0 <= k < |at| ==> ReportFor(reports[k], records, some[at[k]], handleOf))
    && (forall k, l :: 0 <= k < l < |at| ==> at[k] < at[l])
    && (forall i: nat :: i < |some| && i !in at ==> IssuesOf(records, some[i], handleOf) == [])
  }

  ghost predicate ReportFor(report: RecordReport, records: seq<Record>, r: Record, handleOf: HandleOf) {
    && report.id == r.id && report.issues == IssuesOf(records, r, handleOf) != []
    && WorstFirst(report.issues)
  }

  lemma {:induction false} SomeReported(records: seq<Record>, some: seq<Record>, handleOf: HandleOf) returns (at: seq<nat>)
    ensures Reported(ReportsOf(records, some, handleOf), at, records, some, handleOf)
    decreases |some|
  {
    hide IssuesOf;
    hide ReportFor;
    if some == [] {
      at := [];
    } else {
      var n := |some| - 1;
      at := SomeReported(records, some[..n], handleOf);
      var before := ReportsOf(records, some[..n], handleOf);
      var issues := IssuesOf(records, some[n], handleOf);
      if issues == [] {
        ReportedSkips(before, at, records, some, handleOf);
      } else {
        OneReport(records, some[n], handleOf);
        ReportedGrows(before, at, records, some, handleOf, RecordReport(some[n].id, issues));
        at := at + [n];
      }
    }
  }

  lemma OneReport(records: seq<Record>, r: Record, handleOf: HandleOf)
    requires IssuesOf(records, r, handleOf) != []
    ensures ReportFor(RecordReport(r.id, IssuesOf(records, r, handleOf)), records, r, handleOf)
  {
    hide IssuesOf;
    hide WorstFirst;
    FindingsAreWorstFirst(records, r, handleOf);
  }

  lemma ReportedSkips(before: seq<RecordReport>, at: seq<nat>, records: seq<Record>, some: seq<Record>, handleOf: HandleOf)
    requires some != [] && Reported(before, at, records, some[..|some| - 1], handleOf)
    requires IssuesOf(records, some[|some| - 1], handleOf) == []
    ensures Reported(before, at, records, some, handleOf)
  {
    hide IssuesOf;
    hide ReportFor;
    var n := |some| - 1;
    assert forall i :: 0 <= i < n ==> some[..n][i] == some[i];
  }

  lemma ReportedGrows(before: seq<RecordReport>, at: seq<nat>, records: seq<Record>, some: seq<Record>, handleOf: HandleOf, last: RecordReport)
    requires some != [] && Reported(before, at, records, some[..|some| - 1], handleOf)
    requires ReportFor(last, records, some[|some| - 1], handleOf)
    ensures Reported(before + [last], at + [|some| - 1], records, some, handleOf)
  {
    hide IssuesOf;
    hide ReportFor;
    var n := |some| - 1;
    assert forall i :: 0 <= i < n ==> some[..n][i] == some[i];
    forall i: nat | i < |some| && i !in at + [n] ensures IssuesOf(records, some[i], handleOf) == [] {
      assert i != n && i !in at;
    }
  }

  lemma AllReported(records: seq<Record>, handleOf: HandleOf) returns (at: seq<nat>)
    ensures Reported(AllReports(records, handleOf), at, records, records, handleOf)
  {
    at := SomeReported(records, records, handleOf);
  }

  // ----- what the findings say -----

  lemma {:induction false} ReusedIssuesAre(records: seq<Record>, id: nat, keys: seq<Key>, handleOf: HandleOf, issue: Issue)
    ensures issue in ReusedIssues(records, id, keys, handleOf) <==>
            issue.Reused? && (issue.field, issue.handle) in keys
            && issue.sharedWith == SharedWith(records, id, (issue.field, issue.handle), handleOf)
            && issue.sharedWith != []
    decreases |keys|
  {
    hide SharedWith;
    if keys != [] {
      var rest, key := keys[..|keys| - 1], keys[|keys| - 1];
      ReusedIssuesAre(records, id, rest, handleOf, issue);
      assert keys == rest + [key];
    }
  }

  // Reuse findings follow the record's handles.
  lemma {:induction false} ReusedInOrder(records: seq<Record>, id: nat, keys: seq<Key>, handleOf: HandleOf, i: nat, j: nat)
    requires i < j < |ReusedIssues(records, id, keys, handleOf)|
    ensures var issues := ReusedIssues(records, id, keys, handleOf);
            && issues[i].Reused? && issues[j].Reused?
            && exists p, q :: 0 <= p < q < |keys| && keys[p] == (issues[i].field, issues[i].handle)
                              && keys[q] == (issues[j].field, issues[j].handle)
    decreases |keys|
  {
    hide SharedWith;
    var n := |keys| - 1;
    var rest, issues := keys[..n], ReusedIssues(records, id, keys, handleOf);
    var before := ReusedIssues(records, id, rest, handleOf);
    if j < |before| {
      ReusedInOrder(records, id, rest, handleOf, i, j);
      var p, q :| 0 <= p < q < |rest| && rest[p] == (issues[i].field, issues[i].handle)
                  && rest[q] == (issues[j].field, issues[j].handle);
      assert keys[p] == rest[p] && keys[q] == rest[q];
    } else {
      ReusedIssuesAre(records, id, rest, handleOf, issues[i]);
      assert issues[i] in before;
      var p :| 0 <= p < |rest| && rest[p] == (issues[i].field, issues[i].handle);
      assert keys[p] == rest[p] && keys[n] == (issues[j].field, issues[j].handle);
    }
  }

  // A record's reuse findings: for each of its handles that another id has,
  // all the other ids that have it.
  lemma FindingsAre(records: seq<Record>, r: Record, handleOf: HandleOf, key: Key, shared: seq<nat>)
    ensures Reused(key.0, shared, key.1) in IssuesOf(records, r, handleOf) <==>
            Has(r, key, handleOf) && shared == SharedWith(records, r.id, key, handleOf) && shared != []
  {
    hide SortBy;
    hide SharedWith;
    hide Handles;
    var issue := Reused(key.0, shared, key.1);
    var reused := ReusedIssues(records, r.id, Handles(r, handleOf), handleOf);
    var issues := reused + OtherIssues(r.others);
    WorseFirstIsTotal();
    SortBySorts(issues, WorseFirst);
    assert issue in SortBy(issues, WorseFirst) <==> issue in multiset(SortBy(issues, WorseFirst));
    assert issue in issues <==> issue in multiset(issues);
    ReusedIssuesAre(records, r.id, Handles(r, handleOf), handleOf, issue);
    assert issue in issues <==> issue in reused;
  }

  lemma SharedWithAre(records: seq<Record>, id: nat, key: Key, handleOf: HandleOf, other: nat)
    ensures other in SharedWith(records, id, key, handleOf) <==>
            other != id && exists r :: r in records && r.id == other && Has(r, key, handleOf)
  {
    hide Members;
    hide Has;
    hide Filter;
    MembersAre(records, key, handleOf);
    FilterIsPart(Members(records, key, handleOf), NotId(id));
  }

  ghost predicate DistinctIds(records: seq<Record>) {
    forall a, b :: a in records && b in records && a.id == b.id ==> a == b
  }

  // Whether the analysis tells `r` that it shares `key` with `other`.
  ghost predicate Tells(records: seq<Record>, r: Record, handleOf: HandleOf, key: Key, other: nat) {
    exists shared :: Reused(key.0, shared, key.1) in IssuesOf(records, r, handleOf) && other in shared
  }

  // With distinct ids, two records are told of each other exactly when they
  // are different and share the handle; so the telling is mutual.
  lemma ReuseIsMutual(records: seq<Record>, a: Record, b: Record, handleOf: HandleOf, key: Key)
    requires DistinctIds(records) && a in records && b in records
    ensures Tells(records, a, handleOf, key, b.id) <==> a != b && Has(a, key, handleOf) && Has(b, key, handleOf)
    ensures Tells(records, a, handleOf, key, b.id) <==> Tells(records, b, handleOf, key, a.id)
  {
    hide IssuesOf;
    hide SharedWith;
    hide Has;
    TellsExactly(records, a, b, handleOf, key);
    TellsExactly(records, b, a, handleOf, key);
  }

  lemma TellsExactly(records: seq<Record>, a: Record, b: Record, handleOf: HandleOf, key: Key)
    requires DistinctIds(records) && a in records && b in records
    ensures Tells(records, a, handleOf, key, b.id) <==> a != b && Has(a, key, handleOf) && Has(b, key, handleOf)
  {
    hide IssuesOf;
    hide SharedWith;
    hide Has;
    var shared := SharedWith(records, a.id, key, handleOf);
    SharedWithAre(records, a.id, key, handleOf, b.id);
    FindingsAre(records, a, handleOf, key, shared);
    if Tells(records, a, handleOf, key, b.id) {
      var told :| Reused(key.0, told, key.1) in IssuesOf(records, a, handleOf) && b.id in told;
      FindingsAre(records, a, handleOf, key, told);
    }
  }

  // A record has a reuse finding for a key exactly when the key's cluster is
  // reported and the record is in it.
  lemma FindingsMatchClusters(
      records: seq<Record>, r: Record, handleOf: HandleOf, key: Key, reuse: seq<ReuseCluster>)
    requires DistinctIds(records) && r in records && AreClusters(reuse, records, handleOf)
    ensures (exists shared :: Reused(key.0, shared, key.1) in IssuesOf(records, r, handleOf)) <==>
            exists c :: c in reuse && KeyOf(c) == key && r.id in c.members
  {
    hide IssuesOf;
    hide SharedWith;
    hide Has;
    hide AreClusters;
    hide Members;
    ClustersAreSharedGroups(records, handleOf, reuse, key);
    assert KeyOf(ClusterOf(records, key, handleOf)) == key;
    var shared := SharedWith(records, r.id, key, handleOf);
    FindingsAre(records, r, handleOf, key, shared);
    if told :| Reused(key.0, told, key.1) in IssuesOf(records, r, handleOf) {
      FindingsAre(records, r, handleOf, key, told);
      SharedWithAre(records, r.id, key, handleOf, told[0]);
    }
    if c :| c in reuse && KeyOf(c) == key && r.id in c.members {
      var a, b :| a in records && b in records && a.id != b.id && Has(a, key, handleOf) && Has(b, key, handleOf);
      var other := if a.id == r.id then b else a;
      SharedWithAre(records, r.id, key, handleOf, other.id);
      assert other.id in shared;
    }
  }

  // ----- the score -----

  function Count(issues: seq<Issue>, s: Severity): nat {
    if issues == [] then 0
    else Count(issues[..|issues| - 1], s) + (if SeverityOf(issues[|issues| - 1]) == s then 1 else 0)
  }

  function CountAll(reports: seq<RecordReport>, s: Severity): nat {
    if reports == [] then 0
    else CountAll(reports[..|reports| - 1], s) + Count(reports[|reports| - 1].issues, s)
  }

  function Demerits(issues: seq<Issue>): nat {
    if issues == [] then 0
    else Demerits(issues[..|issues| - 1]) + Weight(SeverityOf(issues[|issues| - 1]))
  }

  function Totals(reports: seq<RecordReport>): seq<Contribution> {
    if reports == [] then []
    else
      var r := reports[|reports| - 1];
      Totals(reports[..|reports| - 1]) + [Contribution(r.id, Demerits(r.issues))]
  }

  function Sum(contributions: seq<Contribution>): nat {
    if contributions == [] then 0 else contributions[0].demerits + Sum(contributions[1..])
  }

  predicate CostliestFirst(a: Contribution, b: Contribution) {
    a.demerits > b.demerits || (a.demerits == b.demerits && a.id <= b.id)
  }

  // What a score says of the reports it was made from.
  ghost predicate Tallies(score: Score, reports: seq<RecordReport>, scanned: nat) {
    && score.high == CountAll(reports, High)
    && score.medium == CountAll(reports, Medium)
    && score.low == CountAll(reports, Low)
    && score.demerits == 5 * score.high + 2 * score.medium + score.low
    && score.demerits == Sum(score.contributions)
    && multiset(score.contributions) == multiset(Totals(reports))
    && Sorted(score.contributions, CostliestFirst)
    && (forall i, j :: 0 <= i < j < |score.contributions| ==>
          score.contributions[i].demerits > score.contributions[j].demerits
          || (score.contributions[i].demerits == score.contributions[j].demerits
              && score.contributions[i].id <= score.contributions[j].id))
    && score.recordsWithIssues == |reports|
    && score.cleanRecords == if scanned >= |reports| then scanned - |reports| else 0
  }

  lemma ReportsGrow(reports: seq<RecordReport>, i: nat, s: Severity)
    requires i < |reports|
    ensures CountAll(reports[..i + 1], s) == CountAll(reports[..i], s) + Count(reports[i].issues, s)
    ensures Totals(reports[..i + 1]) == Totals(reports[..i]) + [Contribution(reports[i].id, Demerits(reports[i].issues))]
  {
    hide Count;
    hide Demerits;
    assert reports[..i + 1][..i] == reports[..i];
  }

  method ScoreOf(reports: seq<RecordReport>, scanned: nat) returns (score: Score)
    ensures Tallies(score, reports, scanned)
  {
    hide SortBy;
    hide Demerits;
    hide Count;
    hide CountAll;
    hide Totals;
    hide Sum;
    hide Sorted;
    var high, medium, low := 0, 0, 0;
    var contributions := [];
    NothingReported(reports[..0]);
    for i := 0 to |reports|
      invariant high == CountAll(reports[..i], High)
      invariant medium == CountAll(reports[..i], Medium)
      invariant low == CountAll(reports[..i], Low)
      invariant contributions == Totals(reports[..i])
    {
      ReportsGrow(reports, i, High);
      ReportsGrow(reports, i, Medium);
      ReportsGrow(reports, i, Low);
      var issues := reports[i].issues;
      var h, m, l := CountIssues(issues);
      high, medium, low := high + h, medium + m, low + l;
      contributions := contributions + [Contribution(reports[i].id, Demerits(issues))];
    }
    assert reports[..|reports|] == reports;
    TotalIsSum(reports);
    CostliestFirstIsTotal();
    SortBySorts(contributions, CostliestFirst);
    SortKeepsSum(contributions);
    score := Score(high, medium, low, 5 * high + 2 * medium + low,
                   |reports|, if scanned >= |reports| then scanned - |reports| else 0,
                   SortBy(contributions, CostliestFirst));
  }

  lemma NothingReported(reports: seq<RecordReport>)
    requires reports == []
    ensures Totals(reports) == [] && forall s :: CountAll(reports, s) == 0
  {
  }

  method CountIssues(issues: seq<Issue>) returns (high: nat, medium: nat, low: nat)
    ensures high == Count(issues, High) && medium == Count(issues, Medium) && low == Count(issues, Low)
  {
    high, medium, low := 0, 0, 0;
    for i := 0 to |issues|
      invariant high == Count(issues[..i], High)
      invariant medium == Count(issues[..i], Medium)
      invariant low == Count(issues[..i], Low)
    {
      assert issues[..i + 1][..i] == issues[..i];
      match SeverityOf(issues[i])
      case High => high := high + 1;
      case Medium => medium := medium + 1;
      case Low => low := low + 1;
    }
    assert issues[..|issues|] == issues;
  }

  lemma CostliestFirstIsTotal()
    ensures TotalPreorder(CostliestFirst)
  {
  }

  lemma {:induction false} DemeritsAreWeights(issues: seq<Issue>)
    ensures Demerits(issues) == 5 * Count(issues, High) + 2 * Count(issues, Medium) + Count(issues, Low)
  {
    if issues != [] {
      DemeritsAreWeights(issues[..|issues| - 1]);
    }
  }

  function HasGravity(g: nat): Issue -> bool {
    issue => Gravity(issue) == g
  }

  // Counting a severity is counting the findings of that gravity.
  lemma {:induction false} CountIs(issues: seq<Issue>)
    ensures Count(issues, High) == |Filter(issues, HasGravity(2))|
    ensures Count(issues, Medium) == |Filter(issues, HasGravity(1))|
    ensures Count(issues, Low) == |Filter(issues, HasGravity(0))|
    decreases |issues|
  {
    hide Filter;
    if issues == [] {
      FilterNothing(issues, HasGravity(2));
      FilterNothing(issues, HasGravity(1));
      FilterNothing(issues, HasGravity(0));
    } else {
      var rest, last := issues[..|issues| - 1], issues[|issues| - 1];
      assert issues == rest + [last] && [last] == [last] + [];
      CountIs(rest);
      FilterLast(rest, last, 2);
      FilterLast(rest, last, 1);
      FilterLast(rest, last, 0);
    }
  }

  lemma FilterLast(rest: seq<Issue>, last: Issue, g: nat)
    ensures Filter(rest + [last], HasGravity(g)) == Filter(rest, HasGravity(g)) + if Gravity(last) == g then [last] else []
  {
    hide Filter;
    FilterAppend(rest, [last], HasGravity(g));
    FilterCons(last, [], HasGravity(g));
    assert [last] == [last] + [];
    FilterNothing([], HasGravity(g));
  }

  // Each report contributes its own id and five for each of the worst
  // findings, two for each of the next and one for each of the least.
  lemma {:induction false} TotalsAre(reports: seq<RecordReport>, k: nat)
    requires k < |reports|
    ensures |Totals(reports)| == |reports|
    ensures var c, issues := Totals(reports)[k], reports[k].issues;
            && c.id == reports[k].id
            && c.demerits == 5 * |Filter(issues, HasGravity(2))| + 2 * |Filter(issues, HasGravity(1))| + |Filter(issues, HasGravity(0))|
    decreases |reports|
  {
    hide Filter;
    hide Demerits;
    hide Count;
    var n := |reports| - 1;
    TotalsLength(reports[..n]);
    if k < n {
      TotalsAre(reports[..n], k);
    } else {
      DemeritsAreWeights(reports[n].issues);
      CountIs(reports[n].issues);
    }
  }

  lemma {:induction false} TotalsLength(reports: seq<RecordReport>)
    ensures |Totals(reports)| == |reports|
  {
    hide Demerits;
    if reports != [] {
      TotalsLength(reports[..|reports| - 1]);
    }
  }

  lemma {:induction false} SumAppend(contributions: seq<Contribution>, last: Contribution)
    ensures Sum(contributions + [last]) == Sum(contributions) + last.demerits
  {
    if contributions == [] {
      assert [] + [last] == [last];
    } else {
      assert (contributions + [last])[1..] == contributions[1..] + [last];
      SumAppend(contributions[1..], last);
    }
  }

  // Weighing the counts is adding up the records.
  lemma {:induction false} TotalIsSum(reports: seq<RecordReport>)
    ensures 5 * CountAll(reports, High) + 2 * CountAll(reports, Medium) + CountAll(reports, Low) == Sum(Totals(reports))
    decreases |reports|
  {
    hide Sum;
    hide Demerits;
    hide Count;
    if reports == [] {
      NothingSums([]);
    } else {
      var rest, r := reports[..|reports| - 1], reports[|reports| - 1];
      TotalIsSum(rest);
      DemeritsAreWeights(r.issues);
      SumAppend(Totals(rest), Contribution(r.id, Demerits(r.issues)));
    }
  }

  lemma NothingSums(contributions: seq<Contribution>)
    requires contributions == []
    ensures Sum(contributions) == 0
  {
  }

  lemma {:induction false} InsertAdds(x: Contribution, xs: seq<Contribution>)
    ensures Sum(Insert(x, xs, CostliestFirst)) == x.demerits + Sum(xs)
  {
    if xs != [] && !CostliestFirst(x, xs[0]) {
      InsertAdds(x, xs[1..]);
    }
  }

  lemma {:induction false} SortKeepsSum(xs: seq<Contribution>)
    ensures Sum(SortBy(xs, CostliestFirst)) == Sum(xs)
  {
    hide Insert;
    if xs != [] {
      SortKeepsSum(xs[1..]);
      InsertAdds(xs[0], SortBy(xs[1..], CostliestFirst));
    }
  }
}

// The backup log of crates/blackbag-core/src/backup.rs: a bounded list of
// copies per vault, and what it says about the history of copies made.
module BackupLog {
  import opened Wrappers
  import opened StableSort

  const KEEP: nat := 8

  datatype Entry = Entry(at: int, vault: nat, epoch: nat, path: string, digest: string, bytes: nat)

  datatype State = Missing | Present | Changed

  // What a path holds: a regular file of some length, or anything else.
  datatype Node = File(length: nat) | Other

  type Disk = map<string, Node>

  function StateOf(e: Entry, disk: Disk): State {
    if e.path !in disk then Missing
    else if disk[e.path] == File(e.bytes) then Present
    else Changed
  }

  // A regular file of the copy's own length is at its path.
  ghost predicate StillThere(e: Entry, disk: Disk) {
    e.path in disk && disk[e.path].File? && disk[e.path].length == e.bytes
  }

  // A copy is present when it is still there, missing when nothing is at its
  // path, and changed when anything else is.
  lemma StateExactly(e: Entry, disk: Disk)
    ensures StateOf(e, disk) == Present <==> StillThere(e, disk)
    ensures StateOf(e, disk) == Missing <==> e.path !in disk
    ensures StateOf(e, disk) == Changed <==> e.path in disk && !StillThere(e, disk)
  {
  }

  // ----- pushing -----

  predicate NewerFirst(a: Entry, b: Entry) {
    a.at >= b.at
  }

  predicate HigherFirst(a: Entry, b: Entry) {
    a.epoch >= b.epoch
  }

  function OfVault(v: nat): Entry -> bool {
    (e: Entry) => e.vault == v
  }

  function NotAt(path: string): Entry -> bool {
    (e: Entry) => e.path != path
  }

  // Not the earlier copy `entry` overwrites.
  function Unlike(entry: Entry): Entry -> bool {
    (e: Entry) => !(e.vault == entry.vault && e.path == entry.path)
  }

  function LiveIn(v: nat, disk: Disk): Entry -> bool {
    (e: Entry) => e.vault == v && StateOf(e, disk) == Present
  }

  function ForVault(entries: seq<Entry>, v: nat): seq<Entry> {
    Filter(entries, OfVault(v))
  }

  function Take<T>(xs: seq<T>, n: nat): seq<T> {
    if |xs| <= n then xs else xs[..n]
  }

  // All entries but those of vault `id` after its first `n`.
  function KeepFirst(entries: seq<Entry>, id: nat, n: nat): seq<Entry> {
    if entries == [] then []
    else if entries[0].vault != id then [entries[0]] + KeepFirst(entries[1..], id, n)
    else if n == 0 then KeepFirst(entries[1..], id, 0)
    else [entries[0]] + KeepFirst(entries[1..], id, n - 1)
  }

  lemma KeepFirstStep(out: seq<Entry>, all: seq<Entry>, i: nat, id: nat, n: nat)
    requires i < |all|
    ensures out + KeepFirst(all[i..], id, n)
         == if all[i].vault != id then out + [all[i]] + KeepFirst(all[i + 1..], id, n)
            else if n == 0 then out + KeepFirst(all[i + 1..], id, 0)
            else out + [all[i]] + KeepFirst(all[i + 1..], id, n - 1)
  {
    assert all[i..][1..] == all[i + 1..];
  }

  lemma KeepFirstNothing(entries: seq<Entry>, id: nat, n: nat)
    requires entries == []
    ensures KeepFirst(entries, id, n) == entries
  {
  }

  // The entries with the new one in place, before trimming.
  function Merged(entries: seq<Entry>, entry: Entry): seq<Entry> {
    SortBy(Filter(entries, Unlike(entry)) + [entry], NewerFirst)
  }

  function Pushed(entries: seq<Entry>, entry: Entry): seq<Entry> {
    var merged := Merged(entries, entry);
    if merged == [] then [] else KeepFirst(merged, merged[0].vault, KEEP)
  }

  function LiveFor(entries: seq<Entry>, v: nat, disk: Disk): seq<Entry> {
    SortBy(Filter(entries, LiveIn(v, disk)), HigherFirst)
  }

  function BackedUp(entries: seq<Entry>, v: nat, disk: Disk): Option<nat> {
    var live := LiveFor(entries, v, disk);
    if live == [] then None else Some(live[0].epoch)
  }

  class Log {
    var entries: seq<Entry>

    constructor ()
      ensures entries == []
    {
      entries := [];
    }

    method Push(entry: Entry)
      modifies this
      ensures entries == Pushed(old(entries), entry)
    {
      hide Filter;
      hide SortBy;
      entries := Filter(entries, Unlike(entry));
      entries := entries + [entry];
      entries := SortBy(entries, NewerFirst);
      if entries != [] {
        var id := entries[0].vault;
        entries := RetainFirst(entries, id);
      }
    }

    // The second retain: its closure counts the entries of `id` it has seen.
    static method RetainFirst(all: seq<Entry>, id: nat) returns (out: seq<Entry>)
      ensures out == KeepFirst(all, id, KEEP)
    {
      hide KeepFirst;
      out := [];
      var kept: nat := 0;
      for i := 0 to |all|
        invariant out + KeepFirst(all[i..], id, if kept <= KEEP then KEEP - kept else 0) == KeepFirst(all, id, KEEP)
      {
        KeepFirstStep(out, all, i, id, if kept <= KEEP then KEEP - kept else 0);
        if all[i].vault != id {
          out := out + [all[i]];
        } else {
          kept := kept + 1;
          if kept <= KEEP {
            out := out + [all[i]];
          }
        }
      }
      KeepFirstNothing(all[|all|..], id, if kept <= KEEP then KEEP - kept else 0);
    }

    method BackedUpThrough(v: nat, disk: Disk) returns (epoch: Option<nat>)
      ensures epoch == BackedUp(entries, v, disk)
      ensures forall n: nat :: epoch == Some(n) <==> HighestLive(ForVault(entries, v), disk, n)
    {
      var live := LiveFor(entries, v, disk);
      epoch := if live == [] then None else Some(live[0].epoch);
      forall n: nat ensures epoch == Some(n) <==> HighestLive(ForVault(entries, v), disk, n) {
        BackedUpIsHighest(entries, v, disk, n);
      }
    }
  }

  // ----- one push, vault by vault -----

  lemma OrdersAreTotal()
    ensures TotalPreorder(NewerFirst) && TotalPreorder(HigherFirst)
  {
  }

  lemma {:induction false} FilterAgrees(xs: seq<Entry>, a: Entry -> bool, b: Entry -> bool)
    requires forall e :: e in xs ==> a(e) == b(e)
    ensures Filter(xs, a) == Filter(xs, b)
  {
    if xs != [] {
      assert xs == [xs[0]] + xs[1..];
      FilterAgrees(xs[1..], a, b);
    }
  }

  lemma {:induction false} FilterAll(xs: seq<Entry>, keep: Entry -> bool)
    requires forall e :: e in xs ==> keep(e)
    ensures Filter(xs, keep) == xs
  {
    if xs != [] {
      assert xs == [xs[0]] + xs[1..];
      FilterAll(xs[1..], keep);
    }
  }

  // What is left of one vault's entries when a copy overwrites another.
  lemma SurvivorsOf(entries: seq<Entry>, e: Entry, v: nat)
    ensures ForVault(Filter(entries, Unlike(e)), v)
         == if v == e.vault then Filter(ForVault(entries, v), NotAt(e.path)) else ForVault(entries, v)
  {
    hide Filter;
    FilterTwice(entries, Unlike(e), OfVault(v));
    FilterIsPart(entries, OfVault(v));
    if v == e.vault {
      FilterAgrees(ForVault(entries, v), Unlike(e), NotAt(e.path));
    } else {
      FilterAll(ForVault(entries, v), Unlike(e));
    }
  }

  lemma {:induction false} KeepFirstOf(entries: seq<Entry>, id: nat, n: nat, v: nat)
    ensures ForVault(KeepFirst(entries, id, n), v)
         == if v == id then Take(ForVault(entries, v), n) else ForVault(entries, v)
    decreases |entries|
  {
    hide Filter;
    if entries == [] {
      FilterNothing(entries, OfVault(v));
    } else {
      var x, rest := entries[0], entries[1..];
      assert entries == [x] + rest;
      FilterCons(x, rest, OfVault(v));
      if x.vault != id {
        KeepFirstOf(rest, id, n, v);
        FilterCons(x, KeepFirst(rest, id, n), OfVault(v));
      } else if n == 0 {
        KeepFirstOf(rest, id, 0, v);
      } else {
        KeepFirstOf(rest, id, n - 1, v);
        FilterCons(x, KeepFirst(rest, id, n - 1), OfVault(v));
      }
    }
  }

  // One push on any log and any clock: every vault's entries change on their
  // own, and only the vault of the newest entry is cut to KEEP.
  lemma PushActsPerVault(entries: seq<Entry>, e: Entry, v: nat)
    ensures Merged(entries, e) != []
    ensures var mine := SortBy(if v == e.vault then Filter(ForVault(entries, v), NotAt(e.path)) + [e]
                               else ForVault(entries, v), NewerFirst);
            ForVault(Pushed(entries, e), v) == if v == Merged(entries, e)[0].vault then Take(mine, 8) else mine
  {
    hide Filter;
    hide SortBy;
    OrdersAreTotal();
    var before := Filter(entries, Unlike(e)) + [e];
    SortBySorts(before, NewerFirst);
    assert e in before;
    assert e in multiset(SortBy(before, NewerFirst));
    FilterSort(before, NewerFirst, OfVault(v));
    FilterAppend(Filter(entries, Unlike(e)), [e], OfVault(v));
    FilterNothing([], OfVault(v));
    assert [e] + [] == [e];
    FilterCons(e, [], OfVault(v));
    SurvivorsOf(entries, e, v);
    assert ForVault(entries, v) + [] == ForVault(entries, v);
    KeepFirstOf(Merged(entries, e), Merged(entries, e)[0].vault, KEEP, v);
  }

  // ----- runs -----

  function LogAfter(pushes: seq<Entry>): seq<Entry> {
    if pushes == [] then [] else Pushed(LogAfter(pushes[..|pushes| - 1]), pushes[|pushes| - 1])
  }

  // Every copy ever made of one vault, newest first, a path only once.
  function History(pushes: seq<Entry>, v: nat): seq<Entry> {
    if pushes == [] then []
    else
      var e := pushes[|pushes| - 1];
      var earlier := History(pushes[..|pushes| - 1], v);
      if e.vault != v then earlier else [e] + Filter(earlier, NotAt(e.path))
  }

  ghost predicate ClockRuns(pushes: seq<Entry>) {
    forall i, j :: 0 <= i < j < |pushes| ==> pushes[i].at < pushes[j].at
  }

  ghost predicate DistinctPaths(entries: seq<Entry>) {
    forall i, j :: 0 <= i < j < |entries| ==> entries[i].path != entries[j].path
  }

  lemma {:induction false} FilterKeepsDistinct(xs: seq<Entry>, keep: Entry -> bool)
    requires DistinctPaths(xs)
    ensures DistinctPaths(Filter(xs, keep))
  {
    hide Filter;
    if xs == [] {
      FilterNothing(xs, keep);
    } else {
      var x, rest := xs[0], xs[1..];
      assert xs == [x] + rest;
      FilterCons(x, rest, keep);
      FilterKeepsDistinct(rest, keep);
      FilterIsPart(rest, keep);
      var kept := Filter(rest, keep);
      forall y | y in kept ensures x.path != y.path {
        assert y in rest;
      }
    }
  }

  lemma {:induction false} HistoryHasDistinctPaths(pushes: seq<Entry>, v: nat)
    ensures DistinctPaths(History(pushes, v))
  {
    hide Filter;
    if pushes != [] {
      var e, earlier := pushes[|pushes| - 1], History(pushes[..|pushes| - 1], v);
      HistoryHasDistinctPaths(pushes[..|pushes| - 1], v);
      FilterKeepsDistinct(earlier, NotAt(e.path));
      FilterIsPart(earlier, NotAt(e.path));
      var kept := Filter(earlier, NotAt(e.path));
      assert forall y :: y in kept ==> y.path != e.path;
    }
  }

  // Dropping one path costs at most one place, so the first `k` that stay are
  // among the first `k + 1`.
  lemma {:induction false} CutThenDrop(h: seq<Entry>, path: string, k: nat)
    requires DistinctPaths(h)
    ensures Take(Filter(Take(h, k + 1), NotAt(path)), k) == Take(Filter(h, NotAt(path)), k)
    decreases |h|
  {
    hide Filter;
    if |h| > k + 1 && k > 0 {
      var x, rest := h[0], h[1..];
      assert h == [x] + rest && h[..k + 1] == [x] + rest[..k];
      FilterCons(x, rest, NotAt(path));
      FilterCons(x, rest[..k], NotAt(path));
      if x.path == path {
        OthersDiffer(h, path);
        FilterAll(rest, NotAt(path));
        FilterAll(rest[..k], NotAt(path));
      } else {
        CutThenDrop(rest, path, k - 1);
        TakeCons(x, Filter(rest[..k], NotAt(path)), k);
        TakeCons(x, Filter(rest, NotAt(path)), k);
      }
    }
  }

  lemma OthersDiffer(h: seq<Entry>, path: string)
    requires DistinctPaths(h) && h != [] && h[0].path == path
    ensures forall e :: e in h[1..] ==> NotAt(path)(e)
  {
  }

  lemma {:induction false} KeepFirstIsPart(entries: seq<Entry>, id: nat, n: nat)
    ensures forall e :: e in KeepFirst(entries, id, n) ==> e in entries
    ensures Sorted(entries, NewerFirst) ==> Sorted(KeepFirst(entries, id, n), NewerFirst)
    decreases |entries|
  {
    if entries != [] {
      var x, rest := entries[0], entries[1..];
      assert entries == [x] + rest;
      var m := if x.vault == id && n > 0 then n - 1 else n;
      KeepFirstIsPart(rest, id, m);
      if Sorted(entries, NewerFirst) {
        forall e | e in KeepFirst(rest, id, m) ensures NewerFirst(x, e) {
          assert e in rest;
        }
      }
    }
  }

  // A push with a later time goes to the front.
  lemma LaterPush(entries: seq<Entry>, e: Entry)
    requires Sorted(entries, NewerFirst) && forall y :: y in entries ==> y.at < e.at
    ensures Pushed(entries, e) == KeepFirst([e] + Filter(entries, Unlike(e)), e.vault, KEEP)
    ensures Sorted(Pushed(entries, e), NewerFirst)
    ensures forall y :: y in Pushed(entries, e) ==> y == e || y in entries
  {
    hide Filter;
    hide SortBy;
    hide KeepFirst;
    var kept := Filter(entries, Unlike(e));
    FilterIsSorted(entries, NewerFirst, Unlike(e));
    FilterIsPart(entries, Unlike(e));
    FrontIsSorted(kept, e);
    KeepFirstIsPart([e] + kept, e.vault, KEEP);
  }

  lemma FrontIsSorted(kept: seq<Entry>, e: Entry)
    requires Sorted(kept, NewerFirst) && forall y :: y in kept ==> y.at < e.at
    ensures SortBy(kept + [e], NewerFirst) == [e] + kept
    ensures Sorted([e] + kept, NewerFirst)
  {
    hide SortBy;
    LastToFront(kept, e, NewerFirst);
  }

  lemma {:induction false} LogIsSorted(pushes: seq<Entry>)
    requires ClockRuns(pushes)
    ensures Sorted(LogAfter(pushes), NewerFirst)
    ensures forall e :: e in LogAfter(pushes) ==> e in pushes
    decreases |pushes|
  {
    hide Pushed;
    if pushes != [] {
      var rest, e := pushes[..|pushes| - 1], pushes[|pushes| - 1];
      LogIsSorted(rest);
      LaterPush(LogAfter(rest), e);
      assert pushes == rest + [e];
    }
  }

  // As long as the clock runs forward, the log holds the newest KEEP of every
  // vault's whole history.
  lemma {:induction false} LogRefinesHistory(pushes: seq<Entry>, v: nat)
    requires ClockRuns(pushes)
    ensures ForVault(LogAfter(pushes), v) == Take(History(pushes, v), 8)
    decreases |pushes|
  {
    hide Filter;
    hide Pushed;
    hide KeepFirst;
    if pushes == [] {
      FilterNothing([], OfVault(v));
    } else {
      var rest, e := pushes[..|pushes| - 1], pushes[|pushes| - 1];
      var log, earlier := LogAfter(rest), History(rest, v);
      LogIsSorted(rest);
      LogRefinesHistory(rest, v);
      LaterPush(log, e);
      var kept := Filter(log, Unlike(e));
      KeepFirstOf([e] + kept, e.vault, KEEP, v);
      FilterCons(e, kept, OfVault(v));
      SurvivorsOf(log, e, v);
      if v == e.vault {
        HistoryHasDistinctPaths(rest, v);
        CutThenDrop(earlier, e.path, KEEP - 1);
        TakeCons(e, Filter(Take(earlier, KEEP), NotAt(e.path)), KEEP);
        TakeCons(e, Filter(earlier, NotAt(e.path)), KEEP);
      }
    }
  }

  lemma TakeCons(e: Entry, rest: seq<Entry>, n: nat)
    requires n > 0
    ensures Take([e] + rest, n) == [e] + Take(rest, n - 1)
  {
  }

  // A push for another vault leaves this one's entries alone.
  lemma OtherVaultsStay(pushes: seq<Entry>, e: Entry, v: nat)
    requires ClockRuns(pushes + [e]) && v != e.vault
    ensures ForVault(LogAfter(pushes + [e]), v) == ForVault(LogAfter(pushes), v)
  {
    hide Filter;
    hide LogAfter;
    hide Take;
    assert (pushes + [e])[..|pushes|] == pushes;
    assert forall i :: 0 <= i < |pushes| ==> (pushes + [e])[i] == pushes[i];
    LogRefinesHistory(pushes + [e], v);
    LogRefinesHistory(pushes, v);
  }

  lemma SortKeepsLength(xs: seq<Entry>)
    ensures |SortBy(xs, NewerFirst)| == |xs|
  {
    hide SortBy;
    OrdersAreTotal();
    SortBySorts(xs, NewerFirst);
    assert |multiset(xs)| == |xs| && |multiset(SortBy(xs, NewerFirst))| == |SortBy(xs, NewerFirst)|;
  }

  // Whatever the clock, a vault within its bound stays within it exactly when
  // the cut falls on it or it had room for the new entry.
  lemma BoundKeptExactly(entries: seq<Entry>, e: Entry)
    requires |ForVault(entries, e.vault)| <= 8
    ensures Merged(entries, e) != []
    ensures |ForVault(Pushed(entries, e), e.vault)| <= 8 <==>
            Merged(entries, e)[0].vault == e.vault || |Filter(ForVault(entries, e.vault), NotAt(e.path))| < 8
  {
    hide Filter;
    hide SortBy;
    hide Pushed;
    hide Merged;
    PushActsPerVault(entries, e, e.vault);
    SortKeepsLength(Filter(ForVault(entries, e.vault), NotAt(e.path)) + [e]);
  }

  // One copy of one vault, then `n` of another, each a second before the last.
  function Backward(n: nat): seq<Entry> {
    if n == 0 then [Entry(0, 0, 0, "", "", 0)] else Backward(n - 1) + [Entry(-(n as int), 1, 0, Times('a', n), "", 0)]
  }

  function Times(c: char, n: nat): (s: string)
    ensures |s| == n
  {
    if n == 0 then "" else Times(c, n - 1) + [c]
  }

  // With the clock set back there is no bound at all: for every `n` there is a
  // run after which one vault keeps `n` entries.
  lemma {:induction false} ClockSetBackHasNoBound(n: nat)
    ensures var log := LogAfter(Backward(n));
            && Sorted(log, NewerFirst) && log != [] && log[0].vault == 0 && log[0].at == 0
            && |ForVault(log, 1)| == n
            && forall e :: e in ForVault(log, 1) ==> |e.path| <= n
  {
    hide Filter;
    hide SortBy;
    hide Pushed;
    if n == 0 {
      OneEntry();
    } else {
      var run, e := Backward(n), Entry(-(n as int), 1, 0, Times('a', n), "", 0);
      var log := LogAfter(Backward(n - 1));
      ClockSetBackHasNoBound(n - 1);
      assert run[..|run| - 1] == Backward(n - 1) && LogAfter(run) == Pushed(log, e);
      BackwardPush(log, e);
    }
  }

  lemma OneEntry()
    ensures var log := LogAfter(Backward(0)); log == Backward(0) && ForVault(log, 1) == []
  {
    hide Filter;
    hide Pushed;
    var e := Backward(0)[0];
    assert Backward(0)[..0] == [] && Backward(0) == [e];
    LaterPush([], e);
    FilterNothing([], Unlike(e));
    FilterNothing([], OfVault(1));
    FilterCons(e, [], OfVault(1));
    assert [e] + [] == [e];
  }

  // An entry older than the front, at a new path, for another vault.
  lemma BackwardPush(log: seq<Entry>, e: Entry)
    requires Sorted(log, NewerFirst) && log != [] && log[0].vault != e.vault && e.at <= log[0].at
    requires forall y :: y in ForVault(log, e.vault) ==> y.path != e.path
    ensures var after := Pushed(log, e);
            && Sorted(after, NewerFirst) && after != [] && after[0] == log[0]
            && |ForVault(after, e.vault)| == |ForVault(log, e.vault)| + 1
            && forall y :: y in ForVault(after, e.vault) ==> y == e || y in ForVault(log, e.vault)
  {
    hide Filter;
    hide SortBy;
    OrdersAreTotal();
    var mine := ForVault(log, e.vault);
    FilterAll(mine, NotAt(e.path));
    PushActsPerVault(log, e, e.vault);
    FrontStays(log, e);
    SortKeepsLength(mine + [e]);
    SortBySorts(mine + [e], NewerFirst);
    SortBySorts(Filter(log, Unlike(e)) + [e], NewerFirst);
    KeepFirstIsPart(Merged(log, e), log[0].vault, KEEP);
    forall y | y in SortBy(mine + [e], NewerFirst) ensures y == e || y in mine {
      assert y in multiset(mine + [e]);
    }
  }

  lemma FrontStays(entries: seq<Entry>, e: Entry)
    requires entries != [] && entries[0].vault != e.vault && e.at <= entries[0].at
    requires Sorted(entries, NewerFirst)
    ensures Merged(entries, e) != [] && Merged(entries, e)[0] == entries[0]
  {
    hide Filter;
    hide SortBy;
    hide Insert;
    var x, rest := entries[0], entries[1..];
    assert entries == [x] + rest;
    FilterCons(x, rest, Unlike(e));
    var kept := Filter(rest, Unlike(e));
    assert Filter(entries, Unlike(e)) + [e] == [x] + (kept + [e]);
    SortCons(x, kept + [e], NewerFirst);
    OrdersAreTotal();
    SortBySorts(kept + [e], NewerFirst);
    FilterIsPart(rest, Unlike(e));
    var tail := SortBy(kept + [e], NewerFirst);
    if tail != [] {
      assert tail[0] in multiset(kept + [e]);
      assert tail[0] in kept + [e];
      assert NewerFirst(x, tail[0]);
    }
    InsertFirst(x, tail, NewerFirst);
  }

  // ----- what is backed up -----

  ghost predicate HighestLive(entries: seq<Entry>, disk: Disk, epoch: nat) {
    && (exists e :: e in entries && StillThere(e, disk) && e.epoch == epoch)
    && (forall e :: e in entries && StillThere(e, disk) ==> e.epoch <= epoch)
  }

  // The copies of a vault still there, each as often as it is logged, the
  // highest epoch first.
  lemma LiveForAre(entries: seq<Entry>, v: nat, disk: Disk)
    ensures var live := LiveFor(entries, v, disk);
            && (forall i, j :: 0 <= i < j < |live| ==> live[i].epoch >= live[j].epoch)
            && (forall e :: multiset(live)[e] == if e.vault == v && StillThere(e, disk) then multiset(entries)[e] else 0)
  {
    hide Filter;
    hide SortBy;
    OrdersAreTotal();
    SortBySorts(Filter(entries, LiveIn(v, disk)), HigherFirst);
    FilterCounts(entries, LiveIn(v, disk));
  }

  lemma {:induction false} FilterCounts(xs: seq<Entry>, keep: Entry -> bool)
    ensures forall e :: multiset(Filter(xs, keep))[e] == if keep(e) then multiset(xs)[e] else 0
  {
    if xs != [] {
      assert xs == [xs[0]] + xs[1..];
      FilterCounts(xs[1..], keep);
    }
  }

  // The reported epoch is the highest among the vault's copies still there.
  lemma BackedUpIsHighest(entries: seq<Entry>, v: nat, disk: Disk, n: nat)
    ensures BackedUp(entries, v, disk) == Some(n) <==> HighestLive(ForVault(entries, v), disk, n)
  {
    hide Filter;
    hide SortBy;
    OrdersAreTotal();
    var found := Filter(entries, LiveIn(v, disk));
    var live := LiveFor(entries, v, disk);
    SortBySorts(found, HigherFirst);
    FilterIsPart(entries, LiveIn(v, disk));
    FilterIsPart(entries, OfVault(v));
    forall e ensures e in live <==> e in ForVault(entries, v) && StillThere(e, disk) {
      assert e in live <==> e in multiset(live);
      assert e in found <==> e in multiset(found);
    }
    forall e | e in live ensures e.epoch <= live[0].epoch {
      var i :| 0 <= i < |live| && live[i] == e;
    }
    if live != [] {
      assert live[0] in live;
    }
  }

  // After any run with a clock that runs forward, the epoch reported is the
  // highest among the newest KEEP copies of the vault's history still there.
  lemma BackedUpFromHistory(pushes: seq<Entry>, v: nat, disk: Disk, n: nat)
    requires ClockRuns(pushes)
    ensures BackedUp(LogAfter(pushes), v, disk) == Some(n) <==> HighestLive(Take(History(pushes, v), 8), disk, n)
  {
    hide Filter;
    hide BackedUp;
    hide HighestLive;
    LogRefinesHistory(pushes, v);
    BackedUpIsHighest(LogAfter(pushes), v, disk, n);
  }
}

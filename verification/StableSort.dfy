// A stable sort, as slice::sort_by_key and slice::sort_by, and a filter, as
// Vec::retain and Iterator::filter.
module StableSort {
  ghost predicate TotalPreorder<T(!new)>(le: (T, T) -> bool) {
    && (forall a, b :: le(a, b) || le(b, a))
    && (forall a, b, c :: le(a, b) && le(b, c) ==> le(a, c))
  }

  ghost predicate Sorted<T(!new)>(xs: seq<T>, le: (T, T) -> bool) {
    forall i, j :: 0 <= i < j < |xs| ==> le(xs[i], xs[j])
  }

  // Before the first element that need not precede `x`.
  function Insert<T>(x: T, xs: seq<T>, le: (T, T) -> bool): seq<T> {
    if xs == [] then [x]
    else if le(x, xs[0]) then [x] + xs
    else [xs[0]] + Insert(x, xs[1..], le)
  }

  function SortBy<T>(xs: seq<T>, le: (T, T) -> bool): seq<T> {
    if xs == [] then [] else Insert(xs[0], SortBy(xs[1..], le), le)
  }

  function Filter<T>(xs: seq<T>, keep: T -> bool): seq<T> {
    if xs == [] then []
    else (if keep(xs[0]) then [xs[0]] else []) + Filter(xs[1..], keep)
  }

  lemma {:induction false} InsertKeeps<T>(x: T, xs: seq<T>, le: (T, T) -> bool)
    ensures multiset(Insert(x, xs, le)) == multiset(xs) + multiset{x}
  {
    if xs != [] {
      assert xs == [xs[0]] + xs[1..];
      InsertKeeps(x, xs[1..], le);
    }
  }

  lemma InsertHas<T>(x: T, xs: seq<T>, le: (T, T) -> bool, y: T)
    ensures y in Insert(x, xs, le) ==> y == x || y in xs
  {
    hide Insert;
    InsertKeeps(x, xs, le);
    assert y in Insert(x, xs, le) <==> y in multiset(Insert(x, xs, le));
    assert y in xs <==> y in multiset(xs);
  }

  lemma SortedFront<T(!new)>(x: T, xs: seq<T>, le: (T, T) -> bool)
    requires Sorted(xs, le) && forall y :: y in xs ==> le(x, y)
    ensures Sorted([x] + xs, le)
  {
  }

  lemma {:induction false} InsertSorts<T(!new)>(x: T, xs: seq<T>, le: (T, T) -> bool)
    requires TotalPreorder(le) && Sorted(xs, le)
    ensures Sorted(Insert(x, xs, le), le)
    decreases |xs|
  {
    hide Insert;
    if xs == [] {
      InsertFirst(x, xs, le);
    } else {
      var y, rest := xs[0], xs[1..];
      assert xs == [y] + rest;
      InsertCons(x, y, rest, le);
      if le(x, y) {
        SortedFront(x, xs, le);
      } else {
        InsertSorts(x, rest, le);
        forall z | z in Insert(x, rest, le) ensures le(y, z) {
          InsertHas(x, rest, le, z);
        }
        SortedFront(y, Insert(x, rest, le), le);
      }
    }
  }

  lemma {:induction false} SortBySorts<T(!new)>(xs: seq<T>, le: (T, T) -> bool)
    requires TotalPreorder(le)
    ensures Sorted(SortBy(xs, le), le)
    ensures multiset(SortBy(xs, le)) == multiset(xs)
  {
    if xs != [] {
      SortBySorts(xs[1..], le);
      InsertSorts(xs[0], SortBy(xs[1..], le), le);
      InsertKeeps(xs[0], SortBy(xs[1..], le), le);
      assert xs == [xs[0]] + xs[1..];
    }
  }

  lemma {:induction false} InsertFirst<T(!new)>(x: T, xs: seq<T>, le: (T, T) -> bool)
    requires xs != [] ==> le(x, xs[0])
    ensures Insert(x, xs, le) == [x] + xs
  {
  }

  // ----- one element at a time -----

  lemma FilterCons<T>(x: T, rest: seq<T>, keep: T -> bool)
    ensures Filter([x] + rest, keep) == if keep(x) then [x] + Filter(rest, keep) else Filter(rest, keep)
  {
    assert ([x] + rest)[1..] == rest;
  }

  lemma SortCons<T>(x: T, rest: seq<T>, le: (T, T) -> bool)
    ensures SortBy([x] + rest, le) == Insert(x, SortBy(rest, le), le)
  {
    assert ([x] + rest)[1..] == rest;
  }

  lemma InsertCons<T>(x: T, y: T, rest: seq<T>, le: (T, T) -> bool)
    ensures Insert(x, [y] + rest, le) == if le(x, y) then [x] + ([y] + rest) else [y] + Insert(x, rest, le)
  {
    assert ([y] + rest)[1..] == rest;
  }

  // An element strictly before every other one sorts to the front.
  lemma {:induction false} LastToFront<T(!new)>(xs: seq<T>, x: T, le: (T, T) -> bool)
    requires Sorted(xs, le)
    requires forall y :: y in xs ==> le(x, y) && !le(y, x)
    ensures SortBy(xs + [x], le) == [x] + xs
    decreases |xs|
  {
    hide Insert;
    if xs == [] {
      assert [] + [x] == [x] + [];
      SortCons(x, [], le);
      InsertFirst(x, [], le);
    } else {
      var y, rest := xs[0], xs[1..];
      assert xs == [y] + rest && y in xs;
      assert xs + [x] == [y] + (rest + [x]);
      LastToFront(rest, x, le);
      SortCons(y, rest + [x], le);
      InsertCons(y, x, rest, le);
      InsertFirst(y, rest, le);
      assert [x] + xs == [x] + ([y] + rest);
    }
  }

  lemma {:induction false} FilterInsert<T(!new)>(x: T, xs: seq<T>, le: (T, T) -> bool, keep: T -> bool)
    requires TotalPreorder(le) && Sorted(xs, le)
    ensures Filter(Insert(x, xs, le), keep)
         == if keep(x) then Insert(x, Filter(xs, keep), le) else Filter(xs, keep)
    decreases |xs|
  {
    hide Insert;
    hide Filter;
    if xs == [] {
      FilterNothing(xs, keep);
      InsertFirst(x, xs, le);
      FilterCons(x, xs, keep);
    } else {
      var y, rest := xs[0], xs[1..];
      assert xs == [y] + rest;
      InsertCons(x, y, rest, le);
      FilterCons(y, rest, keep);
      if le(x, y) {
        FilterCons(x, xs, keep);
        InsertBefore(x, xs, le, keep);
      } else {
        FilterInsert(x, rest, le, keep);
        FilterCons(y, Insert(x, rest, le), keep);
        InsertCons(x, y, Filter(rest, keep), le);
      }
    }
  }

  lemma FilterNothing<T>(xs: seq<T>, keep: T -> bool)
    requires xs == []
    ensures Filter(xs, keep) == xs
  {
  }

  lemma InsertBefore<T(!new)>(x: T, xs: seq<T>, le: (T, T) -> bool, keep: T -> bool)
    requires TotalPreorder(le) && Sorted(xs, le) && xs != [] && le(x, xs[0])
    ensures Insert(x, Filter(xs, keep), le) == [x] + Filter(xs, keep)
  {
    hide Insert;
    hide Filter;
    var kept := Filter(xs, keep);
    FilterIsPart(xs, keep);
    if kept != [] {
      assert kept[0] in kept;
      var i :| 0 <= i < |xs| && xs[i] == kept[0];
      assert le(xs[0], xs[i]);
    }
    InsertFirst(x, kept, le);
  }

  lemma {:induction false} FilterIsPart<T(!new)>(xs: seq<T>, keep: T -> bool)
    ensures forall y :: y in Filter(xs, keep) <==> y in xs && keep(y)
  {
    if xs != [] {
      FilterIsPart(xs[1..], keep);
      assert xs == [xs[0]] + xs[1..];
    }
  }

  lemma {:induction false} FilterIsSorted<T(!new)>(xs: seq<T>, le: (T, T) -> bool, keep: T -> bool)
    requires Sorted(xs, le)
    ensures Sorted(Filter(xs, keep), le)
  {
    hide Filter;
    if xs == [] {
      FilterNothing(xs, keep);
    } else {
      var x, rest := xs[0], xs[1..];
      assert xs == [x] + rest;
      FilterCons(x, rest, keep);
      FilterIsSorted(rest, le, keep);
      FilterIsPart(rest, keep);
      var kept := Filter(rest, keep);
      forall y | y in kept ensures le(x, y) {
        assert y in rest;
      }
    }
  }

  // Sorting is stable, so what is kept sorts alone as it sorts in company.
  lemma {:induction false} FilterSort<T(!new)>(xs: seq<T>, le: (T, T) -> bool, keep: T -> bool)
    requires TotalPreorder(le)
    ensures Filter(SortBy(xs, le), keep) == SortBy(Filter(xs, keep), le)
    decreases |xs|
  {
    hide Insert;
    hide Filter;
    hide Sorted;
    if xs == [] {
      FilterNothing(xs, keep);
    } else {
      var x, rest := xs[0], xs[1..];
      assert xs == [x] + rest;
      FilterSort(rest, le, keep);
      SortBySorts(rest, le);
      FilterInsert(x, SortBy(rest, le), le, keep);
      FilterCons(x, rest, keep);
      SortCons(x, Filter(rest, keep), le);
    }
  }

  lemma {:induction false} FilterAppend<T>(xs: seq<T>, ys: seq<T>, keep: T -> bool)
    ensures Filter(xs + ys, keep) == Filter(xs, keep) + Filter(ys, keep)
    decreases |xs|
  {
    hide Filter;
    if xs == [] {
      FilterNothing(xs, keep);
      assert xs + ys == ys;
    } else {
      var x, rest := xs[0], xs[1..];
      assert xs == [x] + rest && xs + ys == [x] + (rest + ys);
      FilterCons(x, rest, keep);
      FilterCons(x, rest + ys, keep);
      FilterAppend(rest, ys, keep);
    }
  }

  lemma {:induction false} FilterTwice<T>(xs: seq<T>, a: T -> bool, b: T -> bool)
    ensures Filter(Filter(xs, a), b) == Filter(Filter(xs, b), a)
    decreases |xs|
  {
    hide Filter;
    if xs == [] {
      FilterNothing(xs, a);
      FilterNothing(xs, b);
    } else {
      var x, rest := xs[0], xs[1..];
      assert xs == [x] + rest;
      FilterTwice(rest, a, b);
      FilterCons(x, rest, a);
      FilterCons(x, rest, b);
      FilterCons(x, Filter(rest, a), b);
      FilterCons(x, Filter(rest, b), a);
    }
  }
}

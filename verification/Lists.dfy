// Sequences without repeated elements, and sets kept in order.
module Lists {
  ghost predicate NoRepeats<T>(xs: seq<T>) {
    forall i, j :: 0 <= i < j < |xs| ==> xs[i] != xs[j]
  }

  lemma OneMore<T>(xs: seq<T>, x: T)
    requires NoRepeats(xs) && x !in xs
    ensures NoRepeats(xs + [x])
  {
  }

  lemma JoinedHasNoRepeats<T>(a: seq<T>, b: seq<T>)
    requires NoRepeats(a) && NoRepeats(b) && forall x :: x in b ==> x !in a
    ensures NoRepeats(a + b)
  {
    forall i, j | 0 <= i < j < |a + b| ensures (a + b)[i] != (a + b)[j] {
      if i < |a| <= j {
        assert (a + b)[j] == b[j - |a|];
        assert b[j - |a|] in b;
      }
    }
  }

  // ----- ordered sets -----

  ghost predicate StrictOrder<T(!new)>(before: (T, T) -> bool) {
    && (forall a, b :: before(a, b) || before(b, a) || a == b)
    && (forall a, b, c :: before(a, b) && before(b, c) ==> before(a, c))
  }

  ghost predicate Ascending<T>(s: seq<T>, before: (T, T) -> bool) {
    forall i, j :: 0 <= i < j < |s| ==> before(s[i], s[j])
  }

  // A new key of a BTreeSet or BTreeMap.
  function AddOrdered<T(==)>(s: seq<T>, x: T, before: (T, T) -> bool): seq<T> {
    if s == [] then [x]
    else if x == s[0] then s
    else if before(x, s[0]) then [x] + s
    else [s[0]] + AddOrdered(s[1..], x, before)
  }

  lemma InFront<T(!new)>(x: T, s: seq<T>, before: (T, T) -> bool)
    requires Ascending(s, before) && forall y :: y in s ==> before(x, y)
    ensures Ascending([x] + s, before)
  {
  }

  lemma {:induction false} AddOrderedHas<T(!new)>(s: seq<T>, x: T, before: (T, T) -> bool)
    ensures forall y :: y in AddOrdered(s, x, before) <==> y == x || y in s
  {
    if s != [] {
      assert s == [s[0]] + s[1..];
      AddOrderedHas(s[1..], x, before);
    }
  }

  lemma {:induction false} AddOrderedKeeps<T(!new)>(s: seq<T>, x: T, before: (T, T) -> bool)
    requires StrictOrder(before) && Ascending(s, before)
    ensures Ascending(AddOrdered(s, x, before), before)
    decreases |s|
  {
    if s != [] {
      var y, rest := s[0], s[1..];
      assert s == [y] + rest;
      if x != y && before(x, y) {
        forall z | z in s ensures before(x, z) {
          assert z == y || before(y, z);
        }
        InFront(x, s, before);
      } else if x != y {
        AddOrderedKeeps(rest, x, before);
        AddOrderedHas(rest, x, before);
        InFront(y, AddOrdered(rest, x, before), before);
      }
    }
  }
}

// Counting strings: the combinatorics behind the generator's entropy figures.
module Counting {

  function Pow(b: int, n: nat): int {
    if n == 0 then 1 else b * Pow(b, n - 1)
  }

  lemma {:induction false} PowPositive(b: int, n: nat)
    requires b > 0
    ensures Pow(b, n) > 0
  {
    if n > 0 {
      PowPositive(b, n - 1);
    }
  }

  lemma {:induction false} PowAdd(b: int, m: nat, n: nat)
    ensures Pow(b, m + n) == Pow(b, m) * Pow(b, n)
  {
    if m > 0 {
      PowAdd(b, m - 1, n);
      assert b * (Pow(b, m - 1) * Pow(b, n)) == (b * Pow(b, m - 1)) * Pow(b, n);
    }
  }

  // ----- all strings of one length -----

  ghost function Prefixed<T>(x: T, ss: set<seq<T>>): set<seq<T>> {
    set s | s in ss :: [x] + s
  }

  ghost function PrefixedAll<T(!new)>(a: set<T>, ss: set<seq<T>>): set<seq<T>> {
    set x, s | x in a && s in ss :: [x] + s
  }

  ghost function Strings<T(!new)>(a: set<T>, n: nat): set<seq<T>> {
    if n == 0 then {[]} else PrefixedAll(a, Strings(a, n - 1))
  }

  lemma {:induction false} InStrings<T(!new)>(a: set<T>, n: nat, s: seq<T>)
    ensures s in Strings(a, n) <==> |s| == n && forall i :: 0 <= i < n ==> s[i] in a
  {
    if n > 0 {
      if |s| == n {
        assert s == [s[0]] + s[1..];
        InStrings(a, n - 1, s[1..]);
      }
      if s in Strings(a, n) {
        var x, t :| x in a && t in Strings(a, n - 1) && s == [x] + t;
        InStrings(a, n - 1, t);
      }
    }
  }

  lemma {:induction false} PrefixedCount<T>(x: T, ss: set<seq<T>>)
    ensures |Prefixed(x, ss)| == |ss|
  {
    if s :| s in ss {
      var rest := ss - {s};
      PrefixedCount(x, rest);
      assert Prefixed(x, ss) == Prefixed(x, rest) + {[x] + s};
      forall t | t in rest ensures [x] + t != [x] + s {
        assert ([x] + t)[1..] == t && ([x] + s)[1..] == s;
      }
    }
  }

  lemma {:induction false} PrefixedAllCount<T(!new)>(a: set<T>, ss: set<seq<T>>)
    ensures |PrefixedAll(a, ss)| == |a| * |ss|
  {
    if x :| x in a {
      var rest := a - {x};
      PrefixedAllCount(rest, ss);
      PrefixedCount(x, ss);
      PrefixedAllSplits(a, ss, x);
      assert |a| * |ss| == |rest| * |ss| + |ss|;
    }
  }

  lemma PrefixedAllSplits<T(!new)>(a: set<T>, ss: set<seq<T>>, x: T)
    requires x in a
    ensures |PrefixedAll(a, ss)| == |Prefixed(x, ss)| + |PrefixedAll(a - {x}, ss)|
  {
    var one, more := Prefixed(x, ss), PrefixedAll(a - {x}, ss);
    assert PrefixedAll(a, ss) == one + more;
    assert forall s :: s in one ==> s[0] == x;
    assert forall s :: s in more ==> s[0] != x;
    assert one !! more;
  }

  lemma {:induction false} StringsCount<T(!new)>(a: set<T>, n: nat)
    ensures |Strings(a, n)| == Pow(|a|, n)
  {
    if n > 0 {
      StringsCount(a, n - 1);
      PrefixedAllCount(a, Strings(a, n - 1));
    }
  }

  // ----- strings that touch every class -----

  ghost predicate Touches<T>(s: seq<T>, c: set<T>) {
    exists j :: 0 <= j < |s| && s[j] in c
  }

  ghost predicate Covers<T>(s: seq<T>, classes: seq<set<T>>) {
    forall i :: 0 <= i < |classes| ==> Touches(s, classes[i])
  }

  ghost function Accepted<T(!new)>(a: set<T>, classes: seq<set<T>>, n: nat): set<seq<T>> {
    set s | s in Strings(a, n) && Covers(s, classes)
  }

  // Pairwise disjoint parts of one alphabet.
  ghost predicate Classes<T>(a: set<T>, classes: seq<set<T>>) {
    && (forall i :: 0 <= i < |classes| ==> classes[i] <= a)
    && (forall i, j :: 0 <= i < j < |classes| ==> classes[i] !! classes[j])
  }

  ghost function Sizes<T>(classes: seq<set<T>>): (r: seq<nat>)
    ensures |r| == |classes| && forall i :: 0 <= i < |r| ==> r[i] == |classes[i]|
  {
    if classes == [] then [] else [|classes[0]|] + Sizes(classes[1..])
  }

  function Sum(sizes: seq<nat>): nat {
    if sizes == [] then 0 else sizes[0] + Sum(sizes[1..])
  }

  // Inclusion-exclusion, one class at a time: all strings that cover the
  // remaining classes, less those that avoid this one.
  function Alternating(total: int, sizes: seq<nat>, n: nat): int
    decreases |sizes|
  {
    if sizes == [] then Pow(total, n)
    else Alternating(total, sizes[1..], n) - Alternating(total - sizes[0], sizes[1..], n)
  }

  lemma CoversFirst<T>(s: seq<T>, classes: seq<set<T>>)
    requires classes != []
    ensures Covers(s, classes) <==> Touches(s, classes[0]) && Covers(s, classes[1..])
  {
    assert forall i :: 0 < i < |classes| ==> classes[i] == classes[1..][i - 1];
  }

  lemma ClassesRest<T>(a: set<T>, classes: seq<set<T>>)
    requires classes != [] && Classes(a, classes)
    ensures Classes(a, classes[1..]) && Classes(a - classes[0], classes[1..])
  {
    forall i | 0 <= i < |classes| - 1 ensures classes[1..][i] <= a - classes[0] {
      assert classes[0] !! classes[i + 1];
    }
  }

  lemma AvoidingClass<T(!new)>(a: set<T>, c: set<T>, n: nat, s: seq<T>)
    ensures s in Strings(a, n) && !Touches(s, c) <==> s in Strings(a - c, n)
  {
    InStrings(a, n, s);
    InStrings(a - c, n, s);
  }

  lemma AcceptedSplits<T(!new)>(a: set<T>, classes: seq<set<T>>, n: nat)
    requires classes != []
    ensures |Accepted(a, classes, n)|
         == |Accepted(a, classes[1..], n)| - |Accepted(a - classes[0], classes[1..], n)|
  {
    var c, rest := classes[0], classes[1..];
    var hit, miss := Accepted(a, classes, n), Accepted(a - c, rest, n);
    forall s ensures s in Accepted(a, rest, n) <==> s in hit || s in miss
             ensures !(s in hit && s in miss) {
      CoversFirst(s, classes);
      AvoidingClass(a, c, n, s);
    }
    assert Accepted(a, rest, n) == hit + miss && hit !! miss;
  }

  // The number of strings over `a` that touch every class is the alternating
  // sum over the class sizes.
  lemma {:induction false} AcceptedCount<T(!new)>(a: set<T>, classes: seq<set<T>>, n: nat)
    requires Classes(a, classes)
    ensures |Accepted(a, classes, n)| == Alternating(|a|, Sizes(classes), n)
  {
    if classes == [] {
      assert Accepted(a, classes, n) == Strings(a, n);
      StringsCount(a, n);
    } else {
      var c := classes[0];
      AcceptedSplits(a, classes, n);
      ClassesRest(a, classes);
      AcceptedCount(a, classes[1..], n);
      AcceptedCount(a - c, classes[1..], n);
      assert a == (a - c) + c;
      assert |a| == |a - c| + |c|;
      assert Sizes(classes)[1..] == Sizes(classes[1..]);
    }
  }

  // ----- when there is anything to count -----

  // Every class has a position of its own, so a covering string is as long.
  lemma {:induction false} CoveringIsLong<T>(s: seq<T>, classes: seq<set<T>>)
    requires Covers(s, classes)
    requires forall i, j :: 0 <= i < j < |classes| ==> classes[i] !! classes[j]
    ensures |s| >= |classes|
  {
    if classes == [] {
    } else {
      assert Touches(s, classes[0]);
      var t := s[1..];
      if k :| 0 <= k < |classes| && s[0] in classes[k] {
        var others := classes[..k] + classes[k + 1..];
        forall i | 0 <= i < |others| ensures Touches(t, others[i]) {
          var m := if i < k then i else i + 1;
          assert others[i] == classes[m] && Touches(s, classes[m]);
          var j :| 0 <= j < |s| && s[j] in classes[m];
          assert j > 0 && t[j - 1] == s[j];
        }
        CoveringIsLong(t, others);
      } else {
        forall i | 0 <= i < |classes| ensures Touches(t, classes[i]) {
          assert Touches(s, classes[i]);
          var j :| 0 <= j < |s| && s[j] in classes[i];
          assert j > 0 && t[j - 1] == s[j];
        }
        CoveringIsLong(t, classes);
      }
    }
  }

  lemma {:induction false} CoveringExists<T>(a: set<T>, classes: seq<set<T>>, n: nat, fill: T) returns (s: seq<T>)
    requires Classes(a, classes) && n >= |classes| && fill in a
    requires forall i :: 0 <= i < |classes| ==> classes[i] != {}
    ensures |s| == n && (forall i :: 0 <= i < n ==> s[i] in a) && Covers(s, classes)
  {
    if classes == [] {
      s := seq(n, _ => fill);
    } else {
      assert classes[0] != {};
      var x :| x in classes[0];
      ClassesRest(a, classes);
      var t := CoveringExists(a, classes[1..], n - 1, fill);
      s := [x] + t;
      forall i | 0 <= i < |classes| ensures Touches(s, classes[i]) {
        if i == 0 {
          assert s[0] in classes[0];
        } else {
          assert classes[i] == classes[1..][i - 1] && Touches(t, classes[1..][i - 1]);
          var j :| 0 <= j < |t| && t[j] in classes[i];
          assert s[j + 1] in classes[i];
        }
      }
    }
  }

  // Something is accepted exactly when there is room for every class.
  lemma AcceptedPositive<T(!new)>(a: set<T>, classes: seq<set<T>>, n: nat)
    requires a != {} && Classes(a, classes)
    requires forall i :: 0 <= i < |classes| ==> classes[i] != {}
    ensures Alternating(|a|, Sizes(classes), n) > 0 <==> n >= |classes|
    ensures Alternating(|a|, Sizes(classes), n) >= 0
  {
    AcceptedCount(a, classes, n);
    if n >= |classes| {
      var fill :| fill in a;
      var s := CoveringExists(a, classes, n, fill);
      InStrings(a, n, s);
      assert s in Accepted(a, classes, n);
    } else {
      if s :| s in Accepted(a, classes, n) {
        InStrings(a, n, s);
        CoveringIsLong(s, classes);
        assert false;
      }
      assert Accepted(a, classes, n) == {};
    }
  }

  // ----- the same sum, subset by subset -----

  function Pow2(k: nat): nat {
    if k == 0 then 1 else 2 * Pow2(k - 1)
  }

  lemma {:induction false} Pow2IsPositive(k: nat)
    ensures Pow2(k) > 0
  {
    if k > 0 {
      Pow2IsPositive(k - 1);
    }
  }

  function CountOnes(subset: nat): nat {
    if subset == 0 then 0 else subset % 2 + CountOnes(subset / 2)
  }

  // Total size of the classes whose bit is set.
  function Removed(subset: nat, sizes: seq<nat>): nat {
    if sizes == [] then 0
    else (if subset % 2 == 1 then sizes[0] else 0) + Removed(subset / 2, sizes[1..])
  }

  function Term(total: int, sizes: seq<nat>, n: nat, subset: nat): int {
    var power := Pow(total - Removed(subset, sizes), n);
    if CountOnes(subset) % 2 == 0 then power else -power
  }

  function SubsetSum(total: int, sizes: seq<nat>, n: nat, bound: nat): int {
    if bound == 0 then 0
    else SubsetSum(total, sizes, n, bound - 1) + Term(total, sizes, n, bound - 1)
  }

  // A subset of the remaining classes, without the first class and with it.
  lemma TermsPairUp(total: int, sizes: seq<nat>, n: nat, q: nat)
    requires sizes != []
    ensures Term(total, sizes, n, 2 * q) == Term(total, sizes[1..], n, q)
    ensures Term(total, sizes, n, 2 * q + 1) == -Term(total - sizes[0], sizes[1..], n, q)
  {
    hide Pow;
    var even, odd := 2 * q, 2 * q + 1;
    assert even / 2 == q && odd / 2 == q && even % 2 == 0 && odd % 2 == 1;
    assert Removed(even, sizes) == Removed(q, sizes[1..]);
    assert Removed(odd, sizes) == sizes[0] + Removed(q, sizes[1..]);
    assert CountOnes(even) == CountOnes(q) && CountOnes(odd) == 1 + CountOnes(q);
  }

  lemma {:induction false} SubsetsPairUp(total: int, sizes: seq<nat>, n: nat, half: nat)
    requires sizes != []
    ensures SubsetSum(total, sizes, n, 2 * half)
         == SubsetSum(total, sizes[1..], n, half) - SubsetSum(total - sizes[0], sizes[1..], n, half)
  {
    hide Term;
    if half > 0 {
      SubsetsPairUp(total, sizes, n, half - 1);
      TermsPairUp(total, sizes, n, half - 1);
      var odd := 2 * half - 1;
      assert SubsetSum(total, sizes, n, 2 * half) == SubsetSum(total, sizes, n, odd) + Term(total, sizes, n, odd);
    }
  }

  lemma {:induction false} SubsetSumIsAlternating(total: int, sizes: seq<nat>, n: nat)
    ensures SubsetSum(total, sizes, n, Pow2(|sizes|)) == Alternating(total, sizes, n)
    decreases |sizes|
  {
    hide Term;
    hide Pow;
    if sizes == [] {
      assert SubsetSum(total, sizes, n, 1) == SubsetSum(total, sizes, n, 0) + Term(total, sizes, n, 0);
      EmptyTerm(total, n);
    } else {
      SubsetsPairUp(total, sizes, n, Pow2(|sizes| - 1));
      SubsetSumIsAlternating(total, sizes[1..], n);
      SubsetSumIsAlternating(total - sizes[0], sizes[1..], n);
    }
  }

  lemma EmptyTerm(total: int, n: nat)
    ensures Term(total, [], n, 0) == Pow(total, n)
  {
  }
}

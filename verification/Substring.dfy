// Searching one string in another, as QString::indexOf and str::find do.
module Substring {
  import opened Wrappers

  predicate HitAt(s: string, m: string, k: nat) {
    k + |m| <= |s| && s[k..k + |m|] == m
  }

  // The first occurrence of `m` at or after `from`.
  function IndexOf(s: string, m: string, from: nat): (r: Option<nat>)
    ensures r.Some? ==> from <= r.value && r.value + |m| <= |s|
    decreases |s| - from
  {
    if from + |m| > |s| then None
    else if HitAt(s, m, from) then Some(from)
    else IndexOf(s, m, from + 1)
  }

  ghost predicate IsFirst(s: string, m: string, from: nat, r: Option<nat>) {
    match r
    case Some(h) => from <= h && HitAt(s, m, h) && forall k :: from <= k < h ==> !HitAt(s, m, k)
    case None => forall k :: from <= k ==> !HitAt(s, m, k)
  }

  lemma {:induction false} IndexOfIsFirst(s: string, m: string, from: nat, r: Option<nat>)
    ensures r == IndexOf(s, m, from) <==> IsFirst(s, m, from, r)
    decreases |s| - from
  {
    if from + |m| <= |s| && !HitAt(s, m, from) {
      IndexOfIsFirst(s, m, from + 1, r);
    }
  }

  lemma HitInSuffix(s: string, m: string, at: nat, k: nat)
    requires at <= |s|
    ensures HitAt(s[at..], m, k) <==> HitAt(s, m, at + k)
  {
    if at + k + |m| <= |s| {
      assert s[at..][k..k + |m|] == s[at + k..at + k + |m|];
    }
  }

  lemma {:induction false} IndexOfInSuffix(s: string, m: string, at: nat)
    requires at <= |s|
    ensures IndexOf(s[at..], m, 0) ==
            match IndexOf(s, m, at) { case None => None case Some(h) => Some(h - at) }
  {
    hide HitAt;
    hide IndexOf;
    var r := IndexOf(s, m, at);
    var t := match r { case None => None case Some(h) => Some(h - at) };
    IndexOfIsFirst(s, m, at, r);
    IndexOfIsFirst(s[at..], m, 0, t);
    forall k: nat ensures HitAt(s[at..], m, k) <==> HitAt(s, m, at + k) {
      HitInSuffix(s, m, at, k);
    }
    if r.None? {
      forall k: nat ensures !HitAt(s[at..], m, k) {
        assert !HitAt(s, m, at + k);
      }
    } else {
      forall k: nat | k < r.value - at ensures !HitAt(s[at..], m, k) {
        assert !HitAt(s, m, at + k);
      }
    }
  }

  // An occurrence completed inside `a` stays the first one when more arrives,
  // and was the first one before it arrived.
  lemma IndexOfExtends(a: string, b: string, m: string, h: nat)
    requires h + |m| <= |a|
    ensures IndexOf(a, m, 0) == Some(h) <==> IndexOf(a + b, m, 0) == Some(h)
  {
    forall k: nat | k <= h ensures HitAt(a + b, m, k) <==> HitAt(a, m, k) {
      assert (a + b)[k..k + |m|] == a[k..k + |m|];
    }
    IndexOfIsFirst(a, m, 0, Some(h));
    IndexOfIsFirst(a + b, m, 0, Some(h));
  }

  // The first separator is the one put after a text that holds none.
  lemma FirstSeparator(text: string, c: char, rest: string)
    requires forall i :: 0 <= i < |text| ==> text[i] != c
    ensures IndexOf(text + [c] + rest, [c], 0) == Some(|text|)
    ensures IndexOf(text, [c], 0) == None
  {
    var s := text + [c] + rest;
    forall k | 0 <= k < |text| ensures !HitAt(s, [c], k) && !HitAt(text, [c], k) {
      assert s[k..k + 1] == [text[k]] && text[k..k + 1] == [text[k]];
    }
    assert s[|text|..|text| + 1] == [c];
    IndexOfIsFirst(s, [c], 0, Some(|text|));
    IndexOfIsFirst(text, [c], 0, None);
  }
}

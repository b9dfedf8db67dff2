// Alphabet assembly, the class scan and the entropy arithmetic of
// crates/blackbag-core/src/generate.rs, in exact arithmetic.
module Charset {
  import opened Wrappers
  import opened Bytes
  import opened Counting

  const MAX_PASSWORD_LEN: nat := 512
  const NONE: byte := 255

  // `count` consecutive codes from `first`.
  function Run(first: nat, count: nat): (r: seq<byte>)
    requires first + count <= 256
    ensures |r| == count && forall i :: 0 <= i < count ==> r[i] == first + i
  {
    if count == 0 then [] else Run(first, count - 1) + [first + count - 1]
  }

  const LOWERCASE: seq<byte> := Run(97, 26)
  const UPPERCASE: seq<byte> := Run(65, 26)
  const DIGITS: seq<byte> := Run(48, 10)

  // !  #$%&  ()*+,-./  :;<=>?@  [  ]^_  {|}~
  const SYMBOLS: seq<byte> :=
    Run(33, 1) + Run(35, 4) + Run(40, 8) + Run(58, 7) + Run(91, 1) + Run(93, 3) + Run(123, 4)

  // 0O1lI|o
  predicate Ambiguous(b: byte) {
    b == 48 || b == 79 || b == 49 || b == 108 || b == 73 || b == 124 || b == 111
  }

  datatype PasswordSpec = PasswordSpec(
    length: nat, lowercase: bool, uppercase: bool, digits: bool, symbols: bool, excludeAmbiguous: bool)

  // ----- what a specification asks for, character by character -----

  ghost predicate Small(b: byte) {
    97 <= b <= 122
  }

  ghost predicate Capital(b: byte) {
    65 <= b <= 90
  }

  ghost predicate Digit(b: byte) {
    48 <= b <= 57
  }

  ghost predicate Symbol(b: byte) {
    b in {33, 35, 36, 37, 38, 40, 41, 42, 43, 44, 45, 46, 47, 58, 59, 60, 61, 62, 63, 64, 91, 93, 94, 95, 123, 124, 125, 126}
  }

  ghost predicate Misread(b: byte) {
    b in {48, 49, 73, 79, 108, 111, 124}
  }

  // May this character stand in a password of the specification?
  ghost predicate Allowed(spec: PasswordSpec, b: byte) {
    && ((spec.lowercase && Small(b)) || (spec.uppercase && Capital(b)) || (spec.digits && Digit(b)) || (spec.symbols && Symbol(b)))
    && !(spec.excludeAmbiguous && Misread(b))
  }

  ghost predicate Holds(s: seq<byte>, group: byte -> bool) {
    exists i :: 0 <= i < |s| && group(s[i])
  }

  // At least one character of each group that is switched on.
  ghost predicate HoldsEachGroup(spec: PasswordSpec, s: seq<byte>) {
    && (spec.lowercase ==> Holds(s, Small))
    && (spec.uppercase ==> Holds(s, Capital))
    && (spec.digits ==> Holds(s, Digit))
    && (spec.symbols ==> Holds(s, Symbol))
  }

  ghost predicate IsPasswordOf(spec: PasswordSpec, s: seq<byte>) {
    && |s| == spec.length
    && (forall i :: 0 <= i < |s| ==> Allowed(spec, s[i]))
    && HoldsEachGroup(spec, s)
  }

  function One(on: bool): nat {
    if on then 1 else 0
  }

  function GroupsOn(spec: PasswordSpec): nat {
    One(spec.lowercase) + One(spec.uppercase) + One(spec.digits) + One(spec.symbols)
  }

  datatype Charset = Charset(bytes: seq<byte>, classOf: seq<byte>, classSizes: seq<nat>)

  datatype SpecError = LengthZero | LengthTooLong | NoClassEnabled | ClassEmptied | LengthCannotHoldClasses

  // ----- the classes a specification enables -----

  function Sources(spec: PasswordSpec): seq<(bool, seq<byte>)> {
    [(spec.lowercase, LOWERCASE), (spec.uppercase, UPPERCASE), (spec.digits, DIGITS), (spec.symbols, SYMBOLS)]
  }

  function Kept(source: seq<byte>, exclude: bool): seq<byte> {
    if source == [] then []
    else var b := source[|source| - 1];
         Kept(source[..|source| - 1], exclude) + (if exclude && Ambiguous(b) then [] else [b])
  }

  function ClassesOf(sources: seq<(bool, seq<byte>)>, exclude: bool): seq<seq<byte>> {
    if sources == [] then []
    else var (enabled, source) := sources[|sources| - 1];
         ClassesOf(sources[..|sources| - 1], exclude) + (if enabled then [Kept(source, exclude)] else [])
  }

  function Enabled(spec: PasswordSpec): seq<seq<byte>> {
    ClassesOf(Sources(spec), spec.excludeAmbiguous)
  }

  function Concat(classes: seq<seq<byte>>): seq<byte> {
    if classes == [] then [] else Concat(classes[..|classes| - 1]) + classes[|classes| - 1]
  }

  // What `classOf` records once `classes` have been entered.
  ghost predicate Records(classOf: seq<byte>, classes: seq<seq<byte>>) {
    && |classOf| == 256
    && |classes| < 255
    && forall b: byte :: InClass(classOf[b], classes, b)
  }

  ghost predicate InClass(k: byte, classes: seq<seq<byte>>, b: byte) {
    if k == NONE then forall i :: 0 <= i < |classes| ==> b !in classes[i]
    else k < |classes| && b in classes[k] && forall i :: 0 <= i < |classes| && i != k ==> b !in classes[i]
  }

  ghost predicate Describes(set_: Charset, classes: seq<seq<byte>>) {
    && set_.bytes == Concat(classes)
    && Records(set_.classOf, classes)
    && |set_.classSizes| == |classes|
    && forall i :: 0 <= i < |classes| ==> set_.classSizes[i] == |classes[i]|
  }

  ghost predicate Ascending(s: seq<byte>) {
    forall i, j :: 0 <= i < j < |s| ==> s[i] < s[j]
  }

  ghost predicate Apart(classes: seq<seq<byte>>) {
    forall i, j, b :: 0 <= i < j < |classes| && b in classes[i] ==> b !in classes[j]
  }

  ghost predicate KeepsSomething(source: seq<byte>) {
    exists b :: b in source && !Ambiguous(b)
  }

  ghost predicate Separate(sources: seq<(bool, seq<byte>)>) {
    && (forall i :: 0 <= i < |sources| ==> Ascending(sources[i].1))
    && (forall i, j, b :: 0 <= i < j < |sources| && b in sources[i].1 ==> b !in sources[j].1)
  }

  lemma {:induction false} KeptIs(source: seq<byte>, exclude: bool)
    requires Ascending(source)
    ensures Ascending(Kept(source, exclude))
    ensures forall b :: b in Kept(source, exclude) <==> b in source && !(exclude && Ambiguous(b))
  {
    if source != [] {
      var rest, b := source[..|source| - 1], source[|source| - 1];
      KeptIs(rest, exclude);
      assert source == rest + [b];
      var kept := Kept(rest, exclude);
      forall i | 0 <= i < |kept| ensures kept[i] < b {
        assert kept[i] in rest;
      }
    }
  }

  lemma {:induction false} ClassesOfAreApart(sources: seq<(bool, seq<byte>)>, exclude: bool)
    requires Separate(sources)
    ensures var cs := ClassesOf(sources, exclude);
            && |cs| <= |sources| && Apart(cs)
            && (forall i :: 0 <= i < |cs| ==> Ascending(cs[i]))
            && (forall i, b :: 0 <= i < |cs| && b in cs[i] ==> exists j :: 0 <= j < |sources| && b in sources[j].1)
  {
    if sources != [] {
      var n := |sources| - 1;
      ClassesOfAreApart(sources[..n], exclude);
      KeptIs(sources[n].1, exclude);
      var rest, cs := ClassesOf(sources[..n], exclude), ClassesOf(sources, exclude);
      forall i, b | 0 <= i < |rest| && b in rest[i] ensures b !in sources[n].1 {
        var j :| 0 <= j < n && b in sources[..n][j].1;
        assert b in sources[j].1;
      }
      forall i, b | 0 <= i < |cs| && b in cs[i] ensures exists j :: 0 <= j < |sources| && b in sources[j].1 {
        if i < |rest| {
          var j :| 0 <= j < n && b in sources[..n][j].1;
          assert b in sources[j].1;
        } else {
          assert b in sources[n].1;
        }
      }
    }
  }

  lemma RunIs(first: nat, count: nat)
    requires first + count <= 256
    ensures Ascending(Run(first, count))
    ensures forall b :: b in Run(first, count) <==> first <= b < first + count
  {
    forall b: byte | first <= b < first + count ensures b in Run(first, count) {
      assert Run(first, count)[b - first] == b;
    }
  }

  // One more run above everything in `s`.
  lemma Stacked(s: seq<byte>, first: nat, count: nat)
    requires first + count <= 256 && Ascending(s) && forall b :: b in s ==> b < first
    ensures Ascending(s + Run(first, count))
    ensures forall b :: b in s + Run(first, count) <==> b in s || first <= b < first + count
  {
    RunIs(first, count);
    forall i | 0 <= i < |s| ensures s[i] < first {
      assert s[i] in s;
    }
  }

  predicate IsSymbol(b: byte) {
    b == 33 || 35 <= b < 39 || 40 <= b < 48 || 58 <= b < 65 || b == 91 || 93 <= b < 96 || 123 <= b < 127
  }

  lemma SymbolsAre()
    ensures Ascending(SYMBOLS) && forall b :: b in SYMBOLS <==> IsSymbol(b)
  {
    hide Run;
    RunIs(33, 1);
    var s := Run(33, 1);
    Stacked(s, 35, 4); s := s + Run(35, 4);
    Stacked(s, 40, 8); s := s + Run(40, 8);
    Stacked(s, 58, 7); s := s + Run(58, 7);
    Stacked(s, 91, 1); s := s + Run(91, 1);
    Stacked(s, 93, 3); s := s + Run(93, 3);
    Stacked(s, 123, 4);
  }

  lemma SourcesAreSeparate(spec: PasswordSpec)
    ensures Separate(Sources(spec))
  {
    hide Run;
    hide SYMBOLS;
    RunIs(97, 26);
    RunIs(65, 26);
    RunIs(48, 10);
    SymbolsAre();
  }

  lemma {:induction false} ClassesOfLength(sources: seq<(bool, seq<byte>)>, exclude: bool)
    ensures |ClassesOf(sources, exclude)| == CountEnabled(sources)
  {
    if sources != [] {
      ClassesOfLength(sources[..|sources| - 1], exclude);
    }
  }

  function CountEnabled(sources: seq<(bool, seq<byte>)>): nat {
    if sources == [] then 0
    else CountEnabled(sources[..|sources| - 1]) + (if sources[|sources| - 1].0 then 1 else 0)
  }

  // Every alphabet keeps something once the ambiguous glyphs are gone.
  lemma EveryAlphabetKeepsSomething(spec: PasswordSpec)
    ensures forall i :: 0 <= i < 4 ==> KeepsSomething(Sources(spec)[i].1)
  {
    hide Run;
    hide SYMBOLS;
    RunIs(97, 26);
    RunIs(65, 26);
    RunIs(48, 10);
    SymbolsAre();
    assert 97 in LOWERCASE && 65 in UPPERCASE && 50 in DIGITS && 33 in SYMBOLS;
    assert !Ambiguous(97) && !Ambiguous(65) && !Ambiguous(50) && !Ambiguous(33);
  }

  // ----- building -----

  lemma ConcatAppend(classes: seq<seq<byte>>, c: seq<byte>)
    ensures Concat(classes + [c]) == Concat(classes) + c
  {
    assert (classes + [c])[..|classes|] == classes;
  }

  // One more byte entered into the class being built.
  lemma RecordsEnter(classOf: seq<byte>, done: seq<seq<byte>>, c: seq<byte>, b: byte)
    requires Records(classOf, done + [c]) && b !in c
    requires forall i :: 0 <= i < |done| ==> b !in done[i]
    ensures Records(classOf[b := |done|], done + [c + [b]])
  {
    var cs, ds := done + [c], done + [c + [b]];
    var after := classOf[b := |done|];
    forall x: byte ensures InClass(after[x], ds, x) {
      assert InClass(classOf[x], cs, x);
      assert forall i :: 0 <= i < |done| ==> cs[i] == done[i] == ds[i];
      assert cs[|done|] == c && ds[|done|] == c + [b];
    }
  }

  lemma RecordsOpen(classOf: seq<byte>, done: seq<seq<byte>>)
    requires Records(classOf, done) && |done| < 254
    ensures |classOf| == 256 && Records(classOf, done + [[]])
  {
    var cs := done + [[]];
    forall x: byte ensures InClass(classOf[x], cs, x) {
      assert InClass(classOf[x], done, x);
      assert forall i :: 0 <= i < |done| ==> cs[i] == done[i];
      assert cs[|done|] == [];
    }
  }

  // Enter one source, skipping ambiguous glyphs when asked to.
  method EnterSource(source: seq<byte>, exclude: bool, bytes0: seq<byte>, classOf0: seq<byte>, index: byte,
                     ghost done: seq<seq<byte>>)
    returns (bytes: seq<byte>, classOf: seq<byte>, size: nat)
    requires Ascending(source) && index == |done| < 254 && Records(classOf0, done)
    requires forall i, b :: 0 <= i < |done| && b in source ==> b !in done[i]
    ensures bytes == bytes0 + Kept(source, exclude)
    ensures size == |Kept(source, exclude)|
    ensures Records(classOf, done + [Kept(source, exclude)])
  {
    hide Records;
    bytes, classOf, size := bytes0, classOf0, 0;
    RecordsOpen(classOf0, done);
    for k := 0 to |source|
      invariant bytes == bytes0 + Kept(source[..k], exclude)
      invariant size == |Kept(source[..k], exclude)| && |classOf| == 256
      invariant Records(classOf, done + [Kept(source[..k], exclude)])
    {
      var b := source[k];
      assert source[..k + 1][..k] == source[..k];
      assert b in source;
      if exclude && Ambiguous(b) {
        assert Kept(source[..k + 1], exclude) == Kept(source[..k], exclude);
        continue;
      }
      assert Kept(source[..k + 1], exclude) == Kept(source[..k], exclude) + [b];
      KeptIs(source[..k], exclude);
      RecordsEnter(classOf, done, Kept(source[..k], exclude), b);
      classOf := classOf[b := index];
      bytes := bytes + [b];
      size := size + 1;
    }
    assert source[..|source|] == source;
  }

  method Build(spec: PasswordSpec) returns (r: Result<Charset, SpecError>)
    ensures r.Ok? ==> Describes(r.value, Enabled(spec))
    ensures r.Ok? ==> forall b: byte :: b in r.value.bytes <==> Allowed(spec, b)
    ensures |Enabled(spec)| == GroupsOn(spec)
    ensures r.Ok? <==> 1 <= spec.length <= 512 && 1 <= GroupsOn(spec) <= spec.length
    ensures r == Err(LengthZero) <==> spec.length == 0
    ensures r == Err(LengthTooLong) <==> spec.length > 512
    ensures r == Err(NoClassEnabled) <==> 1 <= spec.length <= 512 && GroupsOn(spec) == 0
    ensures r == Err(LengthCannotHoldClasses) <==> 1 <= spec.length <= 512 && spec.length < GroupsOn(spec)
    ensures r != Err(ClassEmptied)
  {
    hide Sources;
    hide ClassesOf;
    hide Kept;
    hide Concat;
    hide Records;
    hide Separate;
    hide KeepsSomething;
    var sources := Sources(spec);
    SourcesAreSeparate(spec);
    SourcesShape(spec);
    ClassesOfLength(sources, spec.excludeAmbiguous);
    if spec.length == 0 {
      return Err(LengthZero);
    }
    if spec.length > MAX_PASSWORD_LEN {
      return Err(LengthTooLong);
    }
    if !spec.lowercase && !spec.uppercase && !spec.digits && !spec.symbols {
      return Err(NoClassEnabled);
    }
    var bytes, classOf, classSizes := [], Repeat(NONE, 256), [];
    ghost var classes: seq<seq<byte>> := [];
    NothingRecorded(sources, spec.excludeAmbiguous);
    for k := 0 to |sources|
      invariant classes == ClassesOf(sources[..k], spec.excludeAmbiguous) && |classes| <= k
      invariant bytes == Concat(classes)
      invariant Records(classOf, classes)
      invariant |classSizes| == |classes|
      invariant forall i :: 0 <= i < |classes| ==> classSizes[i] == |classes[i]|
    {
      var (enabled, source) := sources[k];
      NewSourceIsApart(sources, spec.excludeAmbiguous, k);
      if !enabled {
        continue;
      }
      ConcatAppend(classes, Kept(source, spec.excludeAmbiguous));
      var size;
      bytes, classOf, size := EnterSource(source, spec.excludeAmbiguous, bytes, classOf, |classSizes|, classes);
      classes := classes + [Kept(source, spec.excludeAmbiguous)];
      if size == 0 {
        return Err(ClassEmptied);
      }
      classSizes := classSizes + [size];
    }
    assert sources[..|sources|] == sources;
    if spec.length < |classSizes| {
      return Err(LengthCannotHoldClasses);
    }
    AlphabetIsAllowed(spec);
    r := Ok(Charset(bytes, classOf, classSizes));
  }

  lemma SourcesShape(spec: PasswordSpec)
    ensures var s := Sources(spec);
            && |s| == 4
            && CountEnabled(s) == GroupsOn(spec)
            && (forall i :: 0 <= i < |s| ==> KeepsSomething(s[i].1))
  {
    hide LOWERCASE;
    hide UPPERCASE;
    hide DIGITS;
    hide SYMBOLS;
    EveryAlphabetKeepsSomething(spec);
    var s := Sources(spec);
    assert s[..3][..2] == s[..2] && s[..2][..1] == s[..1];
    assert CountEnabled(s[..1]) == if spec.lowercase then 1 else 0;
    assert CountEnabled(s[..2]) == CountEnabled(s[..1]) + if spec.uppercase then 1 else 0;
    assert CountEnabled(s[..3]) == CountEnabled(s[..2]) + if spec.digits then 1 else 0;
  }

  lemma NothingRecorded(sources: seq<(bool, seq<byte>)>, exclude: bool)
    ensures Records(Repeat(NONE, 256), []) && Concat([]) == [] && ClassesOf(sources[..0], exclude) == []
  {
    assert forall b: byte :: InClass(Repeat(NONE, 256)[b], [], b);
  }

  // What entering source `k` finds, and what it adds.
  lemma NewSourceIsApart(sources: seq<(bool, seq<byte>)>, exclude: bool, k: nat)
    requires Separate(sources) && k < |sources|
    requires KeepsSomething(sources[k].1)
    ensures ClassesOf(sources[..k + 1], exclude)
         == ClassesOf(sources[..k], exclude) + (if sources[k].0 then [Kept(sources[k].1, exclude)] else [])
    ensures Ascending(sources[k].1) && Kept(sources[k].1, exclude) != []
    ensures forall i, b :: 0 <= i < |ClassesOf(sources[..k], exclude)| && b in sources[k].1
              ==> b !in ClassesOf(sources[..k], exclude)[i]
  {
    hide Kept;
    assert sources[..k + 1][..k] == sources[..k];
    ClassesOfAreApart(sources[..k], exclude);
    KeptIs(sources[k].1, exclude);
    var b :| b in sources[k].1 && !Ambiguous(b);
    assert b in Kept(sources[k].1, exclude);
    forall i, b | 0 <= i < |ClassesOf(sources[..k], exclude)| && b in ClassesOf(sources[..k], exclude)[i]
      ensures b !in sources[k].1
    {
      var j :| 0 <= j < k && b in sources[..k][j].1;
      assert b in sources[j].1;
    }
  }

  lemma {:induction false} InClasses(sources: seq<(bool, seq<byte>)>, exclude: bool, b: byte)
    ensures (exists i :: 0 <= i < |ClassesOf(sources, exclude)| && b in ClassesOf(sources, exclude)[i]) <==>
            exists j :: 0 <= j < |sources| && sources[j].0 && b in Kept(sources[j].1, exclude)
  {
    hide Kept;
    if sources != [] {
      var n := |sources| - 1;
      var rest, cs := ClassesOf(sources[..n], exclude), ClassesOf(sources, exclude);
      InClasses(sources[..n], exclude, b);
      if i :| 0 <= i < |rest| && b in rest[i] {
        assert b in cs[i];
      }
      if j :| 0 <= j < |sources| && sources[j].0 && b in Kept(sources[j].1, exclude) {
        if j < n {
          assert sources[..n][j] == sources[j];
        } else {
          assert b in cs[|rest|];
        }
      }
      if i :| 0 <= i < |cs| && b in cs[i] && i < |rest| {
        assert b in rest[i];
        var j :| 0 <= j < n && sources[..n][j].0 && b in Kept(sources[..n][j].1, exclude);
        assert sources[j].0;
      }
    }
  }

  // What each alphabet keeps, in the words of the specification.
  lemma KeptAlphabets(spec: PasswordSpec, b: byte)
    ensures var e := spec.excludeAmbiguous;
            && (b in Kept(LOWERCASE, e) <==> Small(b) && !(e && Misread(b)))
            && (b in Kept(UPPERCASE, e) <==> Capital(b) && !(e && Misread(b)))
            && (b in Kept(DIGITS, e) <==> Digit(b) && !(e && Misread(b)))
            && (b in Kept(SYMBOLS, e) <==> Symbol(b) && !(e && Misread(b)))
  {
    hide Run;
    hide SYMBOLS;
    hide Kept;
    RunIs(97, 26);
    RunIs(65, 26);
    RunIs(48, 10);
    SymbolsAre();
    KeptIs(LOWERCASE, spec.excludeAmbiguous);
    KeptIs(UPPERCASE, spec.excludeAmbiguous);
    KeptIs(DIGITS, spec.excludeAmbiguous);
    KeptIs(SYMBOLS, spec.excludeAmbiguous);
    assert Ambiguous(b) <==> Misread(b);
    assert IsSymbol(b) <==> Symbol(b);
  }

  // The alphabet holds exactly the characters the switches ask for.
  lemma AlphabetIsAllowed(spec: PasswordSpec)
    ensures forall b: byte :: b in Concat(Enabled(spec)) <==> Allowed(spec, b)
  {
    hide Kept;
    hide ClassesOf;
    hide Concat;
    hide LOWERCASE;
    hide UPPERCASE;
    hide DIGITS;
    hide SYMBOLS;
    hide Small;
    hide Capital;
    hide Digit;
    hide Symbol;
    hide Misread;
    var sources := Sources(spec);
    forall b: byte ensures b in Concat(Enabled(spec)) <==> Allowed(spec, b) {
      InConcat(Enabled(spec), b);
      InClasses(sources, spec.excludeAmbiguous, b);
      KeptAlphabets(spec, b);
      assert sources[0].0 == spec.lowercase && sources[1].0 == spec.uppercase;
      assert sources[2].0 == spec.digits && sources[3].0 == spec.symbols;
    }
  }

  // ----- the class scan -----

  // `m | 1 << c`, on unbounded masks.
  function OrBit(m: nat, c: nat): nat {
    if c == 0 then m / 2 * 2 + 1 else m % 2 + 2 * OrBit(m / 2, c - 1)
  }

  // The number whose binary digits, lowest first, are `bits`.
  function MaskOf(bits: seq<bool>): nat {
    if bits == [] then 0 else (if bits[0] then 1 else 0) + 2 * MaskOf(bits[1..])
  }

  lemma {:induction false} OrBitSets(bits: seq<bool>, c: nat)
    requires c < |bits|
    ensures OrBit(MaskOf(bits), c) == MaskOf(bits[c := true])
  {
    if c == 0 {
      assert bits[c := true][1..] == bits[1..];
    } else {
      OrBitSets(bits[1..], c - 1);
      assert bits[c := true][1..] == bits[1..][c - 1 := true];
    }
  }

  lemma {:induction false} FullMask(bits: seq<bool>)
    ensures MaskOf(bits) <= Pow2(|bits|) - 1
    ensures MaskOf(bits) == Pow2(|bits|) - 1 <==> forall i :: 0 <= i < |bits| ==> bits[i]
  {
    if bits != [] {
      FullMask(bits[1..]);
      assert (forall i :: 0 <= i < |bits| ==> bits[i]) <==> bits[0] && (forall i :: 0 <= i < |bits| - 1 ==> bits[1..][i]) by {
        assert forall i :: 0 < i < |bits| ==> bits[i] == bits[1..][i - 1];
      }
    }
  }

  ghost function ClassSet(c: seq<byte>): set<byte> {
    set b | b in c
  }

  ghost function ClassSets(classes: seq<seq<byte>>): (r: seq<set<byte>>)
    ensures |r| == |classes| && forall i :: 0 <= i < |r| ==> r[i] == ClassSet(classes[i])
  {
    if classes == [] then [] else [ClassSet(classes[0])] + ClassSets(classes[1..])
  }

  // Whether every class is represented; the scan may stop early.
  method AllClassesPresent(charset: Charset, candidate: seq<byte>, ghost classes: seq<seq<byte>>)
    returns (all: bool)
    requires Describes(charset, classes)
    ensures all <==> Covers(candidate, ClassSets(classes))
  {
    hide OrBit;
    hide MaskOf;
    hide Covers;
    hide Touches;
    hide ClassSet;
    hide ClassSets;
    hide Pow2;
    Pow2IsPositive(|charset.classSizes|);
    var wanted := Pow2(|charset.classSizes|) - 1;
    var seen: nat := 0;
    ghost var bits := SeenBits([], classes);
    NoBits(classes);
    for i := 0 to |candidate|
      invariant bits == SeenBits(candidate[..i], classes) && seen == MaskOf(bits)
    {
      var b := candidate[i];
      var class_ := charset.classOf[b];
      SeenGrows(candidate, i, classes, class_);
      if class_ != NONE {
        OrBitSets(bits, class_);
        seen := OrBit(seen, class_);
        bits := bits[class_ := true];
      }
      FullMask(bits);
      if seen == wanted {
        CoveredFully(candidate[..i + 1], classes, bits);
        CoveredEarly(candidate, i + 1, classes);
        return true;
      }
    }
    assert candidate[..|candidate|] == candidate;
    FullMask(bits);
    CoveredFully(candidate, classes, bits);
    all := seen == wanted;
  }

  // Bit `k`: has a byte of class `k` been seen?
  ghost function SeenBits(s: seq<byte>, classes: seq<seq<byte>>): (bits: seq<bool>)
    ensures |bits| == |classes|
    ensures forall k :: 0 <= k < |bits| ==> bits[k] == Touches(s, ClassSet(classes[k]))
  {
    if classes == [] then [] else [Touches(s, ClassSet(classes[0]))] + SeenBits(s, classes[1..])
  }

  lemma {:induction false} NoBits(classes: seq<seq<byte>>)
    ensures MaskOf(SeenBits([], classes)) == 0
  {
    if classes != [] {
      NoBits(classes[1..]);
      assert SeenBits([], classes)[1..] == SeenBits([], classes[1..]);
    }
  }

  lemma SeenGrows(s: seq<byte>, i: nat, classes: seq<seq<byte>>, k: byte)
    requires i < |s| && InClass(k, classes, s[i])
    ensures var bits := SeenBits(s[..i], classes);
            SeenBits(s[..i + 1], classes) == if k == NONE then bits else bits[k := true]
  {
    var t, u := s[..i], s[..i + 1];
    assert u == t + [s[i]];
    forall m | 0 <= m < |classes|
      ensures Touches(u, ClassSet(classes[m])) <==> Touches(t, ClassSet(classes[m])) || s[i] in classes[m]
    {
      if j :| 0 <= j < |t| && t[j] in ClassSet(classes[m]) {
        assert u[j] in ClassSet(classes[m]);
      }
      if s[i] in classes[m] {
        assert u[i] in ClassSet(classes[m]);
      }
    }
    var bits := SeenBits(t, classes);
    assert SeenBits(u, classes) == if k == NONE then bits else bits[k := true];
  }

  lemma {:induction false} CoveredFully(s: seq<byte>, classes: seq<seq<byte>>, bits: seq<bool>)
    requires bits == SeenBits(s, classes)
    ensures (forall k :: 0 <= k < |bits| ==> bits[k]) <==> Covers(s, ClassSets(classes))
  {
    hide Touches;
    hide SeenBits;
    var sets := ClassSets(classes);
    assert forall k :: 0 <= k < |bits| ==> bits[k] == Touches(s, sets[k]);
  }

  // Classes seen in a prefix are seen in the whole.
  lemma CoveredEarly(s: seq<byte>, n: nat, classes: seq<seq<byte>>)
    requires n <= |s| && Covers(s[..n], ClassSets(classes))
    ensures Covers(s, ClassSets(classes))
  {
    var t, sets := s[..n], ClassSets(classes);
    forall k | 0 <= k < |sets| ensures Touches(s, sets[k]) {
      assert Touches(t, sets[k]);
      var j :| 0 <= j < |t| && t[j] in sets[k];
      assert s[j] in sets[k];
    }
  }

  // ----- the cost of requiring every class -----

  function RealPow(x: real, n: nat): real {
    if n == 0 then 1.0 else x * RealPow(x, n - 1)
  }

  lemma {:induction false} RatioPow(a: int, b: int, n: nat)
    requires b > 0
    ensures Pow(b, n) > 0 && RealPow(a as real / b as real, n) == Pow(a, n) as real / Pow(b, n) as real
  {
    PowPositive(b, n);
    if n > 0 {
      PowPositive(b, n - 1);
      RatioPow(a, b, n - 1);
      MulRatios(a, b, Pow(a, n - 1), Pow(b, n - 1));
    }
  }

  lemma MulRatios(a: int, b: int, c: int, d: int)
    requires b > 0 && d > 0
    ensures b * d > 0 && (a as real / b as real) * (c as real / d as real) == (a * c) as real / (b * d) as real
  {
    var x, y := a as real / b as real, c as real / d as real;
    assert x * b as real == a as real && y * d as real == c as real;
    assert (x * y) * (b * d) as real == (x * b as real) * (y * d as real);
  }

  lemma {:induction false} RemovedAtMostSum(subset: nat, sizes: seq<nat>)
    ensures Removed(subset, sizes) <= Sum(sizes)
  {
    if sizes != [] {
      RemovedAtMostSum(subset / 2, sizes[1..]);
    }
  }

  function ShiftRight(m: nat, k: nat): nat {
    if k == 0 then m else ShiftRight(m, k - 1) / 2
  }

  // `None` stands for the minus infinity of an unsatisfiable requirement, and
  // `Some(p)` for log2(p).
  method ClassConstraint(charsetSize: nat, classSizes: seq<nat>, length: nat) returns (probability: Option<real>)
    requires charsetSize > 0 && Sum(classSizes) <= charsetSize
    ensures |classSizes| < 2 ==> probability == Some(1.0)
    ensures |classSizes| >= 2 ==>
      var count := Alternating(charsetSize, classSizes, length);
      && Pow(charsetSize, length) > 0
      && probability == if count <= 0 then None else Some(count as real / Pow(charsetSize, length) as real)
  {
    hide Pow;
    hide RealPow;
    hide Removed;
    hide Alternating;
    hide SubsetSum;
    var classes := |classSizes|;
    if classes < 2 {
      return Some(1.0);
    }
    var total := charsetSize as real;
    var p := 0.0;
    PowPositive(charsetSize, length);
    EmptySum(charsetSize, classSizes, length);
    for subset := 0 to Pow2(classes)
      invariant p == SubsetSum(charsetSize, classSizes, length, subset) as real / Pow(charsetSize, length) as real
    {
      var removed := RemovedSize(subset, classSizes);
      RemovedAtMostSum(subset, classSizes);
      var term := RealPow((charsetSize - removed) as real / total, length);
      RatioPow(charsetSize - removed, charsetSize, length);
      NextTerm(charsetSize, classSizes, length, subset);
      if CountOnes(subset) % 2 == 0 {
        p := p + term;
      } else {
        p := p - term;
      }
    }
    SubsetSumIsAlternating(charsetSize, classSizes, length);
    SignOfRatio(Alternating(charsetSize, classSizes, length), Pow(charsetSize, length));
    if p <= 0.0 {
      return None;
    }
    probability := Some(p);
  }

  lemma EmptySum(total: int, sizes: seq<nat>, n: nat)
    requires Pow(total, n) > 0
    ensures SubsetSum(total, sizes, n, 0) as real / Pow(total, n) as real == 0.0
  {
  }

  lemma SignOfRatio(x: int, d: int)
    requires d > 0
    ensures x as real / d as real <= 0.0 <==> x <= 0
  {
    var q := x as real / d as real;
    assert q * d as real == x as real;
  }

  // Adding one more subset to the running sum, over the common denominator.
  lemma NextTerm(total: int, sizes: seq<nat>, n: nat, subset: nat)
    requires Pow(total, n) > 0
    ensures var d := Pow(total, n) as real;
            var power := Pow(total - Removed(subset, sizes), n) as real / d;
            SubsetSum(total, sizes, n, subset + 1) as real / d
              == SubsetSum(total, sizes, n, subset) as real / d
                 + (if CountOnes(subset) % 2 == 0 then power else -power)
  {
    hide Pow;
    hide Removed;
    AddRatios(SubsetSum(total, sizes, n, subset), Term(total, sizes, n, subset), Pow(total, n));
    NegateRatio(Pow(total - Removed(subset, sizes), n), Pow(total, n));
    assert SubsetSum(total, sizes, n, subset + 1) == SubsetSum(total, sizes, n, subset) + Term(total, sizes, n, subset);
  }

  lemma NegateRatio(x: int, d: int)
    requires d > 0
    ensures (-x) as real / d as real == -(x as real / d as real)
  {
  }

  lemma AddRatios(x: int, y: int, d: int)
    requires d > 0
    ensures (x + y) as real / d as real == x as real / d as real + y as real / d as real
  {
  }

  // The classes whose bit is set in `subset`, added up bit by bit.
  method RemovedSize(subset: nat, classSizes: seq<nat>) returns (removed: nat)
    ensures removed == Removed(subset, classSizes)
  {
    removed := 0;
    for index := 0 to |classSizes|
      invariant Removed(subset, classSizes) == removed + Removed(ShiftRight(subset, index), classSizes[index..])
    {
      assert classSizes[index..][1..] == classSizes[index + 1..];
      if ShiftRight(subset, index) % 2 == 1 {
        removed := removed + classSizes[index];
      }
    }
  }

  // ----- the reported strength is exact -----

  ghost function Alphabet(spec: PasswordSpec): set<byte> {
    ClassSet(Concat(Enabled(spec)))
  }

  lemma {:induction false} TouchesAll(sources: seq<(bool, seq<byte>)>, exclude: bool, s: seq<byte>)
    ensures Covers(s, ClassSets(ClassesOf(sources, exclude))) <==>
            forall j :: 0 <= j < |sources| && sources[j].0 ==> Touches(s, ClassSet(Kept(sources[j].1, exclude)))
  {
    hide Kept;
    hide Touches;
    hide ClassSet;
    if sources != [] {
      var n := |sources| - 1;
      var rest, cs := ClassesOf(sources[..n], exclude), ClassesOf(sources, exclude);
      TouchesAll(sources[..n], exclude, s);
      assert forall i :: 0 <= i < |rest| ==> ClassSets(cs)[i] == ClassSets(rest)[i];
      assert sources[n].0 ==> ClassSets(cs)[|rest|] == ClassSet(Kept(sources[n].1, exclude));
      assert forall j :: 0 <= j < n ==> sources[..n][j] == sources[j];
    }
  }

  // Among allowed characters, one of the class is one of the group.
  lemma TouchesIsHolds(s: seq<byte>, class_: seq<byte>, group: byte -> bool)
    requires forall i :: 0 <= i < |s| ==> (s[i] in class_ <==> group(s[i]))
    ensures Touches(s, ClassSet(class_)) <==> Holds(s, group)
  {
    if i :| 0 <= i < |s| && group(s[i]) {
      assert s[i] in ClassSet(class_);
    }
  }

  // What the generator accepts, without the classes it works with.
  lemma AcceptableAre(spec: PasswordSpec, s: seq<byte>)
    ensures s in Acceptable(spec) <==> IsPasswordOf(spec, s)
  {
    hide Kept;
    hide ClassesOf;
    hide Concat;
    hide LOWERCASE;
    hide UPPERCASE;
    hide DIGITS;
    hide SYMBOLS;
    hide Small;
    hide Capital;
    hide Digit;
    hide Symbol;
    hide Misread;
    hide Covers;
    hide Touches;
    hide ClassSet;
    hide ClassSets;
    hide Holds;
    InStrings(Alphabet(spec), spec.length, s);
    AlphabetIsAllowed(spec);
    InAlphabet(spec);
    if |s| == spec.length && forall i :: 0 <= i < |s| ==> Allowed(spec, s[i]) {
      var sources, e := Sources(spec), spec.excludeAmbiguous;
      TouchesAll(sources, e, s);
      forall i | 0 <= i < |s| ensures !(e && Misread(s[i])) {
        assert Allowed(spec, s[i]);
      }
      forall i | 0 <= i < |s|
        ensures s[i] in Kept(LOWERCASE, e) <==> Small(s[i])
        ensures s[i] in Kept(UPPERCASE, e) <==> Capital(s[i])
        ensures s[i] in Kept(DIGITS, e) <==> Digit(s[i])
        ensures s[i] in Kept(SYMBOLS, e) <==> Symbol(s[i])
      {
        KeptAlphabets(spec, s[i]);
      }
      TouchesIsHolds(s, Kept(LOWERCASE, e), Small);
      TouchesIsHolds(s, Kept(UPPERCASE, e), Capital);
      TouchesIsHolds(s, Kept(DIGITS, e), Digit);
      TouchesIsHolds(s, Kept(SYMBOLS, e), Symbol);
      assert sources[0] == (spec.lowercase, LOWERCASE) && sources[1] == (spec.uppercase, UPPERCASE);
      assert sources[2] == (spec.digits, DIGITS) && sources[3] == (spec.symbols, SYMBOLS);
    }
  }

  lemma InAlphabet(spec: PasswordSpec)
    ensures forall b: byte :: b in Alphabet(spec) <==> b in Concat(Enabled(spec))
  {
    hide Enabled;
  }

  // The strings the generator accepts.
  ghost function Acceptable(spec: PasswordSpec): set<seq<byte>> {
    Accepted(Alphabet(spec), ClassSets(Enabled(spec)), spec.length)
  }

  predicate Generates(spec: PasswordSpec) {
    1 <= spec.length <= 512 && 1 <= GroupsOn(spec) <= spec.length
  }

  lemma OneClassForEachGroup(spec: PasswordSpec)
    ensures |Enabled(spec)| == GroupsOn(spec)
  {
    hide ClassesOf;
    hide Sources;
    SourcesShape(spec);
    ClassesOfLength(Sources(spec), spec.excludeAmbiguous);
  }

  ghost predicate Proper(classes: seq<seq<byte>>) {
    Apart(classes) && forall i :: 0 <= i < |classes| ==> Ascending(classes[i]) && classes[i] != []
  }

  lemma {:induction false} AscendingSetSize(c: seq<byte>)
    requires Ascending(c)
    ensures |ClassSet(c)| == |c|
  {
    if c != [] {
      var rest, b := c[..|c| - 1], c[|c| - 1];
      AscendingSetSize(rest);
      assert c == rest + [b];
      assert ClassSet(c) == ClassSet(rest) + {b};
      assert b !in rest;
    }
  }

  lemma {:induction false} InConcat(classes: seq<seq<byte>>, b: byte)
    ensures b in Concat(classes) <==> exists i :: 0 <= i < |classes| && b in classes[i]
  {
    if classes != [] {
      var n := |classes| - 1;
      InConcat(classes[..n], b);
      if i :| 0 <= i < n && b in classes[..n][i] {
        assert b in classes[i];
      }
      if i :| 0 <= i < |classes| && b in classes[i] && i < n {
        assert b in classes[..n][i];
      }
    }
  }

  lemma {:induction false} SumAppend(sizes: seq<nat>, n: nat)
    ensures Sum(sizes + [n]) == Sum(sizes) + n
  {
    if sizes != [] {
      assert (sizes + [n])[1..] == sizes[1..] + [n];
      SumAppend(sizes[1..], n);
    }
  }

  lemma {:induction false} AlphabetSize(classes: seq<seq<byte>>, sizes: seq<nat>)
    requires Proper(classes) && |sizes| == |classes| && forall i :: 0 <= i < |classes| ==> sizes[i] == |classes[i]|
    ensures |ClassSet(Concat(classes))| == |Concat(classes)| == Sum(sizes)
  {
    if classes != [] {
      var n := |classes| - 1;
      var rest, last := classes[..n], classes[n];
      AlphabetSize(rest, sizes[..n]);
      assert sizes == sizes[..n] + [sizes[n]];
      SumAppend(sizes[..n], sizes[n]);
      AscendingSetSize(last);
      assert ClassSet(Concat(classes)) == ClassSet(Concat(rest)) + ClassSet(last);
      forall b | b in Concat(rest) ensures b !in last {
        InConcat(rest, b);
        var i :| 0 <= i < n && b in rest[i];
        assert b in classes[i];
      }
      assert ClassSet(Concat(rest)) !! ClassSet(last);
    }
  }

  lemma ClassIsPart(classes: seq<seq<byte>>, i: nat)
    requires Proper(classes) && i < |classes|
    ensures ClassSet(classes[i]) <= ClassSet(Concat(classes)) && |ClassSet(classes[i])| == |classes[i]| && ClassSet(classes[i]) != {}
  {
    hide Concat;
    AscendingSetSize(classes[i]);
    assert classes[i][0] in ClassSet(classes[i]);
    forall b | b in ClassSet(classes[i]) ensures b in Concat(classes) {
      InConcat(classes, b);
    }
  }

  lemma ClassesAreApart(classes: seq<seq<byte>>, i: nat, j: nat)
    requires Proper(classes) && i < j < |classes|
    ensures ClassSet(classes[i]) !! ClassSet(classes[j])
  {
  }

  lemma ProperClasses(classes: seq<seq<byte>>, sizes: seq<nat>)
    requires Proper(classes) && |sizes| == |classes| && forall i :: 0 <= i < |classes| ==> sizes[i] == |classes[i]|
    ensures Classes(ClassSet(Concat(classes)), ClassSets(classes))
    ensures Sizes(ClassSets(classes)) == sizes
    ensures forall i :: 0 <= i < |classes| ==> ClassSets(classes)[i] != {}
  {
    hide ClassSet;
    hide Concat;
    hide Proper;
    forall i | 0 <= i < |classes|
      ensures ClassSets(classes)[i] <= ClassSet(Concat(classes)) && |ClassSets(classes)[i]| == sizes[i] && ClassSets(classes)[i] != {}
    {
      ClassIsPart(classes, i);
    }
    forall i, j | 0 <= i < j < |classes| ensures ClassSets(classes)[i] !! ClassSets(classes)[j] {
      ClassesAreApart(classes, i, j);
    }
  }

  lemma EnabledIsProper(spec: PasswordSpec)
    ensures Proper(Enabled(spec))
  {
    SourcesAreSeparate(spec);
    SourcesShape(spec);
    ClassesOfAreApart(Sources(spec), spec.excludeAmbiguous);
    NoClassIsEmptied(Sources(spec), spec.excludeAmbiguous);
  }

  lemma {:induction false} NoClassIsEmptied(sources: seq<(bool, seq<byte>)>, exclude: bool)
    requires Separate(sources)
    requires forall i :: 0 <= i < |sources| ==> KeepsSomething(sources[i].1)
    ensures forall i :: 0 <= i < |ClassesOf(sources, exclude)| ==> ClassesOf(sources, exclude)[i] != []
  {
    hide Separate;
    hide KeepsSomething;
    hide Kept;
    if sources != [] {
      var n := |sources| - 1;
      assert forall i :: 0 <= i < n ==> sources[..n][i] == sources[i];
      SeparatePrefix(sources, n);
      NoClassIsEmptied(sources[..n], exclude);
      NewSourceIsApart(sources, exclude, n);
      assert sources[..n + 1] == sources;
    }
  }

  lemma SeparatePrefix(sources: seq<(bool, seq<byte>)>, n: nat)
    requires Separate(sources) && n <= |sources|
    ensures Separate(sources[..n])
  {
    assert forall i :: 0 <= i < n ==> sources[..n][i] == sources[i];
  }

  // One class, and any length: requiring it costs nothing.
  lemma OneClassIsFree(total: nat, length: nat)
    requires length >= 1
    ensures Alternating(total, [total], length) == Pow(total, length)
  {
    assert Alternating(total, [total], length) == Pow(total, length) - Pow(0, length);
  }

  datatype Strength = Unusable(why: SpecError) | Usable(charsetSize: nat, length: nat, probability: real)

  // The entropy in bits is length * log2(charsetSize) + log2(probability), so
  // two to that power is the product below.
  method StrengthOfSpec(spec: PasswordSpec) returns (s: Strength)
    ensures s.Usable? <==> Generates(spec)
    ensures s.Usable? ==>
      && s.charsetSize == |Alphabet(spec)| > 0 && s.length == spec.length
      && Pow(s.charsetSize, s.length) as real * s.probability == |Acceptable(spec)| as real
      && |Acceptable(spec)| > 0
  {
    hide Pow;
    hide Enabled;
    hide Describes;
    var built := Build(spec);
    if built.Err? {
      return Unusable(built.error);
    }
    var charset := built.value;
    BuiltFacts(spec, charset);
    var charsetSize := |charset.bytes|;
    var probability := ClassConstraint(charsetSize, charset.classSizes, spec.length);
    s := Usable(charsetSize, spec.length, probability.value);
  }

  lemma BuiltFacts(spec: PasswordSpec, charset: Charset)
    requires Generates(spec) && Describes(charset, Enabled(spec))
    ensures Sum(charset.classSizes) == |charset.bytes| == |Alphabet(spec)| > 0
    ensures |Acceptable(spec)| == Alternating(|charset.bytes|, charset.classSizes, spec.length) > 0
    ensures Pow(|charset.bytes|, spec.length) > 0
    ensures |charset.classSizes| < 2 ==> |Acceptable(spec)| == Pow(|charset.bytes|, spec.length)
  {
    hide Pow;
    hide Alternating;
    hide Enabled;
    hide Proper;
    hide Sum;
    var classes, sizes := Enabled(spec), charset.classSizes;
    OneClassForEachGroup(spec);
    EnabledIsProper(spec);
    AlphabetSize(classes, sizes);
    ProperClasses(classes, sizes);
    AcceptedCount(Alphabet(spec), ClassSets(classes), spec.length);
    assert ClassSets(classes)[0] != {} && ClassSets(classes)[0] <= Alphabet(spec);
    AcceptedPositive(Alphabet(spec), ClassSets(classes), spec.length);
    PowPositive(|charset.bytes|, spec.length);
    if |sizes| < 2 {
      OneClass(sizes, |charset.bytes|);
      OneClassIsFree(|charset.bytes|, spec.length);
    }
  }

  lemma OneClass(sizes: seq<nat>, total: nat)
    requires |sizes| == 1 && Sum(sizes) == total
    ensures sizes == [total]
  {
    assert sizes[1..] == [];
  }
}

// The embedded word list of crates/blackbag-core/src/generate.rs: 512 words, in
// order, none of which begins another.
module EmbeddedWords {
  import opened Bytes
  import opened Text
  import opened Counting
  import opened Passphrase
  import opened PhraseEntropy

  // ----- the list, a row of eight words at a time -----

  const ROW_00: seq<string> := ["able", "acre", "adapt", "afraid", "agree", "album", "alley", "alone"]
  const ROW_01: seq<string> := ["alter", "among", "anger", "annual", "apart", "arbor", "arena", "army"]
  const ROW_02: seq<string> := ["artist", "atom", "audio", "author", "awake", "awning", "badge", "bamboo"]
  const ROW_03: seq<string> := ["barge", "basil", "baton", "bean", "beetle", "behind", "best", "binder"]
  const ROW_04: seq<string> := ["bitter", "blaze", "block", "blur", "boil", "book", "bottle", "boxer"]
  const ROW_05: seq<string> := ["branch", "brick", "bring", "broom", "bubble", "bugle", "bunker", "butter"]
  const ROW_06: seq<string> := ["cable", "calm", "canal", "canvas", "carbon", "carrot", "castle", "cause"]
  const ROW_07: seq<string> := ["cement", "chalk", "charm", "cheer", "chief", "chisel", "chrome", "circle"]
  const ROW_08: seq<string> := ["clamp", "clear", "clinic", "cloud", "clutch", "coffee", "color", "comfort"]
  const ROW_09: seq<string> := ["compass", "cone", "console", "copper", "costume", "counter", "coyote", "crane"]
  const ROW_10: seq<string> := ["credit", "cricket", "cross", "crunch", "cuckoo", "curl", "cushion", "dagger"]
  const ROW_11: seq<string> := ["damage", "daring", "decade", "declare", "deep", "degree", "denim", "deposit"]
  const ROW_12: seq<string> := ["design", "device", "diary", "differ", "dilute", "dispute", "dock", "domain"]
  const ROW_13: seq<string> := ["double", "draft", "draw", "drink", "drum", "dune", "dusty", "eager"]
  const ROW_14: seq<string> := ["earth", "economy", "effort", "elbow", "eleven", "emblem", "emotion", "enable"]
  const ROW_15: seq<string> := ["endorse", "engage", "enough", "entire", "equip", "essay", "evening", "exceed"]
  const ROW_16: seq<string> := ["exhale", "expert", "express", "fabric", "fade", "famous", "farm", "fatigue"]
  const ROW_17: seq<string> := ["feast", "fern", "fiber", "fierce", "finch", "fishing", "flank", "fleet"]
  const ROW_18: seq<string> := ["flint", "flour", "foam", "foil", "fond", "forest", "format", "foster"]
  const ROW_19: seq<string> := ["free", "frog", "fruit", "fume", "furnace", "gadget", "gallon", "garlic"]
  const ROW_20: seq<string> := ["gauge", "gender", "geyser", "ginger", "glad", "gleam", "glove", "goat"]
  const ROW_21: seq<string> := ["goose", "grab", "grand", "grass", "green", "grin", "ground", "guard"]
  const ROW_22: seq<string> := ["guitar", "gutter", "hammer", "harbor", "haste", "hazel", "heart", "height"]
  const ROW_23: seq<string> := ["help", "hidden", "hinge", "hobby", "holiday", "honey", "hook", "horse"]
  const ROW_24: seq<string> := ["house", "humid", "hurdle", "hustle", "icon", "igloo", "impulse", "income"]
  const ROW_25: seq<string> := ["infant", "injure", "input", "insight", "intend", "iris", "issue", "jaguar"]
  const ROW_26: seq<string> := ["jelly", "jigsaw", "joke", "juice", "june", "jury", "keep", "kettle"]
  const ROW_27: seq<string> := ["king", "kitten", "knight", "knot", "labor", "lamb", "lantern", "large"]
  const ROW_28: seq<string> := ["later", "layer", "league", "leather", "legacy", "lemur", "leopard", "library"]
  const ROW_29: seq<string> := ["light", "lime", "link", "listen", "lizard", "locate", "loft", "loop"]
  const ROW_30: seq<string> := ["lounge", "luck", "lung", "macro", "mail", "manage", "manual", "margin"]
  const ROW_31: seq<string> := ["martial", "master", "meadow", "meat", "meet", "member", "mentor", "merit"]
  const ROW_32: seq<string> := ["metal", "midday", "milk", "mingle", "mirror", "mobile", "modest", "monitor"]
  const ROW_33: seq<string> := ["morning", "motion", "mouse", "muffin", "muscle", "myself", "nail", "nation"]
  const ROW_34: seq<string> := ["navy", "nectar", "nerve", "never", "nickel", "noble", "noon", "notable"]
  const ROW_35: seq<string> := ["noun", "nugget", "obey", "occupy", "offer", "omega", "only", "opera"]
  const ROW_36: seq<string> := ["orange", "organ", "ostrich", "outdoor", "output", "overall", "pace", "palace"]
  const ROW_37: seq<string> := ["panic", "parcel", "parrot", "pasta", "path", "pattern", "peak", "pebble"]
  const ROW_38: seq<string> := ["pencil", "perfect", "permit", "phase", "picnic", "pilot", "pioneer", "piston"]
  const ROW_39: seq<string> := ["pizza", "plaster", "pledge", "pocket", "polar", "pony", "poppy", "possum"]
  const ROW_40: seq<string> := ["pottery", "praise", "prefer", "pretty", "primal", "prize", "produce", "promise"]
  const ROW_41: seq<string> := ["proud", "pudding", "pumpkin", "pure", "puzzle", "quality", "query", "quiet"]
  const ROW_42: seq<string> := ["quiver", "race", "raft", "rally", "rapid", "ratio", "reach", "reason"]
  const ROW_43: seq<string> := ["receipt", "recover", "reef", "regard", "relax", "remain", "remove", "repair"]
  const ROW_44: seq<string> := ["report", "reside", "restore", "retreat", "review", "rhubarb", "riddle", "right"]
  const ROW_45: seq<string> := ["rise", "river", "robot", "role", "room", "rose", "round", "rudder"]
  const ROW_46: seq<string> := ["runner", "rustic", "safety", "salmon", "sample", "sausage", "scan", "scenic"]
  const ROW_47: seq<string> := ["school", "scope", "screen", "seagull", "second", "seed", "seller", "sense"]
  const ROW_48: seq<string> := ["series", "settle", "shallow", "sharp", "sheet", "sherbet", "ship", "shop"]
  const ROW_49: seq<string> := ["shower", "sibling", "sight", "silver", "sister", "skill", "sled", "slide"]
  const ROW_50: seq<string> := ["slope", "smart", "snack", "snow", "socket", "soil", "song", "sort"]
  const ROW_51: seq<string> := ["source", "speak", "spell", "spike", "split", "sport", "spring", "square"]
  const ROW_52: seq<string> := ["stack", "stamp", "state", "steel", "stew", "stitch", "stop", "strain"]
  const ROW_53: seq<string> := ["stream", "strike", "studio", "suburb", "suit", "sunrise", "supply", "surname"]
  const ROW_54: seq<string> := ["swamp", "sweep", "swing", "syrup", "tackle", "talent", "tank", "teach"]
  const ROW_55: seq<string> := ["tease", "tempo", "tenor", "terrain", "theme", "thigh", "third", "thrill"]
  const ROW_56: seq<string> := ["thumb", "tide", "timber", "title", "tofu", "tomato", "tool", "torch"]
  const ROW_57: seq<string> := ["tour", "track", "train", "trap", "tree", "tribe", "trip", "tropic"]
  const ROW_58: seq<string> := ["true", "truth", "tuna", "turf", "tutor", "twig", "unable", "unfold"]
  const ROW_59: seq<string> := ["unique", "unpack", "upbeat", "upland", "upward", "usher", "vacant", "valley"]
  const ROW_60: seq<string> := ["vanish", "vase", "velvet", "verdict", "vest", "video", "vine", "violin"]
  const ROW_61: seq<string> := ["visit", "vocal", "vowel", "wagon", "walk", "want", "wash", "wave"]
  const ROW_62: seq<string> := ["weight", "whale", "whisk", "widen", "wind", "wipe", "wish", "wood"]
  const ROW_63: seq<string> := ["world", "wreath", "xenon", "yawn", "yield", "young", "zenith", "zipper"]

  const PAGE_0: seq<seq<string>> := [ROW_00, ROW_01, ROW_02, ROW_03, ROW_04, ROW_05, ROW_06, ROW_07]
  const PAGE_1: seq<seq<string>> := [ROW_08, ROW_09, ROW_10, ROW_11, ROW_12, ROW_13, ROW_14, ROW_15]
  const PAGE_2: seq<seq<string>> := [ROW_16, ROW_17, ROW_18, ROW_19, ROW_20, ROW_21, ROW_22, ROW_23]
  const PAGE_3: seq<seq<string>> := [ROW_24, ROW_25, ROW_26, ROW_27, ROW_28, ROW_29, ROW_30, ROW_31]
  const PAGE_4: seq<seq<string>> := [ROW_32, ROW_33, ROW_34, ROW_35, ROW_36, ROW_37, ROW_38, ROW_39]
  const PAGE_5: seq<seq<string>> := [ROW_40, ROW_41, ROW_42, ROW_43, ROW_44, ROW_45, ROW_46, ROW_47]
  const PAGE_6: seq<seq<string>> := [ROW_48, ROW_49, ROW_50, ROW_51, ROW_52, ROW_53, ROW_54, ROW_55]
  const PAGE_7: seq<seq<string>> := [ROW_56, ROW_57, ROW_58, ROW_59, ROW_60, ROW_61, ROW_62, ROW_63]

  function Page(p: nat): (page: seq<seq<string>>)
    requires p < 8
    ensures |page| == 8
  {
    match p
    case 0 => PAGE_0
    case 1 => PAGE_1
    case 2 => PAGE_2
    case 3 => PAGE_3
    case 4 => PAGE_4
    case 5 => PAGE_5
    case 6 => PAGE_6
    case _ => PAGE_7
  }

  function Row(r: nat): seq<string>
    requires r < 64
  {
    Page(r / 8)[r % 8]
  }

  // ----- words in order -----

  predicate Word(w: string) {
    4 <= |w| <= 7 && forall i :: 0 <= i < |w| ==> 'a' <= w[i] <= 'z'
  }

  // At `k` or later, `v` first differs from `w` by an earlier letter.
  predicate Splits(v: string, w: string, k: nat)
    decreases 7 - k
  {
    k < |v| && k < |w| && k < 7 && (v[k] < w[k] || (v[k] == w[k] && Splits(v, w, k + 1)))
  }

  predicate Leads(v: string, w: string) {
    Word(v) && Splits(v, w, 0)
  }

  predicate InOrder(ws: seq<string>, next: string) {
    && |ws| == 8
    && Leads(ws[0], ws[1]) && Leads(ws[1], ws[2]) && Leads(ws[2], ws[3]) && Leads(ws[3], ws[4])
    && Leads(ws[4], ws[5]) && Leads(ws[5], ws[6]) && Leads(ws[6], ws[7]) && Leads(ws[7], next)
  }

  // A text that every word leads.
  const PAST_THE_END: string := "{"

  lemma Row00() ensures InOrder(ROW_00, ROW_01[0]) {}
  lemma Row01() ensures InOrder(ROW_01, ROW_02[0]) {}
  lemma Row02() ensures InOrder(ROW_02, ROW_03[0]) {}
  lemma Row03() ensures InOrder(ROW_03, ROW_04[0]) {}
  lemma Row04() ensures InOrder(ROW_04, ROW_05[0]) {}
  lemma Row05() ensures InOrder(ROW_05, ROW_06[0]) {}
  lemma Row06() ensures InOrder(ROW_06, ROW_07[0]) {}
  lemma Row07() ensures InOrder(ROW_07, ROW_08[0]) {}
  lemma Row08() ensures InOrder(ROW_08, ROW_09[0]) {}
  lemma Row09() ensures InOrder(ROW_09, ROW_10[0]) {}
  lemma Row10() ensures InOrder(ROW_10, ROW_11[0]) {}
  lemma Row11() ensures InOrder(ROW_11, ROW_12[0]) {}
  lemma Row12() ensures InOrder(ROW_12, ROW_13[0]) {}
  lemma Row13() ensures InOrder(ROW_13, ROW_14[0]) {}
  lemma Row14() ensures InOrder(ROW_14, ROW_15[0]) {}
  lemma Row15() ensures InOrder(ROW_15, ROW_16[0]) {}
  lemma Row16() ensures InOrder(ROW_16, ROW_17[0]) {}
  lemma Row17() ensures InOrder(ROW_17, ROW_18[0]) {}
  lemma Row18() ensures InOrder(ROW_18, ROW_19[0]) {}
  lemma Row19() ensures InOrder(ROW_19, ROW_20[0]) {}
  lemma Row20() ensures InOrder(ROW_20, ROW_21[0]) {}
  lemma Row21() ensures InOrder(ROW_21, ROW_22[0]) {}
  lemma Row22() ensures InOrder(ROW_22, ROW_23[0]) {}
  lemma Row23() ensures InOrder(ROW_23, ROW_24[0]) {}
  lemma Row24() ensures InOrder(ROW_24, ROW_25[0]) {}
  lemma Row25() ensures InOrder(ROW_25, ROW_26[0]) {}
  lemma Row26() ensures InOrder(ROW_26, ROW_27[0]) {}
  lemma Row27() ensures InOrder(ROW_27, ROW_28[0]) {}
  lemma Row28() ensures InOrder(ROW_28, ROW_29[0]) {}
  lemma Row29() ensures InOrder(ROW_29, ROW_30[0]) {}
  lemma Row30() ensures InOrder(ROW_30, ROW_31[0]) {}
  lemma Row31() ensures InOrder(ROW_31, ROW_32[0]) {}
  lemma Row32() ensures InOrder(ROW_32, ROW_33[0]) {}
  lemma Row33() ensures InOrder(ROW_33, ROW_34[0]) {}
  lemma Row34() ensures InOrder(ROW_34, ROW_35[0]) {}
  lemma Row35() ensures InOrder(ROW_35, ROW_36[0]) {}
  lemma Row36() ensures InOrder(ROW_36, ROW_37[0]) {}
  lemma Row37() ensures InOrder(ROW_37, ROW_38[0]) {}
  lemma Row38() ensures InOrder(ROW_38, ROW_39[0]) {}
  lemma Row39() ensures InOrder(ROW_39, ROW_40[0]) {}
  lemma Row40() ensures InOrder(ROW_40, ROW_41[0]) {}
  lemma Row41() ensures InOrder(ROW_41, ROW_42[0]) {}
  lemma Row42() ensures InOrder(ROW_42, ROW_43[0]) {}
  lemma Row43() ensures InOrder(ROW_43, ROW_44[0]) {}
  lemma Row44() ensures InOrder(ROW_44, ROW_45[0]) {}
  lemma Row45() ensures InOrder(ROW_45, ROW_46[0]) {}
  lemma Row46() ensures InOrder(ROW_46, ROW_47[0]) {}
  lemma Row47() ensures InOrder(ROW_47, ROW_48[0]) {}
  lemma Row48() ensures InOrder(ROW_48, ROW_49[0]) {}
  lemma Row49() ensures InOrder(ROW_49, ROW_50[0]) {}
  lemma Row50() ensures InOrder(ROW_50, ROW_51[0]) {}
  lemma Row51() ensures InOrder(ROW_51, ROW_52[0]) {}
  lemma Row52() ensures InOrder(ROW_52, ROW_53[0]) {}
  lemma Row53() ensures InOrder(ROW_53, ROW_54[0]) {}
  lemma Row54() ensures InOrder(ROW_54, ROW_55[0]) {}
  lemma Row55() ensures InOrder(ROW_55, ROW_56[0]) {}
  lemma Row56() ensures InOrder(ROW_56, ROW_57[0]) {}
  lemma Row57() ensures InOrder(ROW_57, ROW_58[0]) {}
  lemma Row58() ensures InOrder(ROW_58, ROW_59[0]) {}
  lemma Row59() ensures InOrder(ROW_59, ROW_60[0]) {}
  lemma Row60() ensures InOrder(ROW_60, ROW_61[0]) {}
  lemma Row61() ensures InOrder(ROW_61, ROW_62[0]) {}
  lemma Row62() ensures InOrder(ROW_62, ROW_63[0]) {}
  lemma Row63() ensures InOrder(ROW_63, PAST_THE_END) {}

  // ----- the whole list -----

  // The first word of the row after `k` on a page, given that of the next page.
  function Following(page: seq<seq<string>>, k: nat, next: string): string
    requires k < 8 == |page| && (k < 7 ==> page[k + 1] != [])
  {
    if k == 7 then next else page[k + 1][0]
  }

  ghost predicate PageInOrder(page: seq<seq<string>>, next: string) {
    && |page| == 8
    && (forall k :: 0 <= k < 8 ==> |page[k]| == 8)
    && (forall k :: 0 <= k < 8 ==> InOrder(page[k], Following(page, k, next)))
  }

  lemma Page0()
    ensures PageInOrder(PAGE_0, ROW_08[0])
  {
    hide InOrder;
    Row00(); Row01(); Row02(); Row03(); Row04(); Row05(); Row06(); Row07();
    EightRows(PAGE_0, ROW_08[0]);
  }

  lemma Page1()
    ensures PageInOrder(PAGE_1, ROW_16[0])
  {
    hide InOrder;
    Row08(); Row09(); Row10(); Row11(); Row12(); Row13(); Row14(); Row15();
    EightRows(PAGE_1, ROW_16[0]);
  }

  lemma Page2()
    ensures PageInOrder(PAGE_2, ROW_24[0])
  {
    hide InOrder;
    Row16(); Row17(); Row18(); Row19(); Row20(); Row21(); Row22(); Row23();
    EightRows(PAGE_2, ROW_24[0]);
  }

  lemma Page3()
    ensures PageInOrder(PAGE_3, ROW_32[0])
  {
    hide InOrder;
    Row24(); Row25(); Row26(); Row27(); Row28(); Row29(); Row30(); Row31();
    EightRows(PAGE_3, ROW_32[0]);
  }

  lemma Page4()
    ensures PageInOrder(PAGE_4, ROW_40[0])
  {
    hide InOrder;
    Row32(); Row33(); Row34(); Row35(); Row36(); Row37(); Row38(); Row39();
    EightRows(PAGE_4, ROW_40[0]);
  }

  lemma Page5()
    ensures PageInOrder(PAGE_5, ROW_48[0])
  {
    hide InOrder;
    Row40(); Row41(); Row42(); Row43(); Row44(); Row45(); Row46(); Row47();
    EightRows(PAGE_5, ROW_48[0]);
  }

  lemma Page6()
    ensures PageInOrder(PAGE_6, ROW_56[0])
  {
    hide InOrder;
    Row48(); Row49(); Row50(); Row51(); Row52(); Row53(); Row54(); Row55();
    EightRows(PAGE_6, ROW_56[0]);
  }

  lemma Page7()
    ensures PageInOrder(PAGE_7, PAST_THE_END)
  {
    hide InOrder;
    Row56(); Row57(); Row58(); Row59(); Row60(); Row61(); Row62(); Row63();
    EightRows(PAGE_7, PAST_THE_END);
  }

  lemma EightRows(page: seq<seq<string>>, next: string)
    requires |page| == 8 && forall k :: 0 <= k < 8 ==> |page[k]| == 8
    requires InOrder(page[0], page[1][0]) && InOrder(page[1], page[2][0]) && InOrder(page[2], page[3][0])
    requires InOrder(page[3], page[4][0]) && InOrder(page[4], page[5][0]) && InOrder(page[5], page[6][0])
    requires InOrder(page[6], page[7][0]) && InOrder(page[7], next)
    ensures PageInOrder(page, next)
  {
    hide InOrder;
    forall k | 0 <= k < 8 ensures InOrder(page[k], Following(page, k, next)) {
    }
  }

  function NextPage(p: nat): string
    requires p < 8
  {
    if p < 7 && Page(p + 1)[0] != [] then Page(p + 1)[0][0] else PAST_THE_END
  }

  lemma PagesInOrder(p: nat)
    requires p < 8
    ensures PageInOrder(Page(p), NextPage(p))
  {
    hide PageInOrder;
    match p
    case 0 => Page0();
    case 1 => Page1();
    case 2 => Page2();
    case 3 => Page3();
    case 4 => Page4();
    case 5 => Page5();
    case 6 => Page6();
    case _ => Page7();
  }

  lemma RowIsLong(r: nat)
    requires r < 64
    ensures |Row(r)| == 8
  {
    hide Page;
    hide InOrder;
    PagesInOrder(r / 8);
  }

  function WordAt(n: nat): string
    requires n < LIST_LENGTH
  {
    RowIsLong(n / 8);
    Row(n / 8)[n % 8]
  }

  function Words(): (ws: seq<string>)
    ensures |ws| == LIST_LENGTH && forall n :: 0 <= n < LIST_LENGTH ==> ws[n] == WordAt(n)
  {
    seq(LIST_LENGTH, n requires 0 <= n < LIST_LENGTH => WordAt(n))
  }

  lemma InOrderAt(ws: seq<string>, next: string, k: nat)
    requires InOrder(ws, next) && k < 8
    ensures Leads(ws[k], if k == 7 then next else ws[k + 1])
  {
    hide Leads;
  }

  // Counting by eights.
  lemma NextOf(n: nat)
    ensures (n + 1) / 8 == (if n % 8 == 7 then n / 8 + 1 else n / 8)
    ensures (n + 1) % 8 == (if n % 8 == 7 then 0 else n % 8 + 1)
    ensures (8 * n) / 8 == n && (8 * n) % 8 == 0
  {
  }

  lemma NextRow(r: nat)
    requires r < 64
    ensures |Row(r)| == 8 && InOrder(Row(r), if r < 63 then WordAt(8 * (r + 1)) else PAST_THE_END)
  {
    hide Page;
    hide InOrder;
    PagesInOrder(r / 8);
    NextOf(r);
    if r < 63 {
      RowIsLong(r + 1);
      NextOf(r + 1);
    }
  }

  lemma Neighbours(n: nat)
    requires n < LIST_LENGTH
    ensures Leads(WordAt(n), if n == LIST_LENGTH - 1 then PAST_THE_END else WordAt(n + 1))
  {
    hide Leads;
    hide InOrder;
    hide Row;
    var r, k := n / 8, n % 8;
    NextRow(r);
    InOrderAt(Row(r), if r < 63 then WordAt(8 * (r + 1)) else PAST_THE_END, k);
    NextOf(n);
    assert k == 7 ==> n + 1 == 8 * (r + 1);
  }

  lemma {:induction false} SplitsTransitive(u: string, v: string, w: string, k: nat)
    requires Splits(u, v, k) && Splits(v, w, k)
    ensures Splits(u, w, k)
    decreases 7 - k
  {
    if u[k] == v[k] == w[k] {
      SplitsTransitive(u, v, w, k + 1);
    }
  }

  lemma {:induction false} SplitsInside(v: string, w: string, k: nat) returns (m: nat)
    requires Splits(v, w, k)
    ensures m < |v| && m < |w| && v[m] != w[m]
    decreases 7 - k
  {
    m := k;
    if v[k] == w[k] {
      m := SplitsInside(v, w, k + 1);
    }
  }

  // Neighbours in order put the whole list in order.
  lemma {:induction false} Later(i: nat, j: nat)
    requires i < j < LIST_LENGTH
    ensures Splits(WordAt(i), WordAt(j), 0)
    decreases j
  {
    hide WordAt;
    hide Splits;
    Neighbours(j - 1);
    if i < j - 1 {
      Later(i, j - 1);
      SplitsTransitive(WordAt(i), WordAt(j - 1), WordAt(j), 0);
    }
  }

  // ----- as the generator reads it -----

  function AsBytes(): (ws: seq<seq<byte>>)
    ensures |ws| == LIST_LENGTH && forall n :: 0 <= n < LIST_LENGTH ==> ws[n] == Utf8(Words()[n])
  {
    seq(LIST_LENGTH, n requires 0 <= n < LIST_LENGTH => Utf8(Words()[n]))
  }

  lemma WordAsBytes(n: nat)
    requires n < LIST_LENGTH
    ensures var w, b := Words()[n], AsBytes()[n];
            Lowercase(b) && 4 <= |b| == |w| <= 7 && forall i :: 0 <= i < |w| ==> b[i] == w[i] as int
  {
    hide Words;
    hide WordAt;
    hide Utf8;
    Neighbours(n);
    Utf8OfAscii(Words()[n]);
  }

  // The embedded list is what it is documented to be, and prefix free.
  lemma ListIsPrefixFree()
    ensures WordList(AsBytes()) && PrefixFree(AsBytes())
  {
    hide Words;
    hide AsBytes;
    hide Splits;
    forall i, j | 0 <= i < LIST_LENGTH && 0 <= j < LIST_LENGTH && i != j
      ensures AsBytes()[i] != AsBytes()[j] && !(AsBytes()[i] <= AsBytes()[j])
    {
      WordsPart(i, j);
    }
    forall i | 0 <= i < LIST_LENGTH ensures Lowercase(AsBytes()[i]) {
      WordAsBytes(i);
    }
  }

  lemma WordsPart(i: nat, j: nat)
    requires i < LIST_LENGTH && j < LIST_LENGTH && i != j
    ensures !(AsBytes()[i] <= AsBytes()[j])
  {
    hide Words;
    hide WordAt;
    hide AsBytes;
    WordAsBytes(i);
    WordAsBytes(j);
    var a, b := if i < j then i else j, if i < j then j else i;
    Later(a, b);
    var m := SplitsInside(WordAt(a), WordAt(b), 0);
    assert AsBytes()[i][m] != AsBytes()[j][m];
  }

  // So with this list every separator leaves nine bits a word, exactly, and
  // every phrase as likely as every other.
  lemma EveryPhraseIsExact(spec: PassphraseSpec, s: seq<byte>, t: seq<byte>, size: nat)
    ensures WordList(AsBytes())
    ensures |AllPhrases(spec, AsBytes())| == Pow(2, 9 * spec.words)
    ensures s in AllPhrases(spec, AsBytes()) && t in AllPhrases(spec, AsBytes()) ==>
              |TapesMinting(spec, AsBytes(), s, size)| == |TapesMinting(spec, AsBytes(), t, size)|
  {
    hide AsBytes;
    hide AllPhrases;
    hide TapesMinting;
    hide Pow;
    ListIsPrefixFree();
    PhraseEntropyIsExact(spec, AsBytes());
    if s in AllPhrases(spec, AsBytes()) && t in AllPhrases(spec, AsBytes()) {
      PassphraseIsUniform(spec, AsBytes(), s, t, size);
    }
  }
}

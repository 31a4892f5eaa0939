/**
 The English stemmer as the generated code runs it: over a buffer with a cursor, limits, slice marks, two region
 marks and one flag.  Each routine is proved to turn the text into what its rule says, with every slice it takes
 well placed; `EnglishStem` therefore computes `Stem`.
 */
module EnglishStemmer {
  import opened SnowballRuntime
  import opened EnglishTables
  import opened EnglishRules

  // ---------------------------------------------------------------- letter classes and guards

  const G_V := Grouping([17, 65, 16, 1], 97, 121)
  const G_V_WXY := Grouping([1, 17, 65, 208, 1], 89, 121)
  const G_VALID_LI := Grouping([55, 141, 2], 99, 116)

  lemma VowelGroup(ch: char)
    ensures InGroup(G_V, ch) <==> IsVowel(ch)
  {
  }

  lemma VowelOrWXYGroup(ch: char)
    ensures InGroup(G_V_WXY, ch) <==> IsVowelOrWXY(ch)
  {
  }

  lemma ValidLiGroup(ch: char)
    ensures InGroup(G_VALID_LI, ch) <==> ch in "cdeghkmnrt"
  {
  }

  const POW2: seq<nat> := [
    1, 2, 4, 8, 16, 32, 64, 128, 256, 512, 1024, 2048, 4096, 8192, 16384, 32768, 65536, 131072, 262144, 524288,
    1048576, 2097152, 4194304, 8388608, 16777216, 33554432, 67108864, 134217728, 268435456, 536870912, 1073741824,
    2147483648
  ]

  /** The guard before most look-ups: the letter's bit, counted from 96, is set in the mask. */
  predicate InMask(mask: nat, ch: char) {
    ch as int / 32 == 3 && (mask / POW2[ch as int % 32]) % 2 == 1
  }

  predicate EndsIn(letters: string, s: string) {
    |s| > 0 && s[|s| - 1] in letters
  }

  lemma Mask1b(w: string)
    ensures EndsIn("dgy", w) ==> InMask(33554576, w[|w| - 1])
  {
  }

  lemma Mask2(w: string)
    ensures EndsIn("ilmnrs", w) ==> InMask(815616, w[|w| - 1])
  {
  }

  lemma Mask3(w: string)
    ensures EndsIn("eils", w) ==> InMask(528928, w[|w| - 1])
  {
  }

  lemma Mask4(w: string)
    ensures EndsIn("ceilmnrst", w) ==> InMask(1864232, w[|w| - 1])
  {
  }

  lemma MaskRepair(ch: char)
    ensures ch in "bdfglmnprtz" ==> InMask(68514004, ch)
  {
    hide InMask;
    MaskRepairFirst(ch);
    MaskRepairLast(ch);
  }

  lemma MaskRepairFirst(ch: char)
    ensures ch in "bdfgl" ==> InMask(68514004, ch)
  {
  }

  lemma MaskRepairLast(ch: char)
    ensures ch in "mnprtz" ==> InMask(68514004, ch)
  {
  }

  lemma MaskRegion(ch: char)
    ensures ch in "nru" ==> InMask(2375680, ch)
  {
  }

  lemma MaskException(ch: char)
    ensures ch in "adilnrswy" ==> InMask(42750482, ch)
  {
  }

  // ---------------------------------------------------------------- what each switch does

  /** Step 1a, possessives: its one case. */
  function ActionPossessive(result: int): Action {
    Put("")
  }

  /** Step 1a, plurals. */
  function Action1a(result: int): Action {
    match result
    case 1 => Put("ss")
    case 2 => PutByLength("i", "ie")
    case 3 => DropAfterVowel
    case _ => Leave
  }

  /** Step 1b. */
  function Action1b(result: int): Action {
    match result
    case 1 => PutInR1("ee")
    case 2 => DropAndRepair
    case _ => Leave
  }

  /** Step 2. */
  function Action2(result: int): Action {
    match result
    case 1 => Put("tion")
    case 2 => Put("ence")
    case 3 => Put("ance")
    case 4 => Put("able")
    case 5 => Put("ent")
    case 6 => Put("ize")
    case 7 => Put("ate")
    case 8 => Put("al")
    case 9 => Put("ful")
    case 10 => Put("ous")
    case 11 => Put("ive")
    case 12 => Put("ble")
    case 13 => PutAfter("l", "og")
    case 14 => Put("ful")
    case 15 => Put("less")
    case 16 => PutAfter("cdeghkmnrt", "")
    case _ => Leave
  }

  /** Step 3. */
  function Action3(result: int): Action {
    match result
    case 1 => Put("tion")
    case 2 => Put("ate")
    case 3 => Put("al")
    case 4 => Put("ic")
    case 5 => Put("")
    case 6 => PutInR2("")
    case _ => Leave
  }

  /** Step 4. */
  function Action4(result: int): Action {
    match result
    case 1 => Put("")
    case 2 => PutAfter("st", "")
    case _ => Leave
  }

  /** Exceptional words. */
  function ActionX(result: int): Action {
    match result
    case 1 => Put("ski")
    case 2 => Put("sky")
    case 3 => Put("die")
    case 4 => Put("lie")
    case 5 => Put("tie")
    case 6 => Put("idl")
    case 7 => Put("gentl")
    case 8 => Put("ugli")
    case 9 => Put("earli")
    case 10 => Put("onli")
    case 11 => Put("singl")
    case _ => Leave
  }

  /** Entry `m` of a table and its case of the switch do what rule `m` says; its suffix passes the guard. */
  predicate Entry(v: seq<Among>, rules: seq<Rule>, letters: string, n: nat, action: int -> Action, m: int)
    requires 0 <= m < |v| == |rules|
  {
    && v[m].s == rules[m].suffix && v[m].result != 0 && action(v[m].result) == rules[m].action
    && n <= |v[m].s| && EndsIn(letters, v[m].s)
  }

  /** A table with its switch and its guard: suffixes of `n` letters or more that end in one of `letters`. */
  ghost predicate Implements(v: seq<Among>, rules: seq<Rule>, letters: string, n: nat, action: int -> Action) {
    && WellFormedTable(Backward, v) && |v| == |rules|
    && forall m :: 0 <= m < |v| ==> Entry(v, rules, letters, n, action, m)
  }

  lemma PossessivesRules(m: int)
    requires 0 <= m < 3
    ensures Entry(A1, POSSESSIVES, "'s", 1, ActionPossessive, m)
  {
  }

  lemma PluralsRules(m: int)
    requires 0 <= m < 6
    ensures Entry(A2, PLURALS, "ds", 1, Action1a, m)
  {
  }

  lemma PastRules(m: int)
    requires 0 <= m < 6
    ensures Entry(A4, PAST, "dgy", 2, Action1b, m)
  {
  }

  lemma DerivedRulesFrom12(m: int)
    requires 12 <= m < 18
    ensures A5[m].s == DERIVED[m].suffix && A5[m].result != 0 && Action2(A5[m].result) == DERIVED[m].action
  {
    match m { case 12 => case 13 => case 14 => case 15 => case 16 => case 17 => }
  }

  lemma DerivedRulesFrom18(m: int)
    requires 18 <= m < 24
    ensures A5[m].s == DERIVED[m].suffix && A5[m].result != 0 && Action2(A5[m].result) == DERIVED[m].action
  {
    match m { case 18 => case 19 => case 20 => case 21 => case 22 => case 23 => }
  }

  lemma DerivedRules(m: int)
    requires 0 <= m < 24
    ensures Entry(A5, DERIVED, "ilmnrs", 2, Action2, m)
  {
    if 12 <= m < 18 {
      DerivedRulesFrom12(m);
    } else if 18 <= m {
      DerivedRulesFrom18(m);
    }
  }

  lemma LengthenedRules(m: int)
    requires 0 <= m < 9
    ensures Entry(A6, LENGTHENED, "eils", 3, Action3, m)
  {
  }

  lemma ResidualRules(m: int)
    requires 0 <= m < 18
    ensures Entry(A7, RESIDUAL, "ceilmnrst", 2, Action4, m)
  {
    match m {
      case 0 => case 1 => case 2 => case 3 => case 4 => case 5 => case 6 => case 7 => case 8 =>
      case 9 => case 10 => case 11 => case 12 => case 13 => case 14 => case 15 => case 16 => case 17 =>
    }
  }

  // ---------------------------------------------------------------- look-ups and rules

  predicate SameSuffixes(v: seq<Among>, rules: seq<Rule>) {
    |v| == |rules| && forall k :: 0 <= k < |v| ==> v[k].s == rules[k].suffix
  }

  /** What a backward look-up of the whole word returns. */
  ghost predicate LookedUp(v: seq<Among>, w: string, m: int) {
    (m == -1 && NoneMatches(Backward, v, w)) || IsLongestMatch(Backward, v, w, m)
  }

  /** A look-up finds the entry of the best rule. */
  lemma LookupIsBestRule(v: seq<Among>, rules: seq<Rule>, w: string, m: int)
    requires WellFormedTable(Backward, v) && SameSuffixes(v, rules) && LookedUp(v, w, m)
    ensures m == BestRule(rules, w)
  {
    var n := BestRule(rules, w);
    assert forall k :: 0 <= k < |v| ==> (Matches(Backward, v[k].s, w) <==> IsSuffix(rules[k].suffix, w));
    if m != -1 {
      assert IsBestRule(rules, w, m);
      assert IsLongestMatch(Backward, v, w, n);
      LongestMatchUnique(Backward, v, w, m, n);
    }
  }

  /** What a rule step comes to after a look-up that found entry `m`, or was skipped by its guard. */
  lemma StepOutcome(v: seq<Among>, rules: seq<Rule>, letters: string, n: nat, action: int -> Action,
                    w: string, m: int, region: int, p1: int, p2: int)
    requires Implements(v, rules, letters, n, action)
    requires (m == -1 && (|w| < n || !EndsIn(letters, w))) || LookedUp(v, w, m)
    ensures m == -1 ==> RuleStep(rules, region, w, p1, p2) == w
    ensures m != -1 ==> 0 <= m < |v| && |v[m].s| <= |w| && v[m].result != 0
    ensures m != -1 ==> var k := |w| - |v[m].s|;
      RuleStep(rules, region, w, p1, p2)
        == if k < region then w else Apply(action(v[m].result), w[..k], w[k..], p1, p2)
  {
    hide WellFormedTable, Apply;
    forall k | 0 <= k < |v|
      ensures v[k].s == rules[k].suffix && n <= |v[k].s| && EndsIn(letters, v[k].s)
    {
      assert Entry(v, rules, letters, n, action, k);
    }
    LookupIsBestRule(v, rules, w, m);
    assert m != -1 ==> Entry(v, rules, letters, n, action, m);
  }

  lemma PossessivesImplemented()
    ensures Implements(A1, POSSESSIVES, "'s", 1, ActionPossessive)
  {
    assert |A1| == |POSSESSIVES| == 3;
    hide A1, POSSESSIVES, EndsIn, Entry, WellFormedTable;
    A1WellFormed();
    forall m | 0 <= m < 3 ensures Entry(A1, POSSESSIVES, "'s", 1, ActionPossessive, m) {
      PossessivesRules(m);
    }
  }

  lemma PluralsImplemented()
    ensures Implements(A2, PLURALS, "ds", 1, Action1a)
  {
    assert |A2| == |PLURALS| == 6;
    hide A2, PLURALS, EndsIn, Entry, WellFormedTable;
    A2WellFormed();
    forall m | 0 <= m < 6 ensures Entry(A2, PLURALS, "ds", 1, Action1a, m) {
      PluralsRules(m);
    }
  }

  lemma PastImplemented()
    ensures Implements(A4, PAST, "dgy", 2, Action1b)
  {
    assert |A4| == |PAST| == 6;
    hide A4, PAST, EndsIn, Entry, WellFormedTable;
    A4WellFormed();
    forall m | 0 <= m < 6 ensures Entry(A4, PAST, "dgy", 2, Action1b, m) {
      PastRules(m);
    }
  }

  lemma DerivedImplemented()
    ensures Implements(A5, DERIVED, "ilmnrs", 2, Action2)
  {
    assert |A5| == |DERIVED| == 24;
    hide A5, DERIVED, EndsIn, Entry, WellFormedTable;
    A5WellFormed();
    forall m | 0 <= m < 24 ensures Entry(A5, DERIVED, "ilmnrs", 2, Action2, m) {
      DerivedRules(m);
    }
  }

  lemma LengthenedImplemented()
    ensures Implements(A6, LENGTHENED, "eils", 3, Action3)
  {
    assert |A6| == |LENGTHENED| == 9;
    hide A6, LENGTHENED, EndsIn, Entry, WellFormedTable;
    A6WellFormed();
    forall m | 0 <= m < 9 ensures Entry(A6, LENGTHENED, "eils", 3, Action3, m) {
      LengthenedRules(m);
    }
  }

  lemma ResidualImplemented()
    ensures Implements(A7, RESIDUAL, "ceilmnrst", 2, Action4)
  {
    assert |A7| == |RESIDUAL| == 18;
    hide A7, RESIDUAL, EndsIn, Entry, WellFormedTable;
    A7WellFormed();
    forall m | 0 <= m < 18 ensures Entry(A7, RESIDUAL, "ceilmnrst", 2, Action4, m) {
      ResidualRules(m);
    }
  }

  // ---------------------------------------------------------------- running a step

  /** The environment during the backward steps; the cursor may be anywhere. */
  ghost predicate InPlace(z: SnEnv)
    reads z
  {
    z.Valid() && z.lb == 0 && z.l == z.size
  }

  /** `slice_from_s` for a slice that ends the word; it never fails. */
  method ReplaceEnd(z: SnEnv, s: string)
    requires InPlace(z) && 0 <= z.bra <= z.ket == z.l
    modifies z`p, z`size, z`l, z`c, z.p
    ensures InPlace(z) && (z.p == old(z.p) || fresh(z.p))
    ensures z.Text() == old(z.Text())[..z.bra] + s
    ensures z.c == MovedCursor(old(z.c), z.bra, z.ket, |s|)
  {
    var err := z.SliceFromS(s);
    assert err == 0;
  }

  /** A backward look-up from the end of the word. */
  method LookUpEnd(z: SnEnv, v: seq<Among>) returns (among: int, ghost m: int)
    requires InPlace(z) && z.c == z.l && WellFormedTable(Backward, v)
    modifies z`c
    ensures InPlace(z) && LookedUp(v, z.Text(), m)
    ensures m == -1 ==> among == 0 && z.c == z.l
    ensures m != -1 ==> 0 <= m < |v| && among == v[m].result && z.c == z.l - |v[m].s|
    ensures z.Text() == z.Text()[..z.c] + z.Text()[z.c..]
  {
    assert z.Ahead(Backward) == z.Text();
    among, m := z.FindAmong(Backward, v);
  }

  /** Whatever the suffix and the regions, the action puts `s` after the stem, or keeps the suffix. */
  ghost predicate Settles(a: Action, stem: string, proceed: bool, s: string) {
    forall suffix, p1, p2 {:trigger Apply(a, stem, suffix, p1, p2)} ::
      Apply(a, stem, suffix, p1, p2) == stem + if proceed then s else suffix
  }

  lemma PutAfterSettles(before: string, s: string, stem: string, proceed: bool)
    requires proceed <==> |stem| > 0 && stem[|stem| - 1] in before
    ensures Settles(PutAfter(before, s), stem, proceed, s)
  {
  }

  lemma PutSettles(s: string, stem: string, proceed: bool)
    ensures Settles(if proceed then Put(s) else Leave, stem, proceed, s)
  {
  }

  /** The look-up after its guard, which skips it when it could only fail. */
  method GuardedLookUp(z: SnEnv, v: seq<Among>, skip: bool) returns (among: int, ghost m: int)
    requires InPlace(z) && z.c == z.l && WellFormedTable(Backward, v)
    modifies z`c
    ensures InPlace(z) && if skip then m == -1 else LookedUp(v, z.Text(), m)
    ensures m == -1 ==> among == 0 && z.c == z.l
    ensures m != -1 ==> 0 <= m < |v| && among == v[m].result && z.c == z.l - |v[m].s|
    ensures z.Text() == z.Text()[..z.c] + z.Text()[z.c..]
  {
    if skip {
      among, m := 0, -1;
      return;
    }
    among, m := LookUpEnd(z, v);
  }

  method RStep2(z: SnEnv)
    requires InPlace(z) && z.c == z.l
    modifies z`c, z`bra, z`ket, z`l, z`size, z`p, z.p
    ensures InPlace(z) && (z.p == old(z.p) || fresh(z.p))
    ensures z.Text() == Step2(old(z.Text()), z.p1)
  {
    hide A5, DERIVED, RuleStep, IsBestRule, LookedUp, EndsIn, WellFormedTable, Apply, Action2, InMask;
    ghost var w := z.Text();
    Mask2(w);
    z.ket := z.c;
    A5WellFormed();
    var among, m := GuardedLookUp(z, A5, z.c - 1 <= z.lb || !InMask(815616, z.p[z.c - 1]));
    DerivedImplemented();
    StepOutcome(A5, DERIVED, "ilmnrs", 2, Action2, w, m, z.p1, z.p1, 0);
    if among == 0 {
      return;
    }
    z.bra := z.c;
    if z.p1 > z.c {
      return;
    }
    Switch2(z, among);
  }

  /** The switch of step 2, and its slice. */
  method Switch2(z: SnEnv, among: int)
    requires InPlace(z) && z.bra == z.c && z.ket == z.l
    modifies z`c, z`l, z`size, z`p, z.p
    ensures InPlace(z) && (z.p == old(z.p) || fresh(z.p))
    ensures var w, bra := old(z.Text()), old(z.bra);
            z.Text() == Apply(Action2(among), w[..bra], w[bra..], z.p1, 0)
  {
    ghost var w := z.Text();
    assert w == w[..z.bra] + w[z.bra..];
    hide Apply, Action2;
    var proceed, s := Replacement2(z, among);
    if proceed {
      ReplaceEnd(z, s);
    }
  }

  lemma ValidLiAhead(z: SnEnv)
    requires InPlace(z)
    ensures z.c > 0 ==> (InGroup(G_VALID_LI, z.Text()[z.c - 1]) <==> z.Text()[..z.c][z.c - 1] in "cdeghkmnrt")
  {
    if z.c > 0 {
      ValidLiGroup(z.Text()[z.c - 1]);
    }
  }

  /** What the switch of step 2 puts in place of the suffix, if anything. */
  method Replacement2(z: SnEnv, among: int) returns (proceed: bool, s: string)
    requires InPlace(z)
    modifies z`c
    ensures InPlace(z) && z.c <= old(z.c)
    ensures Settles(Action2(among), z.Text()[..old(z.c)], proceed, s)
  {
    hide InGroup, IsSuffix, Settles;
    ghost var stem := z.Text()[..z.c];
    if among == 13 {
      SuffixOne("l", stem);
      assert z.Ahead(Backward) == stem;
      proceed := z.EqSB("l");
      s := "og";
      PutAfterSettles("l", s, stem, proceed);
    } else if among == 16 {
      ValidLiAhead(z);
      var ret := z.GroupB(G_VALID_LI, true, false);
      proceed := ret == 0;
      s := "";
      PutAfterSettles("cdeghkmnrt", s, stem, proceed);
    } else {
      proceed, s := PlainText2(among);
      PutSettles(s, stem, proceed);
    }
  }

  /** The cases of the switch of step 2 that only choose a text. */
  method PlainText2(among: int) returns (proceed: bool, s: string)
    requires among != 13 && among != 16
    ensures Action2(among) == if proceed then Put(s) else Leave
  {
    proceed, s := true, "";
    match among {
      case 1 => s := "tion";
      case 2 => s := "ence";
      case 3 => s := "ance";
      case 4 => s := "able";
      case 5 => s := "ent";
      case 6 => s := "ize";
      case 7 => s := "ate";
      case 8 => s := "al";
      case 9 => s := "ful";
      case 10 => s := "ous";
      case 11 => s := "ive";
      case 12 => s := "ble";
      case 14 => s := "ful";
      case 15 => s := "less";
      case _ => proceed := false;
    }
  }

  // ---------------------------------------------------------------- short syllables

  method RShortV(z: SnEnv) returns (ok: bool)
    requires InPlace(z)
    modifies z`c
    ensures InPlace(z) && ok == EndsShort(z.Text()[..old(z.c)])
  {
    hide InGroup;
    ghost var t, n, u := z.Text(), z.c, z.Text()[..z.c];
    if n >= 1 {
      VowelGroup(t[n - 1]);
      VowelOrWXYGroup(t[n - 1]);
    }
    if n >= 2 {
      VowelGroup(t[n - 2]);
    }
    if n >= 3 {
      VowelGroup(t[n - 3]);
    }
    assert |u| == n && forall i :: 0 <= i < n ==> u[i] == t[i];
    hide IsVowel, IsVowelOrWXY;
    var m1 := z.l - z.c;
    var ret := z.GroupB(G_V_WXY, false, false);
    if ret == 0 {
      ret := z.GroupB(G_V, true, false);
      if ret == 0 {
        ret := z.GroupB(G_V, false, false);
        if ret == 0 {
          return true;
        }
      }
    }
    z.c := z.l - m1;
    ret := z.GroupB(G_V, false, false);
    if ret != 0 {
      return false;
    }
    ret := z.GroupB(G_V, true, false);
    if ret != 0 {
      return false;
    }
    ok := z.c <= z.lb;
  }

  lemma VowelBefore(t: string, c: int)
    requires 0 <= c <= |t|
    ensures SpanStart(t, c, 0, G_V, false) > 0 <==> HasVowel(t[..c])
  {
    var b := SpanStart(t, c, 0, G_V, false);
    forall i | 0 <= i < |t| ensures InGroup(G_V, t[i]) <==> IsVowel(t[i]) {
      VowelGroup(t[i]);
    }
    if b > 0 {
      assert IsVowel(t[..c][b - 1]);
    }
  }

  lemma EndsInTwo(letters: string, w: string)
    requires |letters| == 2
    ensures EndsIn(letters, w) <==> |w| > 0 && (w[|w| - 1] == letters[0] || w[|w| - 1] == letters[1])
  {
  }

  // ---------------------------------------------------------------- step 1a

  method RPossessive(z: SnEnv)
    requires InPlace(z) && z.c == z.l
    modifies z`c, z`bra, z`ket, z`l, z`size, z`p, z.p
    ensures InPlace(z) && (z.p == old(z.p) || fresh(z.p)) && z.c == z.l
    ensures z.Text() == RuleStep(POSSESSIVES, 0, old(z.Text()), 0, 0)
  {
    hide A1, POSSESSIVES, RuleStep, IsBestRule, LookedUp, EndsIn, WellFormedTable;
    ghost var w := z.Text();
    EndsInTwo("'s", w);
    var keep := z.l - z.c;
    z.ket := z.c;
    A1WellFormed();
    var among, m := GuardedLookUp(z, A1, z.c <= z.lb || (z.p[z.c - 1] != '\'' && z.p[z.c - 1] != 's'));
    PossessivesImplemented();
    StepOutcome(A1, POSSESSIVES, "'s", 1, ActionPossessive, w, m, 0, 0, 0);
    if among == 0 {
      z.c := z.l - keep;
      return;
    }
    z.bra := z.c;
    ReplaceEnd(z, "");
  }

  method RPlural(z: SnEnv)
    requires InPlace(z) && z.c == z.l
    modifies z`c, z`bra, z`ket, z`l, z`size, z`p, z.p
    ensures InPlace(z) && (z.p == old(z.p) || fresh(z.p))
    ensures z.Text() == RuleStep(PLURALS, 0, old(z.Text()), 0, 0)
  {
    hide A2, PLURALS, RuleStep, IsBestRule, LookedUp, EndsIn, WellFormedTable, Apply, Action1a;
    ghost var w := z.Text();
    EndsInTwo("ds", w);
    z.ket := z.c;
    A2WellFormed();
    var among, m := GuardedLookUp(z, A2, z.c <= z.lb || (z.p[z.c - 1] != 'd' && z.p[z.c - 1] != 's'));
    PluralsImplemented();
    StepOutcome(A2, PLURALS, "ds", 1, Action1a, w, m, 0, 0, 0);
    if among == 0 {
      return;
    }
    z.bra := z.c;
    Switch1a(z, among);
  }

  /** The switch of step 1a, and its slice. */
  method Switch1a(z: SnEnv, among: int)
    requires InPlace(z) && z.bra == z.c && z.ket == z.l
    modifies z`c, z`l, z`size, z`p, z.p
    ensures InPlace(z) && (z.p == old(z.p) || fresh(z.p))
    ensures var w, bra := old(z.Text()), old(z.bra);
            z.Text() == Apply(Action1a(among), w[..bra], w[bra..], 0, 0)
  {
    ghost var w := z.Text();
    assert w == w[..z.bra] + w[z.bra..];
    hide Apply, Action1a;
    var proceed, s := Replacement1a(z, among);
    if proceed {
      ReplaceEnd(z, s);
    }
  }

  /** What the switch of step 1a puts in place of the suffix, if anything. */
  method Replacement1a(z: SnEnv, among: int) returns (proceed: bool, s: string)
    requires InPlace(z)
    modifies z`c
    ensures InPlace(z) && z.c <= old(z.c)
    ensures Settles(Action1a(among), z.Text()[..old(z.c)], proceed, s)
  {
    hide InGroup;
    proceed, s := true, "";
    ghost var stem := z.Text()[..z.c];
    match among {
      case 1 => s := "ss";
      case 2 =>
        var ret := z.c - 2;
        if z.lb > ret || ret > z.l {
          s := "ie";
        } else {
          z.c := ret;
          s := "i";
        }
      case 3 =>
        if z.c <= z.lb {
          return false, s;
        }
        z.c := z.c - 1;
        VowelBefore(z.Text(), z.c);
        assert stem[..|stem| - 1] == z.Text()[..z.c];
        var ret := z.GroupB(G_V, false, true);
        if ret < 0 {
          return false, s;
        }
        z.c := z.c - ret;
        assert stem + s == stem;
      case _ => proceed := false;
    }
  }

  method RStep1a(z: SnEnv)
    requires InPlace(z) && z.c == z.l
    modifies z`c, z`bra, z`ket, z`l, z`size, z`p, z.p
    ensures InPlace(z) && (z.p == old(z.p) || fresh(z.p))
    ensures z.Text() == Step1a(old(z.Text()))
  {
    RPossessive(z);
    RPlural(z);
  }

  // ---------------------------------------------------------------- words left alone after step 1a

  lemma InvariantLookup(w: string, m: int)
    requires LookedUp(A9, w, m)
    ensures (m != -1 && |A9[m].s| == |w|) <==> w in INVARIANTS
  {
    forall k | 0 <= k < 8 ensures A9[k].s == INVARIANTS[k] {}
    if m != -1 && |A9[m].s| == |w| {
      assert w == A9[m].s == INVARIANTS[m];
    }
    if w in INVARIANTS {
      var k :| 0 <= k < 8 && INVARIANTS[k] == w;
      assert Matches(Backward, A9[k].s, w);
    }
  }

  lemma InvariantEndings(w: string)
    requires w in INVARIANTS
    ensures |w| >= 6 && EndsIn("dg", w)
  {
  }

  method RException2(z: SnEnv) returns (ok: bool)
    requires InPlace(z) && z.c == z.l
    modifies z`c, z`bra, z`ket
    ensures InPlace(z) && ok == (z.Text() in INVARIANTS)
  {
    hide A9, INVARIANTS, LookedUp;
    ghost var w := z.Text();
    z.ket := z.c;
    if w in INVARIANTS {
      InvariantEndings(w);
    }
    if z.c - 5 <= z.lb || (z.p[z.c - 1] != 'd' && z.p[z.c - 1] != 'g') {
      return false;
    }
    A9WellFormed();
    var among, m := LookUpEnd(z, A9);
    InvariantLookup(w, m);
    A9Results(m);
    if among == 0 {
      return false;
    }
    z.bra := z.c;
    ok := z.c <= z.lb;
  }

  lemma A9Results(m: int)
    ensures 0 <= m < |A9| ==> A9[m].result != 0
  {
  }

  // ---------------------------------------------------------------- step 1b

  predicate IsRepairPair(x: char, y: char) {
    (x == y && y in "bdfgmnprt") || [x, y] == "at" || [x, y] == "bl" || [x, y] == "iz"
  }

  lemma RepairPairs(m: int)
    requires 0 < m < 13
    ensures |A3[m].s| == 2 && IsRepairPair(A3[m].s[0], A3[m].s[1])
    ensures A3[m].result == if A3[m].s[0] == A3[m].s[1] then 2 else 1
  {
  }

  lemma RepairPairIsListed(x: char, y: char)
    requires IsRepairPair(x, y)
    ensures exists k :: 0 < k < 13 && A3[k].s == [x, y]
  {
    assert A3[1].s == "bb" && A3[2].s == "dd" && A3[3].s == "ff" && A3[4].s == "gg" && A3[5].s == "bl";
    assert A3[6].s == "mm" && A3[7].s == "nn" && A3[8].s == "pp" && A3[9].s == "rr" && A3[10].s == "at";
    assert A3[11].s == "tt" && A3[12].s == "iz";
  }

  /** What the repair look-up of step 1b distinguishes; `m == 0` is the entry for the empty suffix. */
  lemma RepairLookup(u: string, m: int)
    requires LookedUp(A3, u, m)
    ensures m != -1
    ensures A3[m].result == 1 <==> IsSuffix("at", u) || IsSuffix("bl", u) || IsSuffix("iz", u)
    ensures A3[m].result == 2 <==> EndsDouble(u)
    ensures 1 <= A3[m].result <= 3
  {
    assert A3[0] == Among("", -1, 3) && Matches(Backward, A3[0].s, u);
    if m > 0 {
      RepairPairs(m);
    }
    if |u| >= 2 && IsRepairPair(u[|u| - 2], u[|u| - 1]) {
      RepairPairIsListed(u[|u| - 2], u[|u| - 1]);
      var k :| 0 < k < 13 && A3[k].s == [u[|u| - 2], u[|u| - 1]];
      assert Matches(Backward, A3[k].s, u);
    }
  }

  /** Appends at the end, as `<+` does: the cursor stays. */
  method Append(z: SnEnv, s: string)
    requires InPlace(z) && z.c == z.l
    modifies z`c, z`bra, z`ket, z`l, z`size, z`p, z.p
    ensures InPlace(z) && (z.p == old(z.p) || fresh(z.p))
    ensures z.Text() == old(z.Text()) + s
  {
    var keep := z.c;
    z.InsertS(z.c, z.c, s);
    z.c := keep;
  }

  /** What step 1b does to the stem it has just exposed. */
  method RRepair(z: SnEnv)
    requires InPlace(z) && z.c == z.l
    modifies z`c, z`bra, z`ket, z`l, z`size, z`p, z.p
    ensures InPlace(z) && (z.p == old(z.p) || fresh(z.p))
    ensures z.Text() == Repair(old(z.Text()), z.p1)
  {
    hide A3, IsSuffix, EndsDouble, EndsShort, LookedUp, InMask;
    ghost var u := z.Text();
    var test := z.l - z.c;
    var among;
    RepairGuard(u);
    if z.c > 0 {
      MaskRepair(z.p[z.c - 1]);
    }
    if z.c - 1 <= z.lb || !InMask(68514004, z.p[z.c - 1]) {
      among := 3;
    } else {
      A3WellFormed();
      ghost var m;
      among, m := LookUpEnd(z, A3);
      RepairLookup(u, m);
      if among == 0 {
        return;
      }
      z.c := z.l - test;
    }
    match among {
      case 1 => Append(z, "e");
      case 2 =>
        z.ket := z.c;
        if z.c <= z.lb {
          DoubleIsLong(u);
          return;
        }
        z.c := z.c - 1;
        z.bra := z.c;
        ReplaceEnd(z, "");
      case _ =>
        if z.c != z.p1 {
          return;
        }
        test := z.l - z.c;
        var ok := RShortV(z);
        assert u[..|u|] == u;
        if !ok {
          return;
        }
        z.c := z.l - test;
        Append(z, "e");
    }
  }

  lemma DoubleIsLong(u: string)
    ensures EndsDouble(u) ==> u != []
  {
  }

  lemma RepairGuard(u: string)
    ensures IsSuffix("at", u) || IsSuffix("bl", u) || IsSuffix("iz", u) || EndsDouble(u) ==>
      |u| >= 2 && EndsIn("bdfglmnprtz", u)
  {
  }

  method RStep1b(z: SnEnv)
    requires InPlace(z) && z.c == z.l
    modifies z`c, z`bra, z`ket, z`l, z`size, z`p, z.p
    ensures InPlace(z) && (z.p == old(z.p) || fresh(z.p))
    ensures z.Text() == Step1b(old(z.Text()), z.p1)
  {
    hide A4, PAST, RuleStep, IsBestRule, LookedUp, EndsIn, WellFormedTable, Apply, Action1b, InMask;
    ghost var w := z.Text();
    Mask1b(w);
    z.ket := z.c;
    A4WellFormed();
    var among, m := GuardedLookUp(z, A4, z.c - 1 <= z.lb || !InMask(33554576, z.p[z.c - 1]));
    PastImplemented();
    StepOutcome(A4, PAST, "dgy", 2, Action1b, w, m, 0, z.p1, 0);
    if among == 0 {
      return;
    }
    z.bra := z.c;
    RPastSwitch(z, among);
  }

  /** The switch of step 1b. */
  method RPastSwitch(z: SnEnv, among: int)
    requires InPlace(z) && z.bra == z.c && z.ket == z.l
    modifies z`c, z`bra, z`ket, z`l, z`size, z`p, z.p
    ensures InPlace(z) && (z.p == old(z.p) || fresh(z.p))
    ensures var w, bra := old(z.Text()), old(z.bra);
            z.Text() == Apply(Action1b(among), w[..bra], w[bra..], z.p1, 0)
  {
    ghost var w := z.Text();
    assert w == w[..z.bra] + w[z.bra..];
    match among {
      case 1 =>
        if z.p1 > z.c {
          return;
        }
        ReplaceEnd(z, "ee");
      case 2 => RDropAndRepair(z);
      case _ =>
    }
  }

  /** Step 1b for `ed` and `ing`: the suffix goes if a vowel comes before it, and the stem is repaired. */
  method RDropAndRepair(z: SnEnv)
    requires InPlace(z) && z.bra == z.c && z.ket == z.l
    modifies z`c, z`bra, z`ket, z`l, z`size, z`p, z.p
    ensures InPlace(z) && (z.p == old(z.p) || fresh(z.p))
    ensures var stem := old(z.Text())[..old(z.bra)];
            z.Text() == if HasVowel(stem) then Repair(stem, z.p1) else old(z.Text())
  {
    hide HasVowel, Repair, SpanStart;
    ghost var w := z.Text();
    var test := z.l - z.c;
    VowelBefore(w, z.c);
    var ret := z.GroupB(G_V, false, true);
    if ret < 0 {
      return;
    }
    z.c := z.l - test;
    ReplaceEnd(z, "");
    assert z.Text() == w[..z.bra];
    RRepair(z);
  }

  lemma SuffixOne(s: string, w: string)
    requires |s| == 1
    ensures IsSuffix(s, w) <==> |w| > 0 && w[|w| - 1] == s[0]
  {
    if |w| > 0 {
      assert w[|w| - 1..] == [w[|w| - 1]];
    }
  }

  method RStep1c(z: SnEnv)
    requires InPlace(z) && z.c == z.l
    modifies z`c, z`bra, z`ket, z`l, z`size, z`p, z.p
    ensures InPlace(z) && (z.p == old(z.p) || fresh(z.p))
    ensures z.Text() == Step1c(old(z.Text()))
  {
    hide InGroup, IsSuffix, IsVowel;
    ghost var w := z.Text();
    assert z.Ahead(Backward) == w;
    SuffixOne("y", w);
    SuffixOne("Y", w);
    z.ket := z.c;
    var m1 := z.l - z.c;
    var ok := z.EqSB("y");
    if !ok {
      z.c := z.l - m1;
      ok := z.EqSB("Y");
      if !ok {
        return;
      }
    }
    z.bra := z.c;
    if z.c > 0 {
      VowelGroup(w[z.c - 1]);
    }
    var ret := z.GroupB(G_V, false, false);
    if ret != 0 {
      return;
    }
    if z.c <= z.lb {
      return;
    }
    ReplaceEnd(z, "i");
  }

  // ---------------------------------------------------------------- steps 3 to 5

  method RStep3(z: SnEnv)
    requires InPlace(z) && z.c == z.l
    modifies z`c, z`bra, z`ket, z`l, z`size, z`p, z.p
    ensures InPlace(z) && (z.p == old(z.p) || fresh(z.p))
    ensures z.Text() == Step3(old(z.Text()), z.p1, z.p2)
  {
    hide A6, LENGTHENED, RuleStep, IsBestRule, LookedUp, EndsIn, WellFormedTable, Apply, Action3, InMask;
    ghost var w := z.Text();
    Mask3(w);
    z.ket := z.c;
    A6WellFormed();
    var among, m := GuardedLookUp(z, A6, z.c - 2 <= z.lb || !InMask(528928, z.p[z.c - 1]));
    LengthenedImplemented();
    StepOutcome(A6, LENGTHENED, "eils", 3, Action3, w, m, z.p1, z.p1, z.p2);
    if among == 0 {
      return;
    }
    z.bra := z.c;
    if z.p1 > z.c {
      return;
    }
    Switch3(z, among);
  }

  /** The switch of step 3. */
  method Switch3(z: SnEnv, among: int)
    requires InPlace(z) && z.bra == z.c && z.ket == z.l
    modifies z`c, z`l, z`size, z`p, z.p
    ensures InPlace(z) && (z.p == old(z.p) || fresh(z.p))
    ensures var w, bra := old(z.Text()), old(z.bra);
            z.Text() == Apply(Action3(among), w[..bra], w[bra..], z.p1, z.p2)
  {
    ghost var w := z.Text();
    assert w == w[..z.bra] + w[z.bra..];
    match among {
      case 1 => ReplaceEnd(z, "tion");
      case 2 => ReplaceEnd(z, "ate");
      case 3 => ReplaceEnd(z, "al");
      case 4 => ReplaceEnd(z, "ic");
      case 5 => ReplaceEnd(z, "");
      case 6 =>
        if z.p2 > z.c {
          return;
        }
        ReplaceEnd(z, "");
      case _ =>
    }
  }

  method RStep4(z: SnEnv)
    requires InPlace(z) && z.c == z.l
    modifies z`c, z`bra, z`ket, z`l, z`size, z`p, z.p
    ensures InPlace(z) && (z.p == old(z.p) || fresh(z.p))
    ensures z.Text() == Step4(old(z.Text()), z.p2)
  {
    hide A7, RESIDUAL, RuleStep, IsBestRule, LookedUp, EndsIn, WellFormedTable, Apply, Action4, InMask;
    ghost var w := z.Text();
    Mask4(w);
    z.ket := z.c;
    A7WellFormed();
    var among, m := GuardedLookUp(z, A7, z.c - 1 <= z.lb || !InMask(1864232, z.p[z.c - 1]));
    ResidualImplemented();
    StepOutcome(A7, RESIDUAL, "ceilmnrst", 2, Action4, w, m, z.p2, 0, z.p2);
    if among == 0 {
      return;
    }
    z.bra := z.c;
    if z.p2 > z.c {
      return;
    }
    Switch4(z, among);
  }

  /** The switch of step 4, and its slice. */
  method Switch4(z: SnEnv, among: int)
    requires InPlace(z) && z.bra == z.c && z.ket == z.l
    modifies z`c, z`l, z`size, z`p, z.p
    ensures InPlace(z) && (z.p == old(z.p) || fresh(z.p))
    ensures var w, bra := old(z.Text()), old(z.bra);
            z.Text() == Apply(Action4(among), w[..bra], w[bra..], 0, z.p2)
  {
    ghost var w := z.Text();
    assert w == w[..z.bra] + w[z.bra..];
    hide Apply, Action4;
    var proceed := Deletable4(z, among);
    if proceed {
      ReplaceEnd(z, "");
    }
  }

  /** Whether the switch of step 4 deletes the suffix. */
  method Deletable4(z: SnEnv, among: int) returns (proceed: bool)
    requires InPlace(z)
    modifies z`c
    ensures InPlace(z) && z.c <= old(z.c)
    ensures Settles(Action4(among), z.Text()[..old(z.c)], proceed, "")
  {
    hide IsSuffix;
    ghost var stem := z.Text()[..z.c];
    assert z.Ahead(Backward) == stem;
    SuffixOne("s", stem);
    SuffixOne("t", stem);
    proceed := true;
    match among {
      case 1 =>
      case 2 =>
        var m1 := z.l - z.c;
        proceed := z.EqSB("s");
        if !proceed {
          z.c := z.l - m1;
          proceed := z.EqSB("t");
        }
      case _ => proceed := false;
    }
  }

  /** A look-up in the table of step 5 looks at the last letter only. */
  lemma FinalLookup(w: string, m: int)
    requires LookedUp(A8, w, m)
    ensures m == if w == [] then -1 else if w[|w| - 1] == 'e' then 0 else if w[|w| - 1] == 'l' then 1 else -1
    ensures A8[0] == Among("e", -1, 1) && A8[1] == Among("l", -1, 2)
  {
    assert Matches(Backward, A8[0].s, w) <==> IsSuffix("e", w);
    assert Matches(Backward, A8[1].s, w) <==> IsSuffix("l", w);
    assert w != [] ==> w[|w| - 1..] == [w[|w| - 1]];
  }

  /** Whether a final `e` goes: in R2, or in R1 unless it closes a short syllable. */
  method FinalEGoes(z: SnEnv) returns (proceed: bool)
    requires InPlace(z)
    modifies z`c
    ensures InPlace(z) && z.c <= old(z.c)
    ensures proceed <==> z.p2 <= old(z.c) || (z.p1 <= old(z.c) && !EndsShort(z.Text()[..old(z.c)]))
  {
    hide EndsShort;
    var m1 := z.l - z.c;
    if z.p2 <= z.c {
      return true;
    }
    z.c := z.l - m1;
    if z.p1 > z.c {
      return false;
    }
    var m2 := z.l - z.c;
    var ok := RShortV(z);
    z.c := z.l - m2;
    return !ok;
  }

  /** Whether a final `l` goes: in R2, after another `l`. */
  method FinalLGoes(z: SnEnv) returns (proceed: bool)
    requires InPlace(z)
    modifies z`c
    ensures InPlace(z) && z.c <= old(z.c)
    ensures var stem := z.Text()[..old(z.c)];
            proceed <==> z.p2 <= |stem| && |stem| > 0 && stem[|stem| - 1] == 'l'
  {
    if z.p2 > z.c {
      return false;
    }
    assert z.Ahead(Backward) == z.Text()[..z.c];
    SuffixOne("l", z.Text()[..z.c]);
    proceed := z.EqSB("l");
  }

  /** The look-up of step 5: 1 for a final `e`, 2 for a final `l`, and that letter is the slice. */
  method FinalLetter(z: SnEnv) returns (among: int)
    requires InPlace(z) && z.c == z.l
    modifies z`c, z`bra, z`ket
    ensures InPlace(z)
    ensures among == var w := z.Text();
        if w == [] then 0 else if w[|w| - 1] == 'e' then 1 else if w[|w| - 1] == 'l' then 2 else 0
    ensures among != 0 ==> z.bra == z.c == z.l - 1 && z.ket == z.l
  {
    hide A8, LookedUp;
    ghost var w := z.Text();
    z.ket := z.c;
    if z.c <= z.lb || (z.p[z.c - 1] != 'e' && z.p[z.c - 1] != 'l') {
      return 0;
    }
    A8WellFormed();
    ghost var m;
    among, m := LookUpEnd(z, A8);
    FinalLookup(w, m);
    z.bra := z.c;
  }

  method RStep5(z: SnEnv)
    requires InPlace(z) && z.c == z.l
    modifies z`c, z`bra, z`ket, z`l, z`size, z`p, z.p
    ensures InPlace(z) && (z.p == old(z.p) || fresh(z.p))
    ensures z.Text() == Step5(old(z.Text()), z.p1, z.p2)
  {
    hide EndsShort;
    var among := FinalLetter(z);
    var proceed := false;
    match among {
      case 1 => proceed := FinalEGoes(z);
      case 2 => proceed := FinalLGoes(z);
      case _ =>
    }
    if proceed {
      ReplaceEnd(z, "");
    }
  }

  // ---------------------------------------------------------------- exceptional words

  lemma ExceptionRules(m: int)
    requires 0 <= m < 18
    ensures A10[m].s == EXCEPTIONS[m].suffix && A10[m].result != 0 && ActionX(A10[m].result) == EXCEPTIONS[m].action
  {
    match m {
      case 0 => case 1 => case 2 => case 3 => case 4 => case 5 => case 6 => case 7 => case 8 =>
      case 9 => case 10 => case 11 => case 12 => case 13 => case 14 => case 15 => case 16 => case 17 =>
    }
  }

  lemma ExceptionThirds(m: int)
    requires 0 <= m < 18
    ensures 3 <= |EXCEPTIONS[m].suffix| && EXCEPTIONS[m].suffix[2] in "adilnrswy"
  {
  }

  /** A look-up that covers the whole word finds it among the exceptions, and no other look-up does. */
  lemma ExceptionLookup(w: string, m: int)
    requires (m == -1 && NoneMatches(Forward, A10, w)) || IsLongestMatch(Forward, A10, w, m)
    ensures m != -1 ==> 0 <= m < |A10| && 0 <= m < |EXCEPTIONS| && |A10[m].s| <= |w|
    ensures m != -1 ==> A10[m].result != 0 && ActionX(A10[m].result) == EXCEPTIONS[m].action
    ensures ExceptionOf(w) == if m != -1 && |A10[m].s| == |w| then m else -1
  {
    forall k | 0 <= k < 18 ensures A10[k].s == EXCEPTIONS[k].suffix {
      ExceptionRules(k);
    }
    if m != -1 {
      ExceptionRules(m);
      assert |A10[m].s| == |w| ==> w == A10[m].s;
    }
    var n := ExceptionOf(w);
    if n != -1 {
      assert Matches(Forward, A10[n].s, w);
      assert IsLongestMatch(Forward, A10, w, n);
      A10WellFormed();
      LongestMatchUnique(Forward, A10, w, m, n);
    }
  }

  method RException1(z: SnEnv) returns (ok: bool)
    requires InPlace(z) && z.c == 0
    modifies z`c, z`bra, z`ket, z`l, z`size, z`p, z.p
    ensures InPlace(z) && (z.p == old(z.p) || fresh(z.p))
    ensures var w := old(z.Text()); var m := ExceptionOf(w);
            && ok == (m != -1)
            && z.Text() == if m == -1 then w else Apply(EXCEPTIONS[m].action, "", w, 0, 0)
  {
    hide A10, EXCEPTIONS, LookedUp, InMask, Apply, ActionX;
    ghost var w := z.Text();
    ghost var n := ExceptionOf(w);
    if n != -1 {
      ExceptionThird(w);
    }
    z.bra := z.c;
    if z.c + 2 < z.l {
      MaskException(z.p[z.c + 2]);
    }
    if z.c + 2 >= z.l || !InMask(42750482, z.p[z.c + 2]) {
      return false;
    }
    A10WellFormed();
    assert z.Ahead(Forward) == w;
    var among, m := z.FindAmong(Forward, A10);
    ExceptionLookup(w, m);
    if among == 0 {
      return false;
    }
    z.ket := z.c;
    if z.c < z.l {
      return false;
    }
    ExceptionSwitch(z, among);
    return true;
  }

  lemma ExceptionThird(w: string)
    requires ExceptionOf(w) != -1
    ensures |w| > 2 && w[2] in "adilnrswy"
  {
    ExceptionThirds(ExceptionOf(w));
  }

  /** The switch for exceptional words; the slice is the whole word. */
  method ExceptionSwitch(z: SnEnv, among: int)
    requires InPlace(z) && z.bra == 0 && z.ket == z.l
    modifies z`c, z`l, z`size, z`p, z.p
    ensures InPlace(z) && (z.p == old(z.p) || fresh(z.p))
    ensures z.Text() == Apply(ActionX(among), "", old(z.Text()), 0, 0)
  {
    ghost var w := z.Text();
    assert "" + w == w && w[..0] == "";
    var s;
    match among {
      case 1 => s := "ski";
      case 2 => s := "sky";
      case 3 => s := "die";
      case 4 => s := "lie";
      case 5 => s := "tie";
      case 6 => s := "idl";
      case 7 => s := "gentl";
      case 8 => s := "ugli";
      case 9 => s := "earli";
      case 10 => s := "onli";
      case 11 => s := "singl";
      case _ => return;
    }
    ReplaceEnd(z, s);
  }

  // ---------------------------------------------------------------- regions

  /** One region: past the next vowel, then past the next non-vowel; -1 if the word ends first. */
  method GoPastSyllable(z: SnEnv) returns (ret: int)
    requires InPlace(z)
    modifies z`c
    ensures InPlace(z)
    ensures ret >= 0 ==> z.c == RegionStart(z.Text(), old(z.c))
    ensures ret < 0 ==> RegionStart(z.Text(), old(z.c)) == |z.Text()|
  {
    hide InGroup;
    ghost var t := z.Text();
    forall i | 0 <= i < |t| ensures InGroup(G_V, t[i]) <==> IsVowel(t[i]) {
      VowelGroup(t[i]);
    }
    ghost var c0 := z.c;
    ret := z.Group(G_V, false, true);
    SkipNonVowels(t, c0, z.c);
    if ret < 0 {
      return;
    }
    z.c := z.c + ret;
    ghost var v := z.c;
    ret := z.Group(G_V, true, true);
    SkipVowels(t, v, z.c);
    if ret < 0 {
      return;
    }
    z.c := z.c + ret;
  }

  lemma {:induction false} SkipNonVowels(t: string, c: nat, e: nat)
    requires c <= e <= |t| && forall i :: c <= i < e ==> !IsVowel(t[i])
    ensures RegionStart(t, c) == RegionStart(t, e)
    decreases e - c
  {
    if c < e {
      SkipNonVowels(t, c + 1, e);
    }
  }

  /** From just past a vowel at `v - 1`, over further vowels, to the non-vowel at `e`. */
  lemma {:induction false} SkipVowels(t: string, v: nat, e: nat)
    requires 0 < v <= e <= |t| && IsVowel(t[v - 1]) && forall i :: v <= i < e ==> IsVowel(t[i])
    requires e < |t| ==> !IsVowel(t[e])
    ensures RegionStart(t, v - 1) == if e < |t| then e + 1 else |t|
    decreases e - v
  {
    if v < e {
      SkipVowels(t, v + 1, e);
    }
  }

  lemma PrefixLookup(w: string, m: int)
    requires (m == -1 && NoneMatches(Forward, A0, w)) || IsLongestMatch(Forward, A0, w, m)
    ensures R1(w) == if m != -1 then |A0[m].s| else RegionStart(w, 0)
    ensures m != -1 ==> A0[m].result != 0
  {
    assert A0[0].s == "arsen" && A0[1].s == "commun" && A0[2].s == "gener";
    if m == -1 {
      assert !Matches(Forward, A0[0].s, w) && !Matches(Forward, A0[1].s, w) && !Matches(Forward, A0[2].s, w);
    } else {
      assert Matches(Forward, A0[m].s, w);
      assert w[0] == A0[m].s[0];
    }
  }

  lemma PrefixFifths(w: string)
    requires "arsen" <= w || "commun" <= w || "gener" <= w
    ensures |w| > 4 && w[4] in "nru"
  {
  }

  /** Finds where the first region starts and leaves the cursor there; -1 if the word ends first. */
  method FindP1(z: SnEnv) returns (ret: int)
    requires InPlace(z) && z.c == 0
    modifies z`c
    ensures InPlace(z)
    ensures ret >= 0 ==> z.c == R1(z.Text())
    ensures ret < 0 ==> R1(z.Text()) == |z.Text()|
  {
    hide A0, InMask, LookedUp;
    ghost var w := z.Text();
    var c2 := z.c;
    if "arsen" <= w || "commun" <= w || "gener" <= w {
      PrefixFifths(w);
    }
    if z.c + 4 < z.l {
      MaskRegion(z.p[z.c + 4]);
      if InMask(2375680, z.p[z.c + 4]) {
        A0WellFormed();
        assert z.Ahead(Forward) == w;
        var among, m := z.FindAmong(Forward, A0);
        PrefixLookup(w, m);
        if among != 0 {
          return 0;
        }
      }
    }
    z.c := c2;
    ret := GoPastSyllable(z);
  }

  method RMarkRegions(z: SnEnv)
    requires InPlace(z) && z.c == 0
    modifies z`c, z`p1, z`p2
    ensures InPlace(z) && z.c == 0 && z.p1 == R1(z.Text()) && z.p2 == R2(z.Text())
  {
    z.p1, z.p2 := z.l, z.l;
    var c1 := z.c;
    var ret := FindP1(z);
    if ret >= 0 {
      z.p1 := z.c;
      ret := GoPastSyllable(z);
      if ret >= 0 {
        z.p2 := z.c;
      }
    }
    z.c := c1;
  }

  // ---------------------------------------------------------------- marking and unmarking y

  /** The first part of the prelude: a leading apostrophe goes. */
  method RStrip(z: SnEnv)
    requires InPlace(z) && z.c == 0
    modifies z`c, z`bra, z`ket, z`l, z`size, z`p, z.p
    ensures InPlace(z) && (z.p == old(z.p) || fresh(z.p)) && z.c == 0
    ensures z.Text() == Stripped(old(z.Text()))
  {
    var c1 := z.c;
    z.bra := z.c;
    assert z.Ahead(Forward) == z.Text();
    var ok := z.EqS("'");
    if ok {
      z.ket := z.c;
      var err := z.SliceFromS("");
      assert err == 0;
    }
    z.c := c1;
  }

  /** The second part: a leading `y` is marked. */
  method RMarkFirst(z: SnEnv)
    requires InPlace(z) && z.c == 0
    modifies z`c, z`bra, z`ket, z`l, z`size, z`p, z`yFound, z.p
    ensures InPlace(z) && (z.p == old(z.p) || fresh(z.p)) && z.c == 0
    ensures MarkedUpTo(old(z.Text()), z.Text(), 0)
    ensures z.yFound <==> old(z.yFound) || z.Text() != old(z.Text())
  {
    ghost var w := z.Text();
    assert w != [] ==> Previous(w, 0) == 'a';
    var c2 := z.c;
    z.bra := z.c;
    assert z.Ahead(Forward) == w;
    var ok := z.EqS("y");
    if ok {
      z.ket := z.c;
      var err := z.SliceFromS("Y");
      assert err == 0;
      assert z.Text() == w[0 := 'Y'];
      z.yFound := true;
    }
    z.c := c2;
  }

  /** How far the marking loop has come: everything up to the cursor is final, and nothing after it has changed. */
  ghost predicate MarkedUpTo(w: string, t: string, c: int) {
    && |t| == |w| && 0 <= c
    && (forall i {:trigger Previous(t, i)} :: 0 <= i < |w| && i <= c ==> t[i] == MarkOne(Previous(t, i), w[i]))
    && (forall i :: c < i < |w| ==> t[i] == w[i])
  }

  /** The cursor is at the last final letter, or just before it if that one cannot be a `y` to mark. */
  ghost predicate MarkingAt(w: string, t: string, c: int, done: int) {
    MarkedUpTo(w, t, done) && (done == c || (done == c + 1 && (done < |t| ==> t[done] != 'y')))
  }

  lemma MarkOneMore(w: string, t: string, c: int, done: int)
    requires 0 <= c < |t| && MarkingAt(w, t, c, done)
    requires !(c + 1 < |t| && IsVowel(t[c]) && t[c + 1] == 'y')
    ensures MarkedUpTo(w, t, c + 1)
  {
    assert c + 1 < |t| && done == c ==> t[c + 1] == w[c + 1] && Previous(t, c + 1) == t[c];
  }

  lemma MarkHere(w: string, t: string, c: int)
    requires 0 <= c && c + 1 < |t| && MarkedUpTo(w, t, c) && IsVowel(t[c]) && t[c + 1] == 'y'
    ensures MarkingAt(w, Spliced(t, c + 1, c + 2, "Y"), c, c + 1)
    ensures Spliced(t, c + 1, c + 2, "Y") != w
  {
    var u := Spliced(t, c + 1, c + 2, "Y");
    assert |u| == |t| && forall i :: 0 <= i < |t| && i != c + 1 ==> u[i] == t[i];
    assert u[c + 1] == 'Y' && w[c + 1] == 'y';
    forall i | 0 <= i <= c + 1 ensures u[i] == MarkOne(Previous(u, i), w[i]) {
      assert i <= c ==> Previous(u, i) == Previous(t, i);
    }
  }

  /** Whether there is a vowel at the cursor with a `y` after it, which is then the slice. */
  method VowelThenY(z: SnEnv) returns (found: bool)
    requires InPlace(z)
    modifies z`c, z`bra, z`ket
    ensures InPlace(z) && z.c == old(z.c)
    ensures found <==> z.c + 1 < z.l && IsVowel(z.Text()[z.c]) && z.Text()[z.c + 1] == 'y'
    ensures found ==> z.bra == z.c + 1 && z.ket == z.c + 2
  {
    hide InGroup, IsVowel;
    var c5 := z.c;
    if z.c < z.l {
      VowelGroup(z.Text()[z.c]);
    }
    found := false;
    var ret := z.Group(G_V, true, false);
    if ret == 0 {
      z.bra := z.c;
      assert z.c < z.l ==> z.Ahead(Forward)[0] == z.Text()[z.c];
      found := z.EqS("y");
      if found {
        z.ket := z.c;
      }
    }
    z.c := c5;
  }

  /** The inner loop: moves to the next vowel that a `y` follows; false if the word ends first. */
  method GoToVowelY(z: SnEnv, ghost w: string, ghost done: int) returns (found: bool)
    requires InPlace(z) && MarkingAt(w, z.Text(), z.c, done)
    modifies z`c, z`bra, z`ket
    ensures InPlace(z) && old(z.c) <= z.c && MarkedUpTo(w, z.Text(), z.c)
    ensures found ==> z.bra == z.c + 1 && z.ket == z.c + 2 <= z.l
    ensures found ==> z.Text()[z.c + 1] == 'y' && IsVowel(z.Text()[z.c])
    ensures found && old(z.c) == z.c ==> done == z.c
    ensures !found ==> z.c == z.l
  {
    hide MarkedUpTo, IsVowel;
    ghost var t, n := z.Text(), done;
    while true
      invariant InPlace(z) && old(z.c) <= z.c && MarkingAt(w, t, z.c, n) && (old(z.c) == z.c ==> n == done)
      decreases z.l - z.c
    {
      found := VowelThenY(z);
      if found {
        return;
      }
      if z.c >= z.l {
        AllMarked(w, t, z.c, n);
        return false;
      }
      MarkOneMore(w, t, z.c, n);
      z.c, n := z.c + 1, z.c + 1;
    }
  }

  lemma AllMarked(w: string, t: string, c: int, done: int)
    requires MarkingAt(w, t, c, done) && c == |t|
    ensures MarkedUpTo(w, t, c)
  {
  }

  /** The loop of the prelude that marks every `y` after a vowel. */
  method RMarkRest(z: SnEnv, ghost w: string)
    requires InPlace(z) && z.c == 0 && MarkedUpTo(w, z.Text(), 0) && (z.yFound <==> z.Text() != w)
    modifies z`c, z`bra, z`ket, z`l, z`size, z`p, z`yFound, z.p
    ensures InPlace(z) && (z.p == old(z.p) || fresh(z.p))
    ensures z.Text() == Marked(w) && (z.yFound <==> z.Text() != w)
  {
    hide MarkedUpTo;
    ghost var done := 0;
    while true
      invariant InPlace(z) && (z.p == old(z.p) || fresh(z.p)) && MarkingAt(w, z.Text(), z.c, done)
      invariant z.yFound <==> z.Text() != w
      decreases 2 * (z.l - z.c) + if done == z.c then 1 else 0
    {
      var found := GoToVowelY(z, w, done);
      if !found {
        break;
      }
      MarkHere(w, z.Text(), z.c);
      var err := z.SliceFromS("Y");
      assert err == 0;
      done := z.c + 1;
      z.yFound := true;
    }
    WhollyMarked(w, z.Text(), z.c);
  }

  lemma WhollyMarked(w: string, t: string, c: int)
    requires MarkedUpTo(w, t, c) && c == |t|
    ensures t == Marked(w)
  {
    MarkedUnique(w, t);
  }

  method RPrelude(z: SnEnv)
    requires InPlace(z) && z.c == 0
    modifies z`c, z`bra, z`ket, z`l, z`size, z`p, z`yFound, z.p
    ensures InPlace(z) && (z.p == old(z.p) || fresh(z.p)) && z.c == 0
    ensures z.Text() == Marked(Stripped(old(z.Text())))
    ensures z.yFound <==> z.Text() != Stripped(old(z.Text()))
  {
    z.yFound := false;
    RStrip(z);
    ghost var w := z.Text();
    RMarkFirst(z);
    var c3 := z.c;
    RMarkRest(z, w);
    z.c := c3;
  }

  /** Each letter is as before or unmarked, and no mark is left before the cursor. */
  ghost predicate UnmarkedUpTo(w: string, t: string, c: int) {
    && |t| == |w| && 0 <= c
    && (forall i :: 0 <= i < |w| ==> t[i] == w[i] || (w[i] == 'Y' && t[i] == 'y'))
    && (forall i :: 0 <= i < |w| && i < c ==> t[i] != 'Y')
  }

  /** The inner loop of the postlude: moves to the next mark; false if the word ends first. */
  method GoToMark(z: SnEnv, ghost w: string) returns (found: bool)
    requires InPlace(z) && UnmarkedUpTo(w, z.Text(), z.c)
    modifies z`c, z`bra, z`ket
    ensures InPlace(z) && old(z.c) <= z.c && UnmarkedUpTo(w, z.Text(), z.c)
    ensures found ==> z.bra == z.c && z.ket == z.c + 1 <= z.l && z.Text()[z.c] == 'Y'
    ensures !found ==> z.c == z.l
  {
    ghost var t := z.Text();
    while true
      invariant InPlace(z) && old(z.c) <= z.c && UnmarkedUpTo(w, t, z.c)
      decreases z.l - z.c
    {
      var c2 := z.c;
      z.bra := z.c;
      assert z.c < z.l ==> z.Ahead(Forward)[0] == t[z.c];
      var ok := z.EqS("Y");
      if ok {
        z.ket := z.c;
        z.c := c2;
        return true;
      }
      z.c := c2;
      if z.c >= z.l {
        return false;
      }
      z.c := z.c + 1;
    }
  }

  /** Turning the mark at the cursor back. */
  lemma UnmarkHere(w: string, t: string, c: int)
    requires UnmarkedUpTo(w, t, c) && c < |t| && t[c] == 'Y'
    ensures UnmarkedUpTo(w, t[..c] + "y" + t[c + 1..], c)
  {
  }

  lemma WhollyUnmarked(w: string, t: string, c: int)
    requires UnmarkedUpTo(w, t, c) && c == |t|
    ensures t == Unmarked(w)
  {
  }

  /** Turns every mark back into `y`, if any was made. */
  method RPostlude(z: SnEnv)
    requires InPlace(z) && z.c == 0
    modifies z`c, z`bra, z`ket, z`l, z`size, z`p, z.p
    ensures InPlace(z) && (z.p == old(z.p) || fresh(z.p))
    ensures z.Text() == if z.yFound then Unmarked(old(z.Text())) else old(z.Text())
  {
    if !z.yFound {
      return;
    }
    ghost var w := z.Text();
    assert UnmarkedUpTo(w, w, z.c);
    hide UnmarkedUpTo;
    while true
      invariant InPlace(z) && (z.p == old(z.p) || fresh(z.p)) && UnmarkedUpTo(w, z.Text(), z.c)
      decreases 2 * (z.l - z.c) + if z.c < z.l && z.Text()[z.c] == 'Y' then 1 else 0
    {
      var found := GoToMark(z, w);
      if !found {
        break;
      }
      UnmarkHere(w, z.Text(), z.c);
      var err := z.SliceFromS("y");
      assert err == 0;
    }
    WhollyUnmarked(w, z.Text(), z.c);
  }

  // ---------------------------------------------------------------- the whole stemmer

  /** Steps 3 to 5, each run from the end of the word whatever the one before returned. */
  method RFinalSteps(z: SnEnv)
    requires InPlace(z) && z.c == z.l
    modifies z`c, z`bra, z`ket, z`l, z`size, z`p, z.p
    ensures InPlace(z) && (z.p == old(z.p) || fresh(z.p))
    ensures z.Text() == Step5(Step4(Step3(old(z.Text()), z.p1, z.p2), z.p2), z.p1, z.p2)
  {
    hide Step3, Step4, Step5;
    RStep3(z);
    z.c := z.l;
    RStep4(z);
    z.c := z.l;
    RStep5(z);
  }

  /** The steps after 1a. */
  method RLaterSteps(z: SnEnv)
    requires InPlace(z) && z.c == z.l
    modifies z`c, z`bra, z`ket, z`l, z`size, z`p, z.p
    ensures InPlace(z) && (z.p == old(z.p) || fresh(z.p))
    ensures z.Text() == LaterSteps(old(z.Text()), z.p1, z.p2)
  {
    hide Step1b, Step1c, Step2, Step3, Step4, Step5;
    RStep1b(z);
    z.c := z.l;
    RStep1c(z);
    z.c := z.l;
    RStep2(z);
    z.c := z.l;
    RFinalSteps(z);
  }

  /** Everything from the end of the word: step 1a, then the other steps unless the word is to be left alone. */
  method RBackwards(z: SnEnv)
    requires InPlace(z) && z.c == 0
    modifies z`c, z`bra, z`ket, z`l, z`size, z`p, z`lb, z.p
    ensures InPlace(z) && (z.p == old(z.p) || fresh(z.p)) && z.c == 0
    ensures var a := Step1a(old(z.Text()));
            z.Text() == if a in INVARIANTS then a else LaterSteps(a, z.p1, z.p2)
  {
    hide Step1a, LaterSteps;
    z.lb := z.c;
    z.c := z.l;
    RStep1a(z);
    z.c := z.l;
    var ok := RException2(z);
    if !ok {
      z.c := z.l;
      RLaterSteps(z);
    }
    z.c := z.lb;
  }

  method RStemLongWord(z: SnEnv)
    requires InPlace(z) && z.c == 0 && z.l >= 3 && ExceptionOf(z.Text()) == -1
    modifies z, z.p
    ensures InPlace(z) && (z.p == old(z.p) || fresh(z.p)) && z.Text() == Stem(old(z.Text()))
  {
    hide Marked, Stripped, Step1a, LaterSteps, R1, R2, Unmarked, INVARIANTS, ExceptionOf;
    RPrelude(z);
    RMarkRegions(z);
    RBackwards(z);
    RPostlude(z);
  }

  /**
   The generated entry point, on an environment that holds a word.  It always succeeds: no slice it takes is ever
   faulty, and the buffer ends up holding the stem, which is never longer than the word.
   */
  method EnglishStem(z: SnEnv) returns (ret: int)
    requires InPlace(z) && z.c == 0
    modifies z, z.p
    ensures InPlace(z) && (z.p == old(z.p) || fresh(z.p)) && ret == 1
    ensures z.Text() == Stem(old(z.Text())) && z.l == |z.Text()| <= old(z.l)
    ensures 'Y' !in old(z.Text()) ==> 'Y' !in z.Text()
  {
    hide Marked, Stripped, Step1a, LaterSteps, R1, R2, Unmarked, INVARIANTS, ExceptionOf, Apply;
    ghost var w := z.Text();
    StemNeverLonger(w);
    if 'Y' !in w {
      StemLeavesNoMark(w);
    }
    var c1 := z.c;
    var ok := RException1(z);
    if ok {
      return 1;
    }
    z.c := c1;
    if z.c + 3 > z.l {
      return 1;
    }
    RStemLongWord(z);
    return 1;
  }

  /** Stemming one word after another in the same environment: nothing is left over from the word before. */
  method StemNext(z: SnEnv, word: string) returns (stem: string)
    requires InPlace(z)
    modifies z, z.p
    ensures InPlace(z) && (z.p == old(z.p) || fresh(z.p))
    ensures stem == Stem(word) && |stem| <= |word|
  {
    hide Stem;
    z.SetCurrent(word);
    var ret := EnglishStem(z);
    stem := z.p[..z.l];
  }
}

/**
 What the English stemmer makes of whole words, said on `Stem` alone: the forms of a word that come to one stem, what
 that stem is, and how both depend on where the regions begin.  No law mentions a table or the order of the steps; a
 step left out, moved or given another region would break one of them.
 */
module EnglishLaws {
  import opened SnowballRuntime
  import opened EnglishRules
  import opened EnglishRuleLaws

  // ---------------------------------------------------------------- the steps in their order

  /** What the steps make of a prepared word. */
  ghost function Core(y: string): string {
    var a := Step1a(y);
    if a in INVARIANTS then a else LaterSteps(a, R1(y), R2(y))
  }

  /** Steps 2 to 5. */
  ghost function Tail(b: string, p1: int, p2: int): string {
    Step5(Step4(Step3(Step2(b, p1), p1, p2), p2), p1, p2)
  }

  lemma CoreIs(y: string, a: string, b: string)
    requires Step1a(y) == a && a !in INVARIANTS && Step1c(Step1b(a, R1(y))) == b
    ensures Core(y) == Tail(b, R1(y), R2(y))
  {
    hide Step1a, Step1b, Step1c, Step2, Step3, Step4, Step5, R1, R2, INVARIANTS;
  }

  lemma NotInvariant(a: string)
    requires |a| >= 5 ==>
               || a[|a| - 4] !in "ctrn"
               || a[|a| - 1] !in "dg"
               || (a[|a| - 4] == 't' && a[|a| - 5] != 'u')
    ensures a !in INVARIANTS
  {
    InvariantsAre(a);
    hide INVARIANTS;
  }

  /** What the stemmer makes of what the steps have left: marks are undone if there are any. */
  ghost function Finished(u: string, s: string): string {
    if Prepared(u) != Stripped(u) then Unmarked(s) else s
  }

  lemma StemIs(w: string)
    requires !HasItsOwnStem(w) && |w| >= 3
    ensures Stem(w) == Finished(w, Core(Prepared(w)))
  {
    ExceptionsAre(w);
    hide HasItsOwnStem, Marked, Stripped, Step1a, LaterSteps, R1, R2, INVARIANTS, EXCEPTIONS, ExceptionOf, Unmarked;
  }

  /** Seven letters are too many for a word with a stem of its own, and these ends of words belong to none. */
  lemma NoStemOfItsOwn(w: string)
    requires |w| < 7 ==>
               var n := |w|;
               n >= 3 ==>
                 && (w[n - 1] == 's' ==> w[n - 2] !in "iewao")
                 && (w[n - 1] == 'y' ==> w[n - 2] !in "lk")
                 && (w[n - 1] == 'e' ==> w[n - 2] != 'w')
                 && (w[n - 1] == 'g' ==> n >= 4 && w[n - 4] != 'y')
    ensures !HasItsOwnStem(w)
  {}

  /** The stem of a word is the word as prepared, put through the steps. */
  lemma StemOfSum(u: string, s: string)
    requires u != "" && Calm(s) && |u| + |s| >= 3 && !HasItsOwnStem(u + s)
    ensures Stem(u + s) == Finished(u, Core(Prepared(u) + s))
  {
    hide Core, Marked, Stem, HasItsOwnStem, Unmarked;
    StemIs(u + s);
    PreparedAppend(u, s);
    assert Prepared(u) == Stripped(u) ==> Prepared(u) + s == Stripped(u) + s;
    if Prepared(u) + s == Stripped(u) + s {
      MarksAre(Stripped(u));
      assert (Prepared(u) + s)[..|Prepared(u)|] == Prepared(u);
      assert (Stripped(u) + s)[..|Stripped(u)|] == Stripped(u);
    }
  }

  lemma StemIsSum(u: string, s: string, t: string)
    requires u != "" && Calm(s) && |u| + |s| >= 3 && !HasItsOwnStem(u + s) && 'Y' !in u && 'Y' !in t
    requires Core(Prepared(u) + s) == Prepared(u) + t
    ensures Stem(u + s) == Stripped(u) + t
  {
    hide Core, Stem, HasItsOwnStem, Calm, Unmarked, Prepared, Stripped;
    StemOfSum(u, s);
    UnmarkedPrepared(u, t);
  }

  /** What ends in none of these letters passes steps 2 to 5 unchanged. */
  lemma QuietTail(b: string, p1: int, p2: int)
    requires b == "" || b[|b| - 1] !in "ceilmnrst"
    ensures Tail(b, p1, p2) == b
  {
    hide Step2, Step3, Step4, Step5;
    Step2Quiet(b, p1);
    Step3Quiet(b, p1, p2);
    Step4Quiet(b, p2);
    if b == "" {
      Step5Rules("", p1, p2, 'a');
    } else {
      Step5Rules(b[..|b| - 1], p1, p2, b[|b| - 1]);
      assert b[..|b| - 1] + [b[|b| - 1]] == b;
    }
  }

  /** Words of fewer than three letters are their own stems. */
  lemma ShortWordsStay(w: string)
    requires |w| < 3
    ensures Stem(w) == w
  {
    ExceptionsAre(w);
    hide ExceptionOf, EXCEPTIONS;
  }

  // ---------------------------------------------------------------- whole words

  predicate Vocal(y: string) {
    exists i :: 0 <= i < |y| && y[i] in "aeiouy"
  }

  lemma Step1bQuiet(w: string, p1: int)
    requires w != "" && w[|w| - 1] !in "dgy"
    ensures Step1b(w, p1) == w
  {
    NotSuffix("ed", w, 0);
    NotSuffix("ing", w, 0);
    NotSuffix("edly", w, 0);
    NotSuffix("ingly", w, 0);
    hide IsSuffix, Step1b;
    Step1bLeavesAlone(w, p1);
  }

  lemma Step1cQuiet(w: string)
    requires w != "" && w[|w| - 1] != 'y' && w[|w| - 1] != 'Y'
    ensures Step1c(w) == w
  {
    Step1cRules(w[..|w| - 1], 'a', w[|w| - 1]);
    hide Step1c;
    assert w[..|w| - 1] + [w[|w| - 1]] == w;
  }

  lemma Step1aQuiet(w: string)
    requires w != "" && w[|w| - 1] !in "'sd"
    ensures Step1a(w) == w
  {
    NotSuffix("ied", w, 0);
    hide IsSuffix, Step1a;
    Step1aLeavesAlone(w);
  }

  /** An ending of p's, and what steps 1a to 1c make of it. */
  lemma FormIs(u: string, s: string, a: string)
    requires u != "" && Calm(s) && |u| + |s| >= 3 && !HasItsOwnStem(u + s) && 'Y' !in u
    requires Step1a(Prepared(u) + s) == a && a !in INVARIANTS
    requires Step1c(Step1b(a, R1(Prepared(u) + s))) == Prepared(u) + "p"
    ensures Stem(u + s) == Stripped(u) + "p"
  {
    hide Core, Stem, HasItsOwnStem, Calm, Prepared, Stripped, Step1a, Step1b, Step1c, R1, R2, Tail, INVARIANTS;
    var y := Prepared(u);
    CoreIs(y + s, a, y + "p");
    QuietTail(y + "p", R1(y + s), R2(y + s));
    StemIsSum(u, s, "p");
  }

  lemma Split(y: string, a: string, b: string)
    ensures y + (a + b) == y + a + b
  {}

  lemma Step1bDoubleP(y: string, p1: int)
    requires Vocal(y)
    ensures Step1b(y + "pping", p1) == Step1b(y + "pped", p1) == y + "p"
    ensures Step1b(y + "ppingly", p1) == Step1b(y + "ppedly", p1) == y + "p"
  {
    var x := y + "pp";
    NotSuffix("e", x, 0);
    assert x[..|x| - 1] == y + "p";
    Split(y, "pp", "ing");
    Split(y, "pp", "ingly");
    Split(y, "pp", "ed");
    Split(y, "pp", "edly");
    assert "pp" + "ing" == "pping" && "pp" + "ed" == "pped";
    assert "pp" + "ingly" == "ppingly" && "pp" + "edly" == "ppedly";
    hide Step1b, Repair, IsSuffix, EndsShort;
    var i :| 0 <= i < |y| && y[i] in "aeiouy";
    assert x[i] in "aeiouy";
    RepairIs(x, p1);
    Step1bRules(x, p1);
  }

  lemma EndsOtherwise(w: string)
    requires w != "" && w[|w| - 1] !in "'eus"
    ensures !IsSuffix("'", w) && !IsSuffix("ie", w) && !IsSuffix("sse", w) && !IsSuffix("s", w) && !IsSuffix("u", w)
  {
    NotSuffix("'", w, 0);
    NotSuffix("ie", w, 0);
    NotSuffix("sse", w, 0);
    NotSuffix("s", w, 0);
    NotSuffix("u", w, 0);
  }

  lemma PluralGoes(y: string, x: string)
    requires Vocal(y) && x != "" && x[|x| - 1] !in "'eus"
    ensures Step1a(y + x + "s") == y + x
  {
    hide Step1a, IsSuffix;
    var w := y + x;
    EndsOtherwise(w);
    Step1aPlainS(w);
    var i :| 0 <= i < |y| && y[i] in "aeiouy";
    assert w[i] == y[i];
  }

  lemma Step1aOfP(y: string)
    ensures Step1a(y + "p") == Step1a(y + "p'") == Step1a(y + "p's") == y + "p"
    ensures Step1a(y + "pped") == y + "pped"
    ensures Vocal(y) ==> Step1a(y + "ps") == y + "p" && Step1a(y + "ppings") == y + "pping"
  {
    hide Step1a;
    NotSuffix("'", y + "p", 0);
    NotSuffix("'s", y + "p", 0);
    NotSuffix("ied", y + "pped", 2);
    hide IsSuffix;
    Step1aQuiet(y + "p");
    Step1aPossessives(y + "p");
    Step1aLeavesAlone(y + "pped");
    Split(y, "p", "'");
    Split(y, "p", "'s");
    Split(y, "p", "s");
    Split(y, "pping", "s");
    assert "p" + "'" == "p'" && "p" + "'s" == "p's" && "p" + "s" == "ps" && "pping" + "s" == "ppings";
    if Vocal(y) {
      PluralGoes(y, "p");
      PluralGoes(y, "pping");
    }
  }

  lemma VocalStem(u: string)
    requires Vocal(Prepared(u))
    ensures u != "" && Stripped(u) != ""
  {
    MarksAre(Stripped(u));
    hide Marked;
  }

  lemma PFormsAfterStep1a(y: string, p1: int)
    ensures Step1c(Step1b(y + "p", p1)) == y + "p" && y + "p" !in INVARIANTS
    ensures y + "pping" !in INVARIANTS && y + "pped" !in INVARIANTS
    ensures y + "ppingly" !in INVARIANTS && y + "ppedly" !in INVARIANTS
    ensures Vocal(y) ==> Step1c(Step1b(y + "pping", p1)) == y + "p" == Step1c(Step1b(y + "pped", p1))
    ensures Vocal(y) ==> Step1c(Step1b(y + "ppingly", p1)) == y + "p" == Step1c(Step1b(y + "ppedly", p1))
  {
    hide Step1b, Step1c, INVARIANTS, Vocal;
    Step1bQuiet(y + "p", p1);
    Step1cQuiet(y + "p");
    NotInvariant(y + "p");
    NotInvariant(y + "pping");
    NotInvariant(y + "pped");
    NotInvariant(y + "ppingly");
    NotInvariant(y + "ppedly");
    if Vocal(y) {
      Step1bDoubleP(y, p1);
    }
  }

  /** The plural and the genitives of a word with a vowel have its stem. */
  lemma PlainForms(u: string)
    requires 'Y' !in u && Vocal(Prepared(u))
    ensures Stem(u + "p") == Stripped(u) + "p"
    ensures Stem(u + "ps") == Stem(u + "p's") == Stem(u + "p'") == Stripped(u) + "p"
  {
    hide Stem, Step1a, Step1b, Step1c, R1, INVARIANTS, HasItsOwnStem, Marked, Vocal, Stripped;
    var y := Prepared(u);
    VocalStem(u);
    Step1aOfP(y);
    forall p1: int ensures y + "p" !in INVARIANTS && Step1c(Step1b(y + "p", p1)) == y + "p" {
      PFormsAfterStep1a(y, p1);
    }
    NoStemOfItsOwn(u + "p");
    NoStemOfItsOwn(u + "ps");
    NoStemOfItsOwn(u + "p's");
    NoStemOfItsOwn(u + "p'");
    PFormsAfterStep1a(y, 0);
    if |u| == 1 {
      ShortPlainForm(u);
    } else {
      FormIs(u, "p", y + "p");
    }
    FormIs(u, "ps", y + "p");
    FormIs(u, "p's", y + "p");
    FormIs(u, "p'", y + "p");
  }

  lemma ShortPlainForm(u: string)
    requires |u| == 1 && Stripped(u) != ""
    ensures Stem(u + "p") == Stripped(u) + "p"
  {
    hide Stem;
    ShortWordsStay(u + "p");
  }

  /** The past, the progressive and the adverbs made of them have the stem of the word with a vowel. */
  lemma PastForms(u: string)
    requires 'Y' !in u && Vocal(Prepared(u))
    ensures Stem(u + "pping") == Stem(u + "pped") == Stripped(u) + "p"
    ensures Stem(u + "ppings") == Stem(u + "ppingly") == Stem(u + "ppedly") == Stripped(u) + "p"
  {
    hide Stem, Step1a, Step1b, Step1c, R1, INVARIANTS, HasItsOwnStem, Marked, Vocal, Stripped;
    var y := Prepared(u);
    VocalStem(u);
    Step1aOfP(y);
    Step1aQuiet(y + "pping");
    Step1aQuiet(y + "ppingly");
    Step1aQuiet(y + "ppedly");
    forall p1: int
      ensures Step1c(Step1b(y + "pping", p1)) == y + "p" == Step1c(Step1b(y + "pped", p1))
      ensures Step1c(Step1b(y + "ppingly", p1)) == y + "p" == Step1c(Step1b(y + "ppedly", p1))
    {
      PFormsAfterStep1a(y, p1);
    }
    PFormsAfterStep1a(y, 0);
    NoStemOfItsOwn(u + "pping");
    NoStemOfItsOwn(u + "pped");
    NoStemOfItsOwn(u + "ppings");
    NoStemOfItsOwn(u + "ppingly");
    NoStemOfItsOwn(u + "ppedly");
    FormIs(u, "pping", y + "pping");
    FormIs(u, "pped", y + "pped");
    FormIs(u, "ppings", y + "pping");
    FormIs(u, "ppingly", y + "ppingly");
    FormIs(u, "ppedly", y + "ppedly");
  }

  /** Without a vowel in the stem nothing goes. */
  lemma VoicelessForms(u: string)
    requires 'Y' !in u && u != "" && !Vocal(Prepared(u))
    ensures Stem(u + "pping") == Stripped(u) + "pping" && Stem(u + "pped") == Stripped(u) + "pped"
  {
    hide Stem, Step1a, Step1b, Step1c, R1, R2, INVARIANTS, HasItsOwnStem, Marked, Stripped, Core, Tail, LaterSteps;
    var y := Prepared(u);
    Step1aOfP(y);
    Step1aQuiet(y + "pping");
    PFormsAfterStep1a(y, 0);
    VoicelessStep1b(y, R1(y + "pping"));
    VoicelessStep1b(y, R1(y + "pped"));
    Step1cQuiet(y + "pping");
    Step1cQuiet(y + "pped");
    CoreIs(y + "pping", y + "pping", y + "pping");
    CoreIs(y + "pped", y + "pped", y + "pped");
    QuietTail(y + "pping", R1(y + "pping"), R2(y + "pping"));
    QuietTail(y + "pped", R1(y + "pped"), R2(y + "pped"));
    NoStemOfItsOwn(u + "pping");
    NoStemOfItsOwn(u + "pped");
    StemIsSum(u, "pping", "pping");
    StemIsSum(u, "pped", "pped");
  }

  lemma VoicelessWithP(y: string)
    requires !Vocal(y)
    ensures !exists i :: 0 <= i < |y + "pp"| && (y + "pp")[i] in "aeiouy"
  {
    var x := y + "pp";
    forall i | 0 <= i < |x| ensures x[i] !in "aeiouy" {
      assert if i < |y| then x[i] == y[i] else x[i] == 'p';
    }
  }

  lemma VoicelessStep1b(y: string, p1: int)
    requires !Vocal(y)
    ensures Step1b(y + "pping", p1) == y + "pping" && Step1b(y + "pped", p1) == y + "pped"
  {
    var x := y + "pp";
    NotSuffix("e", x, 0);
    Split(y, "pp", "ing");
    Split(y, "pp", "ed");
    assert "pp" + "ing" == "pping" && "pp" + "ed" == "pped";
    hide Step1b, Repair, IsSuffix, Vocal;
    VoicelessWithP(y);
    Step1bRules(x, p1);
  }

  // ---------------------------------------------------------------- endings in their regions

  /** Only steps 2 to 5 see a word that does not end in one of these letters. */
  lemma PlainCore(y: string, s: string)
    requires s != "" && s[|s| - 1] !in "'sdgyY"
    ensures Core(y + s) == Tail(y + s, R1(y + s), R2(y + s))
  {
    hide Core, Tail, Step1a, Step1b, Step1c, R1, R2, INVARIANTS;
    var w := y + s;
    assert w[|w| - 1] == s[|s| - 1];
    Step1aQuiet(w);
    Step1bQuiet(w, R1(w));
    Step1cQuiet(w);
    NotInvariant(w);
    CoreIs(w, w, w);
  }

  /** Of a word that ends in a y after a consonant other than l only the y changes in steps 1a to 1c. */
  lemma YCore(y: string, s: string, c: char)
    requires c !in "aeiouyl" && y + s != ""
    ensures Core(y + (s + [c, 'y'])) == Tail(y + (s + [c, 'i']), R1(y + (s + [c, 'y'])), R2(y + (s + [c, 'y'])))
  {
    hide Core, Tail, Step1a, Step1b, Step1c, R1, R2, INVARIANTS, IsSuffix;
    var w, b := y + (s + [c, 'y']), y + (s + [c, 'i']);
    assert w == y + s + [c] + "y" && b == y + s + [c] + "i";
    Step1cRules(y + s, c, 'a');
    NotPast(w);
    Step1aQuiet(w);
    Step1bLeavesAlone(w, R1(w));
    NotInvariant(w);
    CoreIs(w, w, b);
  }

  lemma NotPast(w: string)
    requires |w| >= 2 && w[|w| - 1] == 'y' && w[|w| - 2] != 'l'
    ensures !IsSuffix("ed", w) && !IsSuffix("ing", w) && !IsSuffix("edly", w) && !IsSuffix("ingly", w)
  {
    NotSuffix("ed", w, 0);
    NotSuffix("ing", w, 0);
    NotSuffix("edly", w, 1);
    NotSuffix("ingly", w, 1);
  }

  lemma NoRootOfStep3EndsInE(w: string)
    requires w != "" && w[|w| - 1] == 'e'
    ensures !IsSuffix("iciti", w) && !IsSuffix("ical", w) && !IsSuffix("tional", w) && !IsSuffix("ful", w)
    ensures !IsSuffix("ness", w)
  {
    NotSuffix("iciti", w, 0);
    NotSuffix("ical", w, 0);
    NotSuffix("tional", w, 0);
    NotSuffix("ful", w, 0);
    NotSuffix("ness", w, 0);
  }

  /** Step 3 leaves a final e after other letters. */
  lemma Step3FinalE(y: string, c: char, p1: int, p2: int)
    requires c !in "tvz"
    ensures Step3(y + [c, 'e'], p1, p2) == y + [c, 'e']
  {
    var w := y + [c, 'e'];
    assert w[|w| - 1] == 'e' && w[|w| - 2] == c;
    NotSuffix("icate", w, 1);
    NotSuffix("ative", w, 1);
    NotSuffix("alize", w, 1);
    hide Step3, IsSuffix;
    NoRootOfStep3EndsInE(w);
    Step3LeavesAlone(w, p1, p2);
  }

  lemma NoRootOfStep4EndsInE(w: string)
    requires w != "" && w[|w| - 1] == 'e'
    ensures !IsSuffix("ic", w) && !IsSuffix("iti", w) && !IsSuffix("al", w) && !IsSuffix("ism", w)
    ensures !IsSuffix("ion", w) && !IsSuffix("er", w) && !IsSuffix("ous", w) && !IsSuffix("ant", w)
    ensures !IsSuffix("ent", w)
  {
    NotSuffix("ic", w, 0);
    NotSuffix("iti", w, 0);
    NotSuffix("al", w, 0);
    NotSuffix("ism", w, 0);
    NotSuffix("ion", w, 0);
    NotSuffix("er", w, 0);
    NotSuffix("ous", w, 0);
    NotSuffix("ant", w, 0);
    NotSuffix("ent", w, 0);
  }

  lemma NotBeforeE(w: string)
    requires |w| >= 2 && w[|w| - 1] == 'e' && w[|w| - 2] !in "ctvzl"
    ensures !IsSuffix("ance", w) && !IsSuffix("ence", w) && !IsSuffix("able", w) && !IsSuffix("ible", w)
    ensures !IsSuffix("ate", w) && !IsSuffix("ive", w) && !IsSuffix("ize", w)
  {
    NotSuffix("ance", w, 1);
    NotSuffix("ence", w, 1);
    NotSuffix("able", w, 1);
    NotSuffix("ible", w, 1);
    NotSuffix("ate", w, 1);
    NotSuffix("ive", w, 1);
    NotSuffix("ize", w, 1);
  }

  /** Step 4 leaves a final e after other letters. */
  lemma Step4FinalE(y: string, c: char, p2: int)
    requires c !in "ctvzl"
    ensures Step4(y + [c, 'e'], p2) == y + [c, 'e']
  {
    hide Step4, IsSuffix;
    var w := y + [c, 'e'];
    assert w[|w| - 1] == 'e' && w[|w| - 2] == c;
    NoRootOfStep4EndsInE(w);
    NotBeforeE(w);
    Step4LeavesAlone(w, p2);
  }

  /** The last letter of a word as prepared is its own, or a marked y. */
  lemma LastLetter(u: string)
    requires Prepared(u) != ""
    ensures u != "" && Stripped(u) != ""
    ensures var y := Prepared(u);
            y[|y| - 1] == u[|u| - 1] || (y[|y| - 1] == 'Y' && u[|u| - 1] == 'y')
  {
    var a := Stripped(u);
    MarksAre(a);
    hide Marked;
    var n := |a| - 1;
    assert a[n] == u[|u| - 1];
    assert Marked(a)[n] == a[n] || (Marked(a)[n] == 'Y' && a[n] == 'y');
  }

  lemma AnceTail(y: string, p1: int, p2: int)
    requires p1 <= |y| && p2 <= |y|
    ensures Tail(y + "anci", p1, p2) == Tail(y + "ance", p1, p2) == Step5(y, p1, p2)
  {
    hide Step2, Step3, Step4, Step5;
    Step2RulesFirst(y, p1);
    Step2Quiet(y + "ance", p1);
    Split(y, "an", "ce");
    assert "an" + "ce" == "ance" && "ce" == ['c', 'e'];
    Step3FinalE(y + "an", 'c', p1, p2);
    Step4RulesFirst(y, p2);
  }

  lemma NoRootOfStep2EndsInLFirst(w: string)
    requires w != "" && w[|w| - 1] == 'l'
    ensures !IsSuffix("anci", w) && !IsSuffix("enci", w) && !IsSuffix("ogi", w) && !IsSuffix("li", w)
             && !IsSuffix("aliti", w) && !IsSuffix("biliti", w) && !IsSuffix("iviti", w)
             && !IsSuffix("alism", w) && !IsSuffix("ation", w)
  {
    NotSuffix("anci", w, 0);
    NotSuffix("enci", w, 0);
    NotSuffix("ogi", w, 0);
    NotSuffix("li", w, 0);
    NotSuffix("aliti", w, 0);
    NotSuffix("biliti", w, 0);
    NotSuffix("iviti", w, 0);
    NotSuffix("alism", w, 0);
    NotSuffix("ation", w, 0);
  }

  lemma NoRootOfStep2EndsInLSecond(w: string)
    requires w != "" && w[|w| - 1] == 'l'
    ensures !IsSuffix("izer", w) && !IsSuffix("ator", w) && !IsSuffix("iveness", w) && !IsSuffix("fulness", w)
             && !IsSuffix("ousness", w)
  {
    NotSuffix("izer", w, 0);
    NotSuffix("ator", w, 0);
    NotSuffix("iveness", w, 0);
    NotSuffix("fulness", w, 0);
    NotSuffix("ousness", w, 0);
  }

  /** Step 2 leaves a final l after other letters. */
  lemma Step2FinalL(w: string, p1: int)
    requires |w| >= 2 && w[|w| - 1] == 'l' && w[|w| - 2] !in "a"
    ensures Step2(w, p1) == w
  {
    NotSuffix("tional", w, 1);
    hide Step2, IsSuffix;
    NoRootOfStep2EndsInLFirst(w);
    NoRootOfStep2EndsInLSecond(w);
    Step2LeavesAlone(w, p1);
  }

  lemma NoRootOfStep2EndsInI(w: string)
    requires w != "" && w[|w| - 1] == 'i'
    ensures !IsSuffix("tional", w) && !IsSuffix("alism", w) && !IsSuffix("ation", w) && !IsSuffix("izer", w)
             && !IsSuffix("ator", w) && !IsSuffix("iveness", w) && !IsSuffix("fulness", w)
             && !IsSuffix("ousness", w)
  {
    NotSuffix("tional", w, 0);
    NotSuffix("alism", w, 0);
    NotSuffix("ation", w, 0);
    NotSuffix("izer", w, 0);
    NotSuffix("ator", w, 0);
    NotSuffix("iveness", w, 0);
    NotSuffix("fulness", w, 0);
    NotSuffix("ousness", w, 0);
  }

  /** Step 2 leaves a final i after other letters. */
  lemma Step2FinalI(w: string, p1: int)
    requires |w| >= 2 && w[|w| - 1] == 'i' && w[|w| - 2] !in "cglt"
    ensures Step2(w, p1) == w
  {
    NotSuffix("anci", w, 1);
    NotSuffix("enci", w, 1);
    NotSuffix("ogi", w, 1);
    NotSuffix("li", w, 1);
    NotSuffix("aliti", w, 1);
    NotSuffix("biliti", w, 1);
    NotSuffix("iviti", w, 1);
    hide Step2, IsSuffix;
    NoRootOfStep2EndsInI(w);
    Step2LeavesAlone(w, p1);
  }

  lemma NoRootOfStep2EndsInSFirst(w: string)
    requires w != "" && w[|w| - 1] == 's'
    ensures !IsSuffix("anci", w) && !IsSuffix("enci", w) && !IsSuffix("ogi", w) && !IsSuffix("li", w)
             && !IsSuffix("aliti", w) && !IsSuffix("biliti", w) && !IsSuffix("iviti", w)
             && !IsSuffix("tional", w) && !IsSuffix("alism", w)
  {
    NotSuffix("anci", w, 0);
    NotSuffix("enci", w, 0);
    NotSuffix("ogi", w, 0);
    NotSuffix("li", w, 0);
    NotSuffix("aliti", w, 0);
    NotSuffix("biliti", w, 0);
    NotSuffix("iviti", w, 0);
    NotSuffix("tional", w, 0);
    NotSuffix("alism", w, 0);
  }

  lemma NoRootOfStep2EndsInSSecond(w: string)
    requires w != "" && w[|w| - 1] == 's'
    ensures !IsSuffix("ation", w) && !IsSuffix("izer", w) && !IsSuffix("ator", w)
  {
    NotSuffix("ation", w, 0);
    NotSuffix("izer", w, 0);
    NotSuffix("ator", w, 0);
  }

  lemma Step2FinalS(w: string, p1: int)
    requires |w| >= 5 && w[|w| - 1] == 's' && w[|w| - 5] !in "els"
    ensures Step2(w, p1) == w
  {
    NotSuffix("iveness", w, 4);
    NotSuffix("fulness", w, 4);
    NotSuffix("ousness", w, 4);
    hide Step2, IsSuffix;
    NoRootOfStep2EndsInSFirst(w);
    NoRootOfStep2EndsInSSecond(w);
    Step2LeavesAlone(w, p1);
  }

  lemma NoRootOfStep3EndsInL(w: string)
    requires w != "" && w[|w| - 1] == 'l'
    ensures !IsSuffix("icate", w) && !IsSuffix("ative", w) && !IsSuffix("alize", w) && !IsSuffix("iciti", w)
             && !IsSuffix("ness", w)
  {
    NotSuffix("icate", w, 0);
    NotSuffix("ative", w, 0);
    NotSuffix("alize", w, 0);
    NotSuffix("iciti", w, 0);
    NotSuffix("ness", w, 0);
  }

  /** Step 3 leaves a final l after other letters. */
  lemma Step3FinalL(w: string, p1: int, p2: int)
    requires |w| >= 2 && w[|w| - 1] == 'l' && w[|w| - 2] !in "au"
    ensures Step3(w, p1, p2) == w
  {
    NotSuffix("ical", w, 1);
    NotSuffix("tional", w, 1);
    NotSuffix("ful", w, 1);
    hide Step3, IsSuffix;
    NoRootOfStep3EndsInL(w);
    Step3LeavesAlone(w, p1, p2);
  }

  lemma NoRootOfStep3EndsInI(w: string)
    requires w != "" && w[|w| - 1] == 'i'
    ensures !IsSuffix("icate", w) && !IsSuffix("ative", w) && !IsSuffix("alize", w) && !IsSuffix("ical", w)
             && !IsSuffix("tional", w) && !IsSuffix("ful", w) && !IsSuffix("ness", w)
  {
    NotSuffix("icate", w, 0);
    NotSuffix("ative", w, 0);
    NotSuffix("alize", w, 0);
    NotSuffix("ical", w, 0);
    NotSuffix("tional", w, 0);
    NotSuffix("ful", w, 0);
    NotSuffix("ness", w, 0);
  }

  /** Step 3 leaves a final i after other letters. */
  lemma Step3FinalI(w: string, p1: int, p2: int)
    requires |w| >= 2 && w[|w| - 1] == 'i' && w[|w| - 2] !in "t"
    ensures Step3(w, p1, p2) == w
  {
    NotSuffix("iciti", w, 1);
    hide Step3, IsSuffix;
    NoRootOfStep3EndsInI(w);
    Step3LeavesAlone(w, p1, p2);
  }

  lemma NoRootOfStep4EndsInLFirst(w: string)
    requires w != "" && w[|w| - 1] == 'l'
    ensures !IsSuffix("ic", w) && !IsSuffix("ance", w) && !IsSuffix("ence", w) && !IsSuffix("able", w)
             && !IsSuffix("ible", w) && !IsSuffix("ate", w) && !IsSuffix("ive", w) && !IsSuffix("ize", w)
             && !IsSuffix("iti", w)
  {
    NotSuffix("ic", w, 0);
    NotSuffix("ance", w, 0);
    NotSuffix("ence", w, 0);
    NotSuffix("able", w, 0);
    NotSuffix("ible", w, 0);
    NotSuffix("ate", w, 0);
    NotSuffix("ive", w, 0);
    NotSuffix("ize", w, 0);
    NotSuffix("iti", w, 0);
  }

  lemma NoRootOfStep4EndsInLSecond(w: string)
    requires w != "" && w[|w| - 1] == 'l'
    ensures !IsSuffix("ism", w) && !IsSuffix("ion", w) && !IsSuffix("er", w) && !IsSuffix("ous", w)
             && !IsSuffix("ant", w) && !IsSuffix("ent", w)
  {
    NotSuffix("ism", w, 0);
    NotSuffix("ion", w, 0);
    NotSuffix("er", w, 0);
    NotSuffix("ous", w, 0);
    NotSuffix("ant", w, 0);
    NotSuffix("ent", w, 0);
  }

  /** Step 4 leaves a final l after other letters. */
  lemma Step4FinalL(w: string, p2: int)
    requires |w| >= 2 && w[|w| - 1] == 'l' && w[|w| - 2] !in "a"
    ensures Step4(w, p2) == w
  {
    NotSuffix("al", w, 1);
    hide Step4, IsSuffix;
    NoRootOfStep4EndsInLFirst(w);
    NoRootOfStep4EndsInLSecond(w);
    Step4LeavesAlone(w, p2);
  }

  lemma NoRootOfStep4EndsInIFirst(w: string)
    requires w != "" && w[|w| - 1] == 'i'
    ensures !IsSuffix("ic", w) && !IsSuffix("ance", w) && !IsSuffix("ence", w) && !IsSuffix("able", w)
             && !IsSuffix("ible", w) && !IsSuffix("ate", w) && !IsSuffix("ive", w) && !IsSuffix("ize", w)
             && !IsSuffix("al", w)
  {
    NotSuffix("ic", w, 0);
    NotSuffix("ance", w, 0);
    NotSuffix("ence", w, 0);
    NotSuffix("able", w, 0);
    NotSuffix("ible", w, 0);
    NotSuffix("ate", w, 0);
    NotSuffix("ive", w, 0);
    NotSuffix("ize", w, 0);
    NotSuffix("al", w, 0);
  }

  lemma NoRootOfStep4EndsInISecond(w: string)
    requires w != "" && w[|w| - 1] == 'i'
    ensures !IsSuffix("ism", w) && !IsSuffix("ion", w) && !IsSuffix("er", w) && !IsSuffix("ous", w)
             && !IsSuffix("ant", w) && !IsSuffix("ent", w)
  {
    NotSuffix("ism", w, 0);
    NotSuffix("ion", w, 0);
    NotSuffix("er", w, 0);
    NotSuffix("ous", w, 0);
    NotSuffix("ant", w, 0);
    NotSuffix("ent", w, 0);
  }

  /** Step 4 leaves a final i after other letters. */
  lemma Step4FinalI(w: string, p2: int)
    requires |w| >= 2 && w[|w| - 1] == 'i' && w[|w| - 2] !in "t"
    ensures Step4(w, p2) == w
  {
    NotSuffix("iti", w, 1);
    hide Step4, IsSuffix;
    NoRootOfStep4EndsInIFirst(w);
    NoRootOfStep4EndsInISecond(w);
    Step4LeavesAlone(w, p2);
  }

  lemma SameStem(u: string, s: string, t: string)
    requires u != "" && Calm(s) && Calm(t) && |u| + |s| >= 3 && |u| + |t| >= 3
    requires !HasItsOwnStem(u + s) && !HasItsOwnStem(u + t)
    requires Core(Prepared(u) + s) == Core(Prepared(u) + t)
    ensures Stem(u + s) == Stem(u + t)
  {
    hide Core, Stem, HasItsOwnStem, Calm, Finished, Prepared;
    StemOfSum(u, s);
    StemOfSum(u, t);
  }

  lemma InsideIsLong(u: string)
    requires exists i :: Pair(Prepared(u), i)
    ensures u != "" && |Prepared(u)| >= 2 && |u| >= |Prepared(u)|
  {
    MarksAre(Stripped(u));
    hide Marked;
    var i :| Pair(Prepared(u), i);
    assert 0 <= i && i + 1 < |Prepared(u)|;
  }

  lemma R2InsideIs(y: string)
    requires R2Inside(y)
    ensures R1Inside(y) && exists i :: Pair(y, i)
  {
    hide R1, R2;
  }

  lemma AncyCores(y: string)
    requires R1(y + "ancy") == R1(y + "ance") == R1(y) && R2(y + "ancy") == R2(y + "ance") == R2(y) <= |y|
    ensures Core(y + "ancy") == Core(y + "ance") == Step5(y, R1(y), R2(y))
  {
    hide Core, Tail, R2, R1, Step5;
    YCore(y, "an", 'c');
    assert "an" + ['c', 'y'] == "ancy" && "an" + ['c', 'i'] == "anci";
    PlainCore(y, "ance");
    AnceTail(y, R1(y), R2(y));
  }

  lemma Step5Leaves(y: string, p1: int, p2: int)
    requires y != "" && y[|y| - 1] !in "el"
    ensures Step5(y, p1, p2) == y
  {
    hide Step5;
    Step5Rules(y[..|y| - 1], p1, p2, y[|y| - 1]);
    assert y[..|y| - 1] + [y[|y| - 1]] == y;
  }

  /** `ancy` and `ance` come to the same by way of `anci`, and go. */
  lemma AncyGoes(u: string)
    requires R2Inside(Prepared(u))
    ensures u != "" && Stem(u + "ancy") == Stem(u + "ance")
    ensures 'Y' !in u && u[|u| - 1] !in "el" ==> Stem(u + "ancy") == Stripped(u)
  {
    hide Stem, Core, Tail, Marked, R1, R2, R1Inside, R2Inside, HasItsOwnStem, Step5;
    var y := Prepared(u);
    R2InsideIs(y);
    InsideIsLong(u);
    LastLetter(u);
    hide Prepared, Stripped;
    R2Stays(y, "ancy");
    R2Stays(y, "ance");
    AncyCores(y);
    NoStemOfItsOwn(u + "ancy");
    NoStemOfItsOwn(u + "ance");
    SameStem(u, "ancy", "ance");
    if 'Y' !in u && u[|u| - 1] !in "el" {
      Step5Leaves(y, R1(y), R2(y));
      assert y + "" == y && Stripped(u) + "" == Stripped(u);
      StemIsSum(u, "ancy", "");
    }
  }

  lemma RegionsAgreeOn(y: string, c: string, s: string, t: string)
    requires R1Inside(y) && exists i :: Pair(c, i)
    ensures R1(y + (c + s)) == R1(y + (c + t)) == R1(y) <= |y|
    ensures R2(y + (c + s)) == R2(y + (c + t)) <= |y| + |c|
  {
    hide R1, R2, R1Inside, Pair;
    RegionsAgree(y, c, s, t);
    Split(y, c, s);
    Split(y, c, t);
  }

  lemma R1InsideIs(y: string)
    requires R1Inside(y)
    ensures exists i :: Pair(y, i)
  {
    hide Pair;
  }

  lemma IzeTails(y: string, p1: int, p2: int)
    requires p1 <= |y|
    ensures Tail(y + "izer", p1, p2) == Tail(y + "ization", p1, p2) == Tail(y + "ize", p1, p2)
  {
    hide Step2, Step3, Step4, Step5;
    Step2RulesFifth(y, p1);
    Step2Quiet(y + "ize", p1);
  }

  /** The agent and the noun of a verb in `ize` have its stem. */
  lemma IzeForms(u: string)
    requires R1Inside(Prepared(u))
    ensures Stem(u + "izer") == Stem(u + "ization") == Stem(u + "ize")
  {
    hide Stem, Core, Tail, R1, R2, R1Inside, HasItsOwnStem, Pair, Prepared;
    var y := Prepared(u);
    R1InsideIs(y);
    InsideIsLong(u);
    PairOf("iz", 0);
    RegionsAgreeOn(y, "iz", "er", "e");
    RegionsAgreeOn(y, "iz", "ation", "e");
    assert "iz" + "er" == "izer" && "iz" + "ation" == "ization" && "iz" + "e" == "ize";
    PlainCore(y, "izer");
    PlainCore(y, "ization");
    PlainCore(y, "ize");
    IzeTails(y, R1(y), R2(y + "ize"));
    NoStemOfItsOwn(u + "izer");
    NoStemOfItsOwn(u + "ization");
    NoStemOfItsOwn(u + "ize");
    SameStem(u, "izer", "ize");
    SameStem(u, "ization", "ize");
  }

  lemma PairOf(c: string, i: nat)
    requires i + 1 < |c| && c[i] in "aeiou" && c[i + 1] !in "aeiouy"
    ensures Pair(c, i)
  {}

  lemma AteTails(y: string, p1: int, p2: int)
    requires p1 <= |y|
    ensures Tail(y + "ational", p1, p2) == Tail(y + "ator", p1, p2) == Tail(y + "ate", p1, p2)
    ensures !IsSuffix("iz", y) ==> Tail(y + "ation", p1, p2) == Tail(y + "ate", p1, p2)
  {
    hide Step2, Step3, Step4, Step5, IsSuffix;
    Step2RulesFourth(y, p1);
    Step2RulesFifth(y, p1);
    Step2Quiet(y + "ate", p1);
  }

  /** The regions of a word in which more of the pair `at` follows. */
  lemma AtRegions(y: string, s: string)
    requires R1Inside(y)
    ensures R1(y + ("at" + s)) == R1(y) <= |y| && R2(y + ("at" + s)) == R2(y + "ate")
  {
    hide R1, R2, R1Inside, Pair;
    PairOf("at", 0);
    RegionsAgreeOn(y, "at", s, "e");
    assert "at" + "e" == "ate";
  }

  /** The nouns and adjectives of a verb in `ate` have its stem. */
  lemma AteForms(u: string)
    requires R1Inside(Prepared(u))
    ensures Stem(u + "ational") == Stem(u + "ator") == Stem(u + "ate")
    ensures !IsSuffix("iz", Prepared(u)) ==> Stem(u + "ation") == Stem(u + "ate")
  {
    hide Stem, Core, Tail, R1, R2, R1Inside, HasItsOwnStem, Pair, Prepared, IsSuffix;
    var y := Prepared(u);
    R1InsideIs(y);
    InsideIsLong(u);
    AtRegions(y, "ional");
    AtRegions(y, "or");
    AtRegions(y, "ion");
    assert "at" + "ional" == "ational" && "at" + "or" == "ator" && "at" + "ion" == "ation";
    AtRegions(y, "e");
    assert "at" + "e" == "ate";
    PlainCore(y, "ational");
    PlainCore(y, "ator");
    PlainCore(y, "ation");
    PlainCore(y, "ate");
    AteTails(y, R1(y), R2(y + "ate"));
    NoStemOfItsOwn(u + "ational");
    NoStemOfItsOwn(u + "ator");
    NoStemOfItsOwn(u + "ation");
    NoStemOfItsOwn(u + "ate");
    SameStem(u, "ational", "ate");
    SameStem(u, "ator", "ate");
    if !IsSuffix("iz", y) {
      SameStem(u, "ation", "ate");
    }
  }

  lemma RepairAt(y: string, p1: int)
    ensures Repair(y + "at", p1) == y + "ate"
  {
    hide Repair, EndsShort;
    var x := y + "at";
    assert x[|x| - 2..] == "at";
    RepairIs(x, p1);
    Split(y, "at", "e");
    assert "at" + "e" == "ate";
  }

  lemma RepairAtion(y: string, p1: int)
    requires p1 <= |y|
    ensures Repair(y + "ation", p1) == y + "ation"
  {
    hide Repair, EndsShort;
    var z := y + "ation";
    NotSuffix("at", z, 0);
    NotSuffix("bl", z, 0);
    NotSuffix("iz", z, 0);
    RepairIs(z, p1);
  }

  /** An ending with a vowel in front goes, and the stem is repaired. */
  lemma PastGoes(y: string, c: string, p1: int)
    requires |c| >= 2 && (c[0] in "aeiouy" || exists i :: Pair(y, i)) && c[|c| - 1] != 'e'
    ensures Step1b(y + (c + "ed"), p1) == Step1b(y + (c + "ing"), p1) == Repair(y + c, p1)
  {
    hide Step1b, Repair;
    var x := y + c;
    NotSuffix("e", x, 0);
    hide IsSuffix;
    assert x[|y|] == c[0];
    assert forall i | Pair(y, i) :: x[i] in "aeiouy";
    Step1bRules(x, p1);
    Split(y, c, "ed");
    Split(y, c, "ing");
  }

  /** The past and the progressive of a verb in `ate` lose their ending, and get the e back. */
  lemma AtPast(y: string, p1: int)
    requires p1 <= |y|
    ensures Step1b(y + "ated", p1) == Step1b(y + "ating", p1) == y + "ate"
    ensures Step1b(y + "ationed", p1) == y + "ation"
  {
    hide Step1b, Repair, Pair;
    PastGoes(y, "at", p1);
    PastGoes(y, "ation", p1);
    RepairAt(y, p1);
    RepairAtion(y, p1);
    assert "at" + "ed" == "ated" && "at" + "ing" == "ating" && "ation" + "ed" == "ationed";
  }

  /** Steps 2 to 5 see what steps 1b and 1c leave of a past or a progressive. */
  lemma PastCore(y: string, s: string, b: string)
    requires |s| >= 4 && s[|s| - 1] in "dg"
    requires s[|s| - 4] !in "ctrn" || (|s| >= 5 && s[|s| - 4] == 't' && s[|s| - 5] != 'u')
    requires s[|s| - 1] == 'd' ==> s[|s| - 3] != 'i'
    requires Step1c(Step1b(y + s, R1(y + s))) == b
    ensures Core(y + s) == Tail(b, R1(y + s), R2(y + s))
  {
    hide Core, Tail, Step1a, Step1b, Step1c, R1, R2, INVARIANTS;
    var w := y + s;
    if s[|s| - 1] == 'd' {
      NotSuffix("ied", w, 2);
    } else {
      NotSuffix("ied", w, 0);
    }
    hide IsSuffix;
    Step1aLeavesAlone(w);
    NotInvariant(w);
    CoreIs(w, w, b);
  }

  /** The past, the progressive and the noun in the past have the stem of a verb in `ate`. */
  lemma AtePastForms(u: string)
    requires R1Inside(Prepared(u))
    ensures Stem(u + "ated") == Stem(u + "ating") == Stem(u + "ate")
    ensures !IsSuffix("iz", Prepared(u)) ==> Stem(u + "ationed") == Stem(u + "ate")
  {
    hide Stem, Core, Tail, R1, R2, R1Inside, HasItsOwnStem, Pair, Prepared, IsSuffix, Step1b, Step1c;
    var y := Prepared(u);
    R1InsideIs(y);
    InsideIsLong(u);
    AtRegions(y, "ed");
    AtRegions(y, "ing");
    AtRegions(y, "ioned");
    AtRegions(y, "e");
    assert "at" + "ed" == "ated" && "at" + "ing" == "ating" && "at" + "ioned" == "ationed" && "at" + "e" == "ate";
    AtPast(y, R1(y));
    Step1cQuiet(y + "ate");
    Step1cQuiet(y + "ation");
    PastCore(y, "ated", y + "ate");
    PastCore(y, "ating", y + "ate");
    PastCore(y, "ationed", y + "ation");
    PlainCore(y, "ate");
    AteTails(y, R1(y), R2(y + "ate"));
    NoStemOfItsOwn(u + "ated");
    NoStemOfItsOwn(u + "ating");
    NoStemOfItsOwn(u + "ationed");
    NoStemOfItsOwn(u + "ate");
    SameStem(u, "ated", "ate");
    SameStem(u, "ating", "ate");
    if !IsSuffix("iz", y) {
      SameStem(u, "ationed", "ate");
    }
  }

  lemma FulTails(y: string, p1: int, p2: int)
    requires p1 <= |y|
    ensures Tail(y + "fulness", p1, p2) == Tail(y + "ful", p1, p2)
    ensures Tail(y + "ful", p1, p2) == Step5(Step4(y, p2), p1, p2)
  {
    hide Step2, Step3, Step4, Step5;
    Step2RulesFifth(y, p1);
    Step2FinalL(y + "ful", p1);
    Step3RulesSecond(y, p1, p2);
  }

  lemma FulnessCore(y: string)
    ensures Core(y + "fulness") == Tail(y + "fulness", R1(y + "fulness"), R2(y + "fulness"))
  {
    hide Core, Tail, Step1a, Step1b, Step1c, R1, R2, INVARIANTS;
    var w := y + "fulness";
    Split(y, "fulne", "ss");
    assert "fulne" + "ss" == "fulness";
    Step1aRules(y + "fulne");
    Step1bQuiet(w, R1(w));
    Step1cQuiet(w);
    NotInvariant(w);
    CoreIs(w, w, w);
  }

  /** `fulness` comes to `ful`, and that goes. */
  lemma FulForms(u: string)
    requires R1Inside(Prepared(u))
    ensures u != "" && Stem(u + "fulness") == Stem(u + "ful")
    ensures 'Y' !in u && u[|u| - 1] !in "ceilmnrst" ==> Stem(u + "fulness") == Stripped(u)
  {
    hide Stem, Core, Tail, R1, R2, R1Inside, HasItsOwnStem, Pair, Marked, Step4, Step5;
    var y := Prepared(u);
    R1InsideIs(y);
    InsideIsLong(u);
    LastLetter(u);
    hide Prepared, Stripped;
    PairOf("ful", 1);
    RegionsAgreeOn(y, "ful", "ness", "");
    assert "ful" + "ness" == "fulness" && "ful" + "" == "ful";
    FulnessCore(y);
    PlainCore(y, "ful");
    FulTails(y, R1(y), R2(y + "ful"));
    NoStemOfItsOwn(u + "fulness");
    NoStemOfItsOwn(u + "ful");
    SameStem(u, "fulness", "ful");
    if 'Y' !in u && u[|u| - 1] !in "ceilmnrst" {
      Step4Quiet(y, R2(y + "ful"));
      Step5Leaves(y, R1(y), R2(y + "ful"));
      assert y + "" == y && Stripped(u) + "" == Stripped(u);
      StemIsSum(u, "fulness", "");
    }
  }

  lemma IcTails(y: string, p1: int, p2: int)
    requires p1 <= |y|
    ensures Tail(y + "icate", p1, p2) == Tail(y + "ical", p1, p2) == Tail(y + "ic", p1, p2)
  {
    hide Step2, Step3, Step4, Step5;
    Step2Quiet(y + "icate", p1);
    Step2Quiet(y + "ic", p1);
    NotSuffix("tional", y + "ical", 2);
    Step2IcalStays(y, p1);
    Step3RulesFirst(y, p1, p2);
    Step3Quiet(y + "ic", p1, p2);
  }

  lemma Step2IcalStays(y: string, p1: int)
    ensures Step2(y + "ical", p1) == y + "ical"
  {
    var w := y + "ical";
    NotSuffix("tional", w, 2);
    hide IsSuffix, Step2;
    NoRootOfStep2EndsInLFirst(w);
    NoRootOfStep2EndsInLSecond(w);
    Step2LeavesAlone(w, p1);
  }

  /** What is made of an adjective in `ic` has its stem. */
  lemma IcForms(u: string)
    requires R1Inside(Prepared(u))
    ensures Stem(u + "icate") == Stem(u + "ical") == Stem(u + "ic")
  {
    hide Stem, Core, Tail, R1, R2, R1Inside, HasItsOwnStem, Pair, Prepared;
    var y := Prepared(u);
    R1InsideIs(y);
    InsideIsLong(u);
    PairOf("ic", 0);
    RegionsAgreeOn(y, "ic", "ate", "");
    RegionsAgreeOn(y, "ic", "al", "");
    assert "ic" + "ate" == "icate" && "ic" + "al" == "ical" && "ic" + "" == "ic";
    PlainCore(y, "icate");
    PlainCore(y, "ical");
    PlainCore(y, "ic");
    IcTails(y, R1(y), R2(y + "ic"));
    NoStemOfItsOwn(u + "icate");
    NoStemOfItsOwn(u + "ical");
    NoStemOfItsOwn(u + "ic");
    SameStem(u, "icate", "ic");
    SameStem(u, "ical", "ic");
  }

  lemma ReTails(y: string, p1: int, p2: int)
    requires p2 <= |y|
    ensures Tail(y + "reance", p1, p2) == Tail(y + "re", p1, p2) == y + "r"
  {
    hide Step2, Step3, Step4, Step5, EndsShort;
    Split(y, "re", "ance");
    Split(y, "rean", "ce");
    Split(y, "r", "e");
    assert "re" + "ance" == "reance" == "rean" + "ce" && "r" + "e" == "re" == ['r', 'e'] && "ce" == ['c', 'e'];
    Step2Quiet(y + "reance", p1);
    Step2Quiet(y + "re", p1);
    Step3FinalE(y + "rean", 'c', p1, p2);
    Step3FinalE(y, 'r', p1, p2);
    Step4FinalE(y, 'r', p2);
    Step4RulesFirst(y + "re", p2);
    Step5Rules(y + "r", p1, p2, 'a');
  }

  /** When step 4 lays an e bare it goes in step 5. */
  lemma ReForms(u: string)
    requires R2Inside(Prepared(u))
    ensures Stem(u + "reance") == Stem(u + "re")
    ensures 'Y' !in u ==> Stem(u + "reance") == Stripped(u) + "r"
  {
    hide Stem, Core, Tail, R1, R2, R1Inside, R2Inside, HasItsOwnStem, Pair, Prepared, Stripped;
    var y := Prepared(u);
    R2InsideIs(y);
    InsideIsLong(u);
    R2Stays(y, "reance");
    R2Stays(y, "re");
    PlainCore(y, "reance");
    PlainCore(y, "re");
    ReTails(y, R1(y), R2(y));
    NoStemOfItsOwn(u + "reance");
    NoStemOfItsOwn(u + "re");
    SameStem(u, "reance", "re");
    if 'Y' !in u {
      StemIsSum(u, "reance", "r");
    }
  }

  lemma RepairCy(y: string, p1: int)
    requires p1 <= |y|
    ensures Repair(y + "cy", p1) == y + "cy"
  {
    hide Repair, EndsShort;
    var x := y + "cy";
    NotSuffix("at", x, 0);
    NotSuffix("bl", x, 0);
    NotSuffix("iz", x, 0);
    RepairIs(x, p1);
  }

  lemma CyingIsCy(y: string, p1: int)
    requires p1 <= |y| && exists i :: Pair(y, i)
    ensures Step1c(Step1b(y + "cying", p1)) == y + "ci"
  {
    hide Step1b, Step1c, Repair, Pair;
    RepairCy(y, p1);
    PastGoes(y, "cy", p1);
    assert "cy" + "ing" == "cying";
    assert y != "" by {
      var i :| Pair(y, i);
      PairFits(y, i);
    }
    Step1cRules(y, 'c', 'a');
    assert y + "cy" == y + "c" + "y" && y + "ci" == y + "c" + "i";
  }

  lemma PairFits(y: string, i: int)
    requires Pair(y, i)
    ensures 0 <= i && i + 1 < |y|
  {}

  /** A y that step 1b lays bare becomes an i like any other. */
  lemma CyForms(u: string)
    requires R2Inside(Prepared(u))
    ensures u != "" && Stem(u + "cying") == Stem(u + "cy")
    ensures 'Y' !in u && u[|u| - 1] != 'n' ==> Stem(u + "cying") == Stripped(u) + "ci"
  {
    hide Stem, Core, Tail, R1, R2, R1Inside, R2Inside, HasItsOwnStem, Pair, Marked, Step1b, Step1c;
    var y := Prepared(u);
    R2InsideIs(y);
    InsideIsLong(u);
    LastLetter(u);
    hide Prepared, Stripped;
    R2Stays(y, "cying");
    R2Stays(y, "cy");
    CyingIsCy(y, R1(y));
    PastCore(y, "cying", y + "ci");
    YCore(y, "", 'c');
    assert "" + ['c', 'y'] == "cy" && "" + ['c', 'i'] == "ci";
    NoStemOfItsOwn(u + "cying");
    NoStemOfItsOwn(u + "cy");
    SameStem(u, "cying", "cy");
    if 'Y' !in u && u[|u| - 1] != 'n' {
      CiTail(y, R1(y), R2(y));
      StemIsSum(u, "cying", "ci");
    }
  }

  lemma CiTail(y: string, p1: int, p2: int)
    requires y != "" && y[|y| - 1] != 'n'
    ensures Tail(y + "ci", p1, p2) == y + "ci"
  {
    var w := y + "ci";
    Step2CiStays(w, p1);
    hide Step2, Step3, Step4, Step5;
    Step3FinalI(w, p1, p2);
    Step4FinalI(w, p2);
    Split(y, "c", "i");
    assert "c" + "i" == "ci";
    Step5Rules(y + "c", p1, p2, 'i');
  }

  lemma Step2CiStays(w: string, p1: int)
    requires |w| >= 3 && w[|w| - 3] != 'n' && w[|w| - 2] == 'c' && w[|w| - 1] == 'i'
    ensures Step2(w, p1) == w
  {
    NotSuffix("anci", w, 2);
    NotSuffix("enci", w, 2);
    NotSuffix("ogi", w, 1);
    NotSuffix("li", w, 1);
    NotSuffix("aliti", w, 1);
    NotSuffix("biliti", w, 1);
    NotSuffix("iviti", w, 1);
    hide IsSuffix, Step2;
    NoRootOfStep2EndsInI(w);
    Step2LeavesAlone(w, p1);
  }

  // ---------------------------------------------------------------- a final y

  lemma PreparedAy(u: string)
    requires u != ""
    ensures Prepared(u + "ay") == Prepared(u) + "aY" && Stripped(u + "ay") == Stripped(u) + "ay"
  {
    assert Stripped(u + "ay") == Stripped(u) + "ay";
    var a := Stripped(u);
    var m := Marked(a) + "aY";
    MarksAre(a);
    forall i | 0 <= i < |a| + 2 ensures m[i] == MarkOne(Previous(m, i), (a + "ay")[i]) {
      LettersAre(Previous(m, i));
      assert 0 < i <= |a| ==> m[i - 1] == Marked(a)[i - 1];
    }
    hide Marked, MarkOne;
    MarkedUnique(a + "ay", m);
  }

  lemma AyCore(y: string)
    ensures Core(y + "aY") == y + "aY"
  {
    hide Core, Tail, Step1a, Step1b, Step1c, R1, R2, INVARIANTS;
    var w := y + "aY";
    Step1aQuiet(w);
    Step1bQuiet(w, R1(w));
    Step1cRules(y, 'a', 'a');
    assert y + ['a'] + "Y" == w;
    NotInvariant(w);
    CoreIs(w, w, w);
    QuietTail(w, R1(w), R2(w));
  }

  /** A y after a vowel is a consonant: it is marked, stays, and is a y again in the end. */
  lemma AyStays(u: string)
    requires u != "" && 'Y' !in u
    ensures Stem(u + "ay") == Stripped(u) + "ay"
  {
    hide Stem, Core, Marked, Unmarked, HasItsOwnStem, Stripped;
    NoStemOfItsOwn(u + "ay");
    StemIs(u + "ay");
    PreparedAy(u);
    AyCore(Prepared(u));
    MarksEnd(u);
    assert (Stripped(u) + "ay")[|Stripped(u) + "ay"| - 1] == 'y';
    assert (Prepared(u) + "aY")[|Prepared(u) + "aY"| - 1] == 'Y';
  }

  lemma MarksEnd(u: string)
    requires 'Y' !in u
    ensures Unmarked(Prepared(u) + "aY") == Stripped(u) + "ay"
  {
    hide Prepared, Marked, Stripped;
    UnmarkedPrepared(u, "a");
    var m := Prepared(u) + "a";
    assert Unmarked(m + "Y") == Unmarked(m) + "y";
    assert m + "Y" == Prepared(u) + "aY" && Stripped(u) + "a" + "y" == Stripped(u) + "ay";
  }

  /** A y after a consonant that begins no suffix becomes an i, and stays one. */
  lemma ByBecomesI(u: string)
    requires u != "" && u != "'" && 'Y' !in u
    ensures Stem(u + "by") == Stripped(u) + "bi"
  {
    hide Stem, Core, Tail, R1, R2, HasItsOwnStem, Marked, Stripped;
    var y := Prepared(u);
    assert y != "" by {
      MarksAre(Stripped(u));
      StrippedIsEmpty(u);
    }
    YCore(y, "", 'b');
    assert "" + ['b', 'y'] == "by" && "" + ['b', 'i'] == "bi";
    BiTail(y, R1(y + "by"), R2(y + "by"));
    NoStemOfItsOwn(u + "by");
    StemIsSum(u, "by", "bi");
  }

  lemma StrippedIsEmpty(u: string)
    ensures Stripped(u) == "" <==> u == "" || u == "'"
  {}

  lemma BiTail(y: string, p1: int, p2: int)
    ensures Tail(y + "bi", p1, p2) == y + "bi"
  {
    hide Step2, Step3, Step4, Step5;
    var w := y + "bi";
    Step2FinalI(w, p1);
    Step3FinalI(w, p1, p2);
    Step4FinalI(w, p2);
    Split(y, "b", "i");
    assert "b" + "i" == "bi";
    Step5Rules(y + "b", p1, p2, 'i');
  }

  // ---------------------------------------------------------------- apostrophes and words that are left alone

  /** An apostrophe in front is no part of the word. */
  lemma LeadingApostrophe(w: string)
    requires |w| >= 3 && w[0] != '\'' && !HasItsOwnStem(w)
    ensures Stem("'" + w) == Stem(w)
  {
    hide Stem, Core, Marked, Unmarked;
    var v := "'" + w;
    assert v[0] == '\'' && v[1..] == w;
    assert Stripped(v) == w && Stripped(w) == w;
    assert !HasItsOwnStem(v);
    StemIs(v);
    StemIs(w);
  }

  /** The genitives of a word have its stem. */
  lemma Genitives(u: string)
    requires R2Inside(Prepared(u)) && !HasItsOwnStem(u)
    requires !IsSuffix("'", Prepared(u)) && !IsSuffix("'s", Prepared(u))
    ensures Stem(u + "'s") == Stem(u + "'") == Stem(u)
  {
    hide Stem, Core, R1, R2, R1Inside, R2Inside, HasItsOwnStem, IsSuffix, Pair, Prepared, Step1a;
    var y := Prepared(u);
    R2InsideIs(y);
    InsideIsLong(u);
    R2Stays(y, "'s");
    R2Stays(y, "'");
    Step1aPossessives(y);
    CoreDepends(y, y + "'s");
    CoreDepends(y, y + "'");
    NoStemOfItsOwn(u + "'s");
    NoStemOfItsOwn(u + "'");
    R2InsideIsLong(u);
    assert u + "" == u && y + "" == y;
    SameStem(u, "'s", "");
    SameStem(u, "'", "");
  }

  lemma CoreDepends(y: string, z: string)
    requires Step1a(y) == Step1a(z) && R1(y) == R1(z) && R2(y) == R2(z)
    ensures Core(y) == Core(z)
  {
    hide Step1a, R1, R2, LaterSteps, INVARIANTS;
  }

  lemma R2InsideIsLong(u: string)
    requires R2Inside(Prepared(u))
    ensures |u| >= 3
  {
    hide R1, R2, R1Inside;
    var y := Prepared(u);
    R2InsideIs(y);
    InsideIsLong(u);
    hide Prepared;
    RegionsAre(y);
    RegionIs(y, 0);
    hide RegionStart;
    var i :| R1(y) <= i && Pair(y, i);
    var j :| Pair(y, j);
    assert i + 1 < |y|;
  }

  /** Eight words are left alone once their plural is gone. */
  lemma InvariantsStay(w: string)
    requires || w == "inning" || w == "outing" || w == "canning" || w == "herring" || w == "earring"
             || w == "proceed" || w == "exceed" || w == "succeed"
    ensures Stem(w) == w && Stem(w + "s") == w
  {
    hide Stem, LaterSteps, Marked, R1, R2;
    hide Step1a;
    InvariantsAre(w);
    InvariantShape(w);
    InvariantStep1a(w);
    NothingPrepared(w);
    NothingPrepared(w + "s");
    NoStemOfItsOwn(w);
    NoStemOfItsOwn(w + "s");
    StemIs(w);
    StemIs(w + "s");
  }

  lemma NothingPrepared(w: string)
    requires forall i | 0 <= i < |w| :: w[i] != 'y' && w[i] != '\''
    ensures Prepared(w) == w == Stripped(w)
  {
    MarksAre(w);
    hide Marked;
    assert forall i | 0 <= i < |w| :: Marked(w)[i] == w[i];
  }

  lemma InvariantShape(w: string)
    requires || w == "inning" || w == "outing" || w == "canning" || w == "herring" || w == "earring"
             || w == "proceed" || w == "exceed" || w == "succeed"
    ensures 6 <= |w| <= 7 && (w[|w| - 1] == 'g' || (w[|w| - 1] == 'd' && w[|w| - 3] == 'e')) && w[|w| - 4] != 'y'
    ensures w[0] in "aeiouy" || w[1] in "aeiouy" || w[2] in "aeiouy"
    ensures forall i | 0 <= i < |w| :: w[i] != 'y' && w[i] != '\''
  {}

  lemma InvariantStep1a(w: string)
    requires |w| >= 6 && (w[|w| - 1] == 'g' || (w[|w| - 1] == 'd' && w[|w| - 3] == 'e'))
    requires w[0] in "aeiouy" || w[1] in "aeiouy" || w[2] in "aeiouy"
    ensures Step1a(w) == Step1a(w + "s") == w
  {
    hide Step1a;
    if w[|w| - 1] == 'g' {
      NotSuffix("ied", w, 0);
    } else {
      NotSuffix("ied", w, 2);
    }
    hide IsSuffix;
    Step1aLeavesAlone(w);
    EndsOtherwise(w);
    Step1aPlainS(w);
  }

  // ---------------------------------------------------------------- where the regions begin

  /** No vowel is followed by a non-vowel, so that no region begins inside. */
  ghost predicate Pairless(y: string) {
    forall i :: !Pair(y, i)
  }

  /** What begins like none of the three beginnings. */
  lemma NoBeginning(y: string, s: string)
    requires Pairless(y) && s != ""
    requires s[0] !in "argcomne" || (s[0] == 'e' && (|s| == 1 || s[1] != 'n'))
    ensures !("arsen" <= y + s) && !("commun" <= y + s) && !("gener" <= y + s)
  {
    var w := y + s;
    if |y| >= 2 {
      assert !Pair(y, 0);
      assert w[0] == y[0] && w[1] == y[1];
    }
    if |y| >= 3 {
      assert !Pair(y, 1);
      assert w[2] == y[2];
    }
    if |y| <= 2 {
      assert w[|y|] == s[0] && (|s| > 1 ==> w[|y| + 1] == s[1]);
    }
  }

  lemma PairlessRegions(y: string, s: string)
    requires Pairless(y) && s != ""
    requires s[0] !in "argcomne" || (s[0] == 'e' && (|s| == 1 || s[1] != 'n'))
    ensures |y| < R1(y + s) <= R2(y + s) <= |y + s|
    ensures R2(y + s) == |y + s| || (R1(y + s) <= R2(y + s) - 2 && Pair(y + s, R2(y + s) - 2))
  {
    hide R1, R2, RegionStart;
    var w := y + s;
    NoBeginning(y, s);
    RegionsAre(w);
    RegionIs(w, 0);
    RegionIs(w, R1(w));
    var p := R1(w);
    assert p <= |y| ==> Pair(w, p - 2);
    assert p <= |y| ==> Pair(y, p - 2);
  }

  lemma TooShort(rules: seq<Rule>, region: int, w: string, p1: int, p2: int)
    requires (forall m | 0 <= m < |rules| :: |rules[m].suffix| >= 2) && |w| - 2 < region
    ensures RuleStep(rules, region, w, p1, p2) == w
  {
    hide Apply;
  }

  lemma LengthenedAreLong()
    ensures forall m | 0 <= m < |LENGTHENED| :: |LENGTHENED[m].suffix| >= 2
  {}

  lemma ResidualAreLong()
    ensures forall m | 0 <= m < |RESIDUAL| :: |RESIDUAL[m].suffix| >= 2
  {}

  /** What begins a letter before a region cannot lose a suffix in it. */
  lemma TooShortForSteps(w: string, p1: int, p2: int)
    ensures |w| - 2 < p1 ==> Step3(w, p1, p2) == w
    ensures |w| - 2 < p2 ==> Step4(w, p2) == w
  {
    hide RuleStep, LENGTHENED, RESIDUAL;
    LengthenedAreLong();
    ResidualAreLong();
    if |w| - 2 < p1 {
      TooShort(LENGTHENED, p1, w, p1, p2);
    }
    if |w| - 2 < p2 {
      TooShort(RESIDUAL, p2, w, 0, p2);
    }
  }

  /** Outside R1 a final e stays, whatever comes before it. */
  lemma FinalEOutside(u: string)
    requires Pairless(Prepared(u)) && |u| >= 2 && 'Y' !in u
    ensures Stem(u + "e") == Stripped(u) + "e"
  {
    hide Stem, Core, Step2, Step3, Step4, Step5, R1, R2, HasItsOwnStem, Pairless, EndsShort;
    var y := Prepared(u);
    NotHow(u);
    hide Prepared, Stripped;
    PairlessRegions(y, "e");
    PlainCore(y, "e");
    var p1, p2 := R1(y + "e"), R2(y + "e");
    Step2Quiet(y + "e", p1);
    TooShortForSteps(y + "e", p1, p2);
    Step5Rules(y, p1, p2, 'a');
    StemIsSum(u, "e", "e");
  }

  /** Of the words with a stem of their own one ends in e. */
  lemma OnlyHowe(u: string)
    ensures HasItsOwnStem(u + "e") <==> u == "how"
  {
    var w := u + "e";
    assert w[|w| - 1] == 'e' && w[..|w| - 1] == u;
    assert "how" + "e" == "howe" && "howe"[..3] == "how";
  }

  lemma NotHow(u: string)
    requires Pairless(Prepared(u))
    ensures !HasItsOwnStem(u + "e")
  {
    hide HasItsOwnStem;
    OnlyHowe(u);
    NothingPrepared("how");
    assert Pair("how", 1);
  }

  /** In R1 alone a final e goes, unless it follows a short syllable. */
  lemma FinalEInR1(u: string)
    requires OnlyR1Inside(Prepared(u)) && 'Y' !in u && u != "how"
    ensures u != ""
    ensures u[|u| - 1] !in "tvz" ==>
              Stem(u + "e") == if EndsShort(Prepared(u)) then Stripped(u) + "e" else Stripped(u)
  {
    hide Stem, Core, Step2, Step3, Step4, Step5, R1, R2, HasItsOwnStem, R1Inside, EndsShort, Pair, Marked;
    var y := Prepared(u);
    OnlyR1InsideIs(y);
    InsideIsLong(u);
    LastLetter(u);
    OnlyHowe(u);
    hide Prepared, Stripped;
    R2Beyond(y, "e");
    PlainCore(y, "e");
    if u[|u| - 1] !in "tvz" {
      EInR1Tail(y, R1(y), R2(y + "e"));
      FinishE(u, EndsShort(y));
    }
  }

  lemma OnlyR1InsideIs(y: string)
    requires OnlyR1Inside(y)
    ensures exists i :: Pair(y, i)
    ensures R1Inside(y)
  {
    hide R1, R2, Pair;
  }

  lemma EInR1Tail(y: string, p1: int, p2: int)
    requires y != "" && y[|y| - 1] !in "tvz" && p1 <= |y| < p2
    ensures Tail(y + "e", p1, p2) == if EndsShort(y) then y + "e" else y
  {
    hide Step2, Step3, Step4, Step5, EndsShort;
    var x, c := y[..|y| - 1], y[|y| - 1];
    assert x + [c, 'e'] == y + "e";
    Step2Quiet(y + "e", p1);
    Step3FinalE(x, c, p1, p2);
    TooShortForSteps(y + "e", p1, p2);
    Step5Rules(y, p1, p2, 'a');
  }

  lemma FinishE(u: string, kept: bool)
    requires u != "" && |u| >= 2 && 'Y' !in u && !HasItsOwnStem(u + "e")
    requires Core(Prepared(u) + "e") == if kept then Prepared(u) + "e" else Prepared(u)
    ensures Stem(u + "e") == if kept then Stripped(u) + "e" else Stripped(u)
  {
    hide Stem, Core, HasItsOwnStem, Prepared, Stripped;
    if kept {
      StemIsSum(u, "e", "e");
    } else {
      assert Prepared(u) + "" == Prepared(u) && Stripped(u) + "" == Stripped(u);
      StemIsSum(u, "e", "");
    }
  }

  /** In R2 a final e goes whatever it follows. */
  lemma FinalEInR2(u: string)
    requires R2Inside(Prepared(u)) && 'Y' !in u && !HasItsOwnStem(u + "e")
    ensures u != ""
    ensures u[|u| - 1] !in "ctvzl" ==> Stem(u + "e") == Stripped(u)
  {
    hide Stem, Core, Step2, Step3, Step4, Step5, R1, R2, HasItsOwnStem, R1Inside, R2Inside, EndsShort, Pair, Marked;
    var y := Prepared(u);
    R2InsideIs(y);
    InsideIsLong(u);
    LastLetter(u);
    hide Prepared, Stripped;
    R2Stays(y, "e");
    PlainCore(y, "e");
    if u[|u| - 1] !in "ctvzl" {
      EInR2Tail(y, R1(y), R2(y));
      FinishE(u, false);
    }
  }

  lemma EInR2Tail(y: string, p1: int, p2: int)
    requires y != "" && y[|y| - 1] !in "ctvzl" && p2 <= |y|
    ensures Tail(y + "e", p1, p2) == y
  {
    hide Step2, Step3, Step4, Step5, EndsShort;
    var x, c := y[..|y| - 1], y[|y| - 1];
    assert x + [c, 'e'] == y + "e";
    Step2Quiet(y + "e", p1);
    Step3FinalE(x, c, p1, p2);
    Step4FinalE(x, c, p2);
    Step5Rules(y, p1, p2, 'a');
  }

  lemma LlTail(y: string, p1: int, p2: int)
    ensures Tail(y + "ll", p1, p2) == if p2 <= |y| + 1 then y + "l" else y + "ll"
  {
    hide Step2, Step3, Step4, Step5, EndsShort;
    var w := y + "ll";
    Step2FinalL(w, p1);
    Step3FinalL(w, p1, p2);
    Step4FinalL(w, p2);
    Step5Rules(y, p1, p2, 'a');
  }

  /** A double l is undone in R2. */
  lemma DoubleLInside(u: string)
    requires R2Inside(Prepared(u)) && 'Y' !in u
    ensures Stem(u + "ll") == Stripped(u) + "l"
  {
    hide Stem, Core, Tail, R1, R2, HasItsOwnStem, R1Inside, R2Inside, Pair, Prepared, Stripped;
    var y := Prepared(u);
    R2InsideIs(y);
    InsideIsLong(u);
    R2Stays(y, "ll");
    PlainCore(y, "ll");
    LlTail(y, R1(y), R2(y));
    NoStemOfItsOwn(u + "ll");
    StemIsSum(u, "ll", "l");
  }

  /** Without a region a double l and `izer` stay. */
  lemma EndingsOutside(u: string)
    requires Pairless(Prepared(u)) && u != "" && 'Y' !in u
    ensures Stem(u + "ll") == Stripped(u) + "ll" && Stem(u + "izer") == Stripped(u) + "izer"
  {
    hide Stem, Core, Tail, R1, R2, HasItsOwnStem, Pairless, Prepared, Stripped;
    var y := Prepared(u);
    PairlessRegions(y, "ll");
    PairlessRegions(y, "izer");
    PlainCore(y, "ll");
    PlainCore(y, "izer");
    LlTail(y, R1(y + "ll"), R2(y + "ll"));
    IzerOutside(y, R1(y + "izer"), R2(y + "izer"));
    NoStemOfItsOwn(u + "ll");
    NoStemOfItsOwn(u + "izer");
    StemIsSum(u, "ll", "ll");
    StemIsSum(u, "izer", "izer");
  }

  lemma IzerOutside(y: string, p1: int, p2: int)
    requires p1 > |y| && p2 > |y| + 2
    ensures Tail(y + "izer", p1, p2) == y + "izer"
  {
    hide Step2, Step3, Step4, Step5, EndsShort;
    Step2RulesFifth(y, p1);
    Step3Quiet(y + "izer", p1, p2);
    Split(y, "iz", "er");
    Split(y, "ize", "r");
    assert "iz" + "er" == "izer" == "ize" + "r";
    Step4RulesThird(y + "iz", p2);
    Step5Rules(y + "ize", p1, p2, 'r');
  }

  lemma EedShape(y: string)
    ensures Step1a(y + "eed") == y + "eed" && Step1a(y + "ee") == y + "ee"
  {
    var w := y + "eed";
    NotSuffix("ied", w, 2);
    hide Step1a, IsSuffix;
    Step1aLeavesAlone(w);
    Step1aQuiet(y + "ee");
  }

  /** Three of the words that are left alone end in `eed`. */
  lemma ThreeEndInEed(y: string)
    ensures y + "eed" in INVARIANTS <==> y == "proc" || y == "exc" || y == "succ"
  {
    var w := y + "eed";
    InvariantsAre(w);
    hide INVARIANTS;
    EndsInEed(y, "proc");
    EndsInEed(y, "exc");
    EndsInEed(y, "succ");
    assert "proc" + "eed" == "proceed" && "exc" + "eed" == "exceed" && "succ" + "eed" == "succeed";
    assert w[|w| - 1] == 'd';
  }

  lemma EndsInEed(y: string, x: string)
    ensures y + "eed" == x + "eed" <==> y == x
  {
    assert (y + "eed")[..|y + "eed"| - 3] == y && (x + "eed")[..|x + "eed"| - 3] == x;
  }

  /** `eed` stays outside R1. */
  lemma EedOutside(u: string)
    requires Pairless(Prepared(u)) && u != "" && 'Y' !in u
    ensures Stem(u + "eed") == Stripped(u) + "eed"
  {
    hide Stem, Core, Tail, R1, R2, HasItsOwnStem, Pairless, Prepared, Stripped, Step1a, Step1b, Step1c, INVARIANTS;
    var y := Prepared(u);
    var w := y + "eed";
    PairlessRegions(y, "eed");
    EedShape(y);
    ThreeEndInEed(y);
    NotPairless(y);
    Step1bDoubleE(y, R1(w));
    Step1cQuiet(w);
    CoreIs(w, w, w);
    QuietTail(w, R1(w), R2(w));
    NoStemOfItsOwn(u + "eed");
    StemIsSum(u, "eed", "eed");
  }

  lemma NotPairless(y: string)
    requires Pairless(y)
    ensures y != "proc" && y != "exc" && y != "succ"
  {
    assert Pair("proc", 2) && Pair("exc", 0) && Pair("succ", 1);
  }

  lemma EeTail(y: string, p1: int, p2: int)
    requires p1 <= |y|
    ensures Tail(y + "ee", p1, p2) == y + "e"
  {
    hide Step2, Step3, Step4, Step5;
    var x := y + "e";
    assert y + ['e', 'e'] == y + "ee" == x + "e";
    Step2Quiet(y + "ee", p1);
    Step3FinalE(y, 'e', p1, p2);
    Step4FinalE(y, 'e', p2);
    Step5Rules(x, p1, p2, 'a');
  }

  /** Inside R1 `eed` becomes `ee`, and that loses its last e. */
  lemma EedInside(u: string)
    requires R1Inside(Prepared(u)) && 'Y' !in u
    ensures Stem(u + "ee") == Stripped(u) + "e"
    ensures var y := Prepared(u); y != "proc" && y != "exc" && y != "succ" ==> Stem(u + "eed") == Stripped(u) + "e"
  {
    hide Stem, Core, Tail, R1, R2, HasItsOwnStem, Prepared, Stripped, Step1a, Step1b, Step1c, INVARIANTS;
    hide R1Inside, Pair;
    var y := Prepared(u);
    R1InsideIs(y);
    InsideIsLong(u);
    R1Stays(y, "eed");
    R1Stays(y, "ee");
    EedShape(y);
    ThreeEndInEed(y);
    Step1bDoubleE(y, R1(y));
    Step1cQuiet(y + "ee");
    PlainCore(y, "ee");
    EeTail(y, R1(y), R2(y + "eed"));
    EeTail(y, R1(y), R2(y + "ee"));
    NoStemOfItsOwn(u + "eed");
    NoStemOfItsOwn(u + "ee");
    StemIsSum(u, "ee", "e");
    if y != "proc" && y != "exc" && y != "succ" {
      CoreIs(y + "eed", y + "eed", y + "ee");
      StemIsSum(u, "eed", "e");
    }
  }

  lemma ShortEnd(y: string)
    requires EndsShort(y)
    ensures |y| >= 2 && y[|y| - 1] !in "aeiouy" && y[|y| - 2] in "aeiouy"
    ensures |y| >= 3 ==> y[|y| - 1] !in "wxY" && y[|y| - 3] !in "aeiouy"
    ensures Pair(y, |y| - 2)
  {
    LettersAre(y[|y| - 1]);
    LettersAre(y[|y| - 2]);
    if |y| >= 3 {
      LettersAre(y[|y| - 3]);
    }
  }

  /** A past or a progressive that is no word to be left alone, and what step 1a makes of it. */
  lemma PastShape(y: string)
    requires |y| >= 2 && y[|y| - 1] != 'i' && y[|y| - 1] != 'e'
    requires y[|y| - 1] !in "tnr" || (y[|y| - 2] in "aeiouy" && (|y| >= 3 ==> y[|y| - 3] !in "aeiouy"))
    ensures Step1a(y + "ing") == y + "ing" && Step1a(y + "ed") == y + "ed"
    ensures y + "ing" !in INVARIANTS && y + "ed" !in INVARIANTS
  {
    hide Step1a, INVARIANTS;
    var v, w := y + "ing", y + "ed";
    NotSuffix("ied", v, 0);
    NotSuffix("ied", w, 2);
    hide IsSuffix;
    Step1aLeavesAlone(v);
    Step1aLeavesAlone(w);
    assert v[|v| - 4] == y[|y| - 1] && v[|v| - 5] == y[|y| - 2] && (|y| >= 3 ==> v[|v| - 6] == y[|y| - 3]);
    assert w[|w| - 3] == y[|y| - 1] && w[|w| - 1] == 'd';
    NotAmong(v);
    NotAmongPasts(w);
  }

  lemma NotAmong(v: string)
    requires |v| >= 5 && v[|v| - 1] == 'g'
    requires v[|v| - 4] !in "tnr" || (v[|v| - 5] in "aeiouy" && (|v| >= 6 ==> v[|v| - 6] !in "aeiouy"))
    ensures v !in INVARIANTS
  {
    InvariantsAre(v);
    hide INVARIANTS;
  }

  lemma NotAmongPasts(w: string)
    requires |w| >= 3 && w[|w| - 1] == 'd' && w[|w| - 3] != 'e'
    ensures w !in INVARIANTS
  {
    InvariantsAre(w);
    hide INVARIANTS;
  }

  lemma VowelGoes(y: string, p1: int)
    requires y != "" && y[|y| - 1] != 'e' && exists i :: Pair(y, i)
    ensures Step1b(y + "ing", p1) == Step1b(y + "ed", p1) == Repair(y, p1)
  {
    hide Step1b, Repair;
    NotSuffix("e", y, 0);
    hide IsSuffix;
    var i :| Pair(y, i);
    assert y[i] in "aeiouy";
    Step1bRules(y, p1);
  }

  /** Of the words with a stem of their own three end in `ing`. */
  lemma ThreeEndInIng(u: string)
    requires HasItsOwnStem(u + "ing")
    ensures u == "dy" || u == "ly" || u == "ty"
  {
    var w := u + "ing";
    assert w[|w| - 1] == 'g' && w[|w| - 2] == 'n' && w[..|w| - 3] == u;
    assert "dying"[..2] == "dy" && "lying"[..2] == "ly" && "tying"[..2] == "ty";
  }

  lemma OwnStemOfPast(u: string)
    requires |u| >= 2 && exists i :: Pair(Prepared(u), i)
    ensures !HasItsOwnStem(u + "ing") && !HasItsOwnStem(u + "ed")
  {
    NoStemOfItsOwn(u + "ed");
    hide HasItsOwnStem;
    if HasItsOwnStem(u + "ing") {
      ThreeEndInIng(u);
      MarksAre(u);
      hide Marked;
      assert false;
    }
  }

  lemma HowIsNotShort(u: string)
    requires EndsShort(Prepared(u))
    ensures u != "how"
  {
    NothingPrepared("how");
    hide Prepared;
    assert "how"[2] == 'w';
  }

  /** After a short syllable at which R1 begins the e comes back, and stays. */
  lemma ShortWordForms(u: string)
    requires R1Inside(Prepared(u)) && R1(Prepared(u)) == |Prepared(u)| && EndsShort(Prepared(u)) && 'Y' !in u
    ensures Stem(u + "ing") == Stem(u + "ed") == Stem(u + "e") == Stripped(u) + "e"
  {
    hide Stem, Core, Tail, R1, R2, HasItsOwnStem, Step1a, Step1b, Step1c, INVARIANTS, Repair, Marked, R1Inside;
    var y := Prepared(u);
    ShortEnd(y);
    LastLetter(u);
    HowIsNotShort(u);
    hide EndsShort, Prepared, Stripped;
    InsideIsLong(u);
    assert OnlyR1Inside(y) by {
      assert forall i | R1(y) <= i :: !Pair(y, i);
    }
    hide Pair;
    R2Beyond(y, "ing");
    R2Beyond(y, "ed");
    R2Beyond(y, "e");
    PastShape(y);
    RepairIs(y, R1(y));
    VowelGoes(y, R1(y));
    Step1cQuiet(y + "e");
    CoreIs(y + "ing", y + "ing", y + "e");
    CoreIs(y + "ed", y + "ed", y + "e");
    PlainCore(y, "e");
    ShortETail(y, R2(y + "ing"));
    ShortETail(y, R2(y + "ed"));
    ShortETail(y, R2(y + "e"));
    OwnStemOfPast(u);
    OnlyHowe(u);
    StemIsSum(u, "ing", "e");
    StemIsSum(u, "ed", "e");
    StemIsSum(u, "e", "e");
  }

  lemma ShortETail(y: string, p2: int)
    requires EndsShort(y) && p2 > |y|
    ensures Tail(y + "e", |y|, p2) == y + "e"
  {
    hide Step2, Step3, Step4, Step5, EndsShort;
    Step2Quiet(y + "e", |y|);
    TooShortForSteps(y + "e", |y|, p2);
    Step5Rules(y, |y|, p2, 'a');
  }

  /** A stem that steps 2 to 5 pass over, and that is neither a doubled letter's nor one that lacks an e. */
  predicate Unrepaired(y: string) {
    && |y| >= 2 && y[|y| - 1] !in "ceilmnrstyY" && !IsSuffix("iz", y)
    && (y[|y| - 1] == y[|y| - 2] ==> y[|y| - 1] !in "bdfgp")
  }

  /** Otherwise the ending goes and nothing comes back. */
  lemma OtherPastForms(u: string)
    requires R1Inside(Prepared(u)) && 'Y' !in u
    requires !(R1(Prepared(u)) == |Prepared(u)| && EndsShort(Prepared(u)))
    requires Unrepaired(Prepared(u))
    ensures Stem(u + "ing") == Stem(u + "ed") == Stripped(u)
  {
    hide Stem, Core, Tail, R1, R2, HasItsOwnStem, Step1a, Step1b, Step1c, INVARIANTS, Repair, R1Inside, Pair, EndsShort;
    hide Prepared, Stripped;
    var y := Prepared(u);
    R1InsideIs(y);
    InsideIsLong(u);
    R1Stays(y, "ing");
    R1Stays(y, "ed");
    PastShape(y);
    NoRepair(y, R1(y));
    VowelGoes(y, R1(y));
    Step1cQuiet(y);
    CoreIs(y + "ing", y + "ing", y);
    CoreIs(y + "ed", y + "ed", y);
    QuietTail(y, R1(y), R2(y + "ing"));
    QuietTail(y, R1(y), R2(y + "ed"));
    OwnStemOfPast(u);
    assert y + "" == y && Stripped(u) + "" == Stripped(u);
    StemIsSum(u, "ing", "");
    StemIsSum(u, "ed", "");
  }

  lemma NoRepair(y: string, p1: int)
    requires Unrepaired(y) && !(p1 == |y| && EndsShort(y))
    ensures Repair(y, p1) == y
  {
    NotSuffix("at", y, 0);
    NotSuffix("bl", y, 0);
    hide Repair, EndsShort, IsSuffix;
    RepairIs(y, p1);
  }

  lemma AtInR2(y: string, s: string)
    requires OnlyR1Inside(y)
    ensures R1(y + ("at" + s)) == R1(y) <= |y| < R2(y + ("at" + s)) <= |y| + 2
  {
    hide R1, R2, RegionStart, R1Inside;
    var w := y + ("at" + s);
    OnlyR1InsideIs(y);
    R1Stays(y, "at" + s);
    R2Beyond(y, "at" + s);
    RegionsAre(w);
    assert w[|y|] == 'a' && w[|y| + 1] == 't';
    assert Pair(w, |y|);
    RegionIs(w, R1(w));
  }

  lemma AteInR1Tail(y: string, p1: int, p2: int)
    requires p1 <= |y| < p2 <= |y| + 2 && y != "" && y[|y| - 1] != 'c'
    ensures Tail(y + "ate", p1, p2) == Tail(y + "ator", p1, p2) == y + "at"
  {
    hide Step2, Step3, Step4, Step5, EndsShort, IsSuffix;
    AteTails(y, p1, p2);
    AteStaysInStep3(y, p1, p2);
    Step2Quiet(y + "ate", p1);
    Step4RulesFirst(y, p2);
    Split(y, "at", "e");
    assert "at" + "e" == "ate";
    Step5Rules(y + "at", p1, p2, 'a');
  }

  lemma AteStaysInStep3(y: string, p1: int, p2: int)
    requires y != "" && y[|y| - 1] != 'c'
    ensures Step3(y + "ate", p1, p2) == y + "ate"
  {
    var w := y + "ate";
    assert w[|w| - 1] == 'e' && w[|w| - 2] == 't' && w[|w| - 4] == y[|y| - 1];
    NotSuffix("icate", w, 3);
    NotSuffix("ative", w, 1);
    NotSuffix("alize", w, 1);
    hide Step3, IsSuffix;
    NoRootOfStep3EndsInE(w);
    Step3LeavesAlone(w, p1, p2);
  }

  /** In R1 alone `ator` becomes `ate` in step 2, loses nothing in step 4 and its e in step 5; `ative` loses `ive`. */
  lemma AtInR1(u: string)
    requires OnlyR1Inside(Prepared(u)) && 'Y' !in u
    ensures u != "" && Stem(u + "ative") == Stripped(u) + "at"
    ensures u[|u| - 1] != 'c' ==> Stem(u + "ator") == Stem(u + "ate") == Stripped(u) + "at"
  {
    hide Stem, Core, Tail, R1, R2, HasItsOwnStem, R1Inside, Pair, Marked;
    var y := Prepared(u);
    OnlyR1InsideIs(y);
    InsideIsLong(u);
    LastLetter(u);
    hide Prepared, Stripped, OnlyR1Inside;
    AtInR2(y, "ive");
    AtInR2(y, "or");
    AtInR2(y, "e");
    assert "at" + "ive" == "ative" && "at" + "or" == "ator" && "at" + "e" == "ate";
    PlainCore(y, "ative");
    PlainCore(y, "ator");
    PlainCore(y, "ate");
    AtiveInR1Tail(y, R1(y), R2(y + "ative"));
    NoStemOfItsOwn(u + "ative");
    NoStemOfItsOwn(u + "ator");
    NoStemOfItsOwn(u + "ate");
    StemIsSum(u, "ative", "at");
    if u[|u| - 1] != 'c' {
      AteInR1Tail(y, R1(y), R2(y + "ator"));
      AteInR1Tail(y, R1(y), R2(y + "ate"));
      StemIsSum(u, "ator", "at");
      StemIsSum(u, "ate", "at");
    }
  }

  lemma AtiveInR1Tail(y: string, p1: int, p2: int)
    requires p1 <= |y| < p2 <= |y| + 2
    ensures Tail(y + "ative", p1, p2) == y + "at"
  {
    hide Step2, Step3, Step4, Step5, EndsShort;
    Step2Quiet(y + "ative", p1);
    Step3RulesFirst(y, p1, p2);
    Split(y, "at", "ive");
    Split(y, "a", "t");
    assert "at" + "ive" == "ative" && "a" + "t" == "at";
    Step4RulesSecond(y + "at", p2);
    Step5Rules(y + "a", p1, p2, 't');
  }

  lemma DropTails(y: string, p1: int, p2: int)
    requires p1 <= |y| && y != "" && y[|y| - 1] !in "ceilmnrst"
    ensures p2 <= |y| ==> Tail(y + "ative", p1, p2) == Tail(y + "ment", p1, p2) == y
  {
    hide Step2, Step3, Step4, Step5, EndsShort, IsSuffix;
    Step2Quiet(y + "ative", p1);
    Step3RulesFirst(y, p1, p2);
    Step4Quiet(y, p2);
    MentTail(y, p1, p2);
    Step5Rules(y[..|y| - 1], p1, p2, y[|y| - 1]);
    assert y[..|y| - 1] + [y[|y| - 1]] == y;
  }

  lemma MentTail(y: string, p1: int, p2: int)
    ensures p2 > |y| ==> Tail(y + "ment", p1, p2) == y + "ment"
    ensures y != "" && y[|y| - 1] != 'e' && p2 <= |y| ==> Tail(y + "ment", p1, p2) == Step5(y, p1, p2)
  {
    hide Step2, Step3, Step4, Step5, EndsShort;
    Step2Quiet(y + "ment", p1);
    Step3Quiet(y + "ment", p1, p2);
    Split(y, "men", "t");
    assert "men" + "t" == "ment";
    Step5Rules(y + "men", p1, p2, 't');
    if y == "" || y[|y| - 1] != 'e' {
      assert y != "" ==> "e"[0] != y[|y| - 1];
      NotSuffixOne('e', y);
      Step4RulesThird(y, p2);
    } else {
      var x := y[..|y| - 1];
      assert x + "ement" == y + "ment";
      Step4RulesThird(x, p2);
    }
  }

  lemma NotSuffixOne(c: char, y: string)
    requires y == "" || y[|y| - 1] != c
    ensures !IsSuffix([c], y)
  {
    if y != "" {
      NotSuffix([c], y, 0);
    }
  }

  lemma BnessTail(y: string, p1: int, p2: int)
    requires p1 <= |y|
    ensures Tail(y + "bness", p1, p2) == y + "b"
  {
    hide Step2, Step3, Step4, Step5, EndsShort;
    var w := y + "bness";
    Step2FinalS(w, p1);
    Split(y, "b", "ness");
    assert "b" + "ness" == "bness";
    Step3RulesSecond(y + "b", p1, p2);
    Step4Quiet(y + "b", p2);
    Step5Rules(y, p1, p2, 'b');
  }

  lemma BnessCore(y: string)
    ensures Core(y + "bness") == Tail(y + "bness", R1(y + "bness"), R2(y + "bness"))
  {
    hide Core, Tail, Step1a, Step1b, Step1c, R1, R2, INVARIANTS;
    var w := y + "bness";
    Split(y, "bne", "ss");
    assert "bne" + "ss" == "bness";
    Step1aRules(y + "bne");
    Step1bQuiet(w, R1(w));
    Step1cQuiet(w);
    NotInvariant(w);
    CoreIs(w, w, w);
  }

  /** `ness` goes in R1. */
  lemma NessGoes(u: string)
    requires R1Inside(Prepared(u)) && 'Y' !in u
    ensures Stem(u + "bness") == Stripped(u) + "b"
  {
    hide Stem, Core, Tail, R1, R2, HasItsOwnStem, R1Inside, Pair, Prepared, Stripped;
    var y := Prepared(u);
    R1InsideIs(y);
    InsideIsLong(u);
    R1Stays(y, "bness");
    BnessCore(y);
    BnessTail(y, R1(y), R2(y + "bness"));
    NoStemOfItsOwn(u + "bness");
    StemIsSum(u, "bness", "b");
  }

  /** `ment` stays outside R2. */
  lemma MentOutside(u: string)
    requires OnlyR1Inside(Prepared(u)) && 'Y' !in u
    ensures Stem(u + "ment") == Stripped(u) + "ment"
  {
    hide Stem, Core, Tail, R1, R2, HasItsOwnStem, R1Inside, Pair, Prepared, Stripped;
    var y := Prepared(u);
    OnlyR1InsideIs(y);
    InsideIsLong(u);
    R2Beyond(y, "ment");
    PlainCore(y, "ment");
    MentTail(y, R1(y), R2(y + "ment"));
    NoStemOfItsOwn(u + "ment");
    StemIsSum(u, "ment", "ment");
  }

  /** In R2 `ative` goes in step 3 and `ment` in step 4. */
  lemma EndingsInR2(u: string)
    requires R2Inside(Prepared(u)) && 'Y' !in u
    ensures u != ""
    ensures u[|u| - 1] !in "ceilmnrst" ==> Stem(u + "ative") == Stem(u + "ment") == Stripped(u)
  {
    hide Stem, Core, Tail, R1, R2, HasItsOwnStem, R1Inside, R2Inside, Pair, Marked;
    var y := Prepared(u);
    R2InsideIs(y);
    InsideIsLong(u);
    LastLetter(u);
    hide Prepared, Stripped;
    R2Stays(y, "ative");
    R2Stays(y, "ment");
    PlainCore(y, "ative");
    PlainCore(y, "ment");
    if u[|u| - 1] !in "ceilmnrst" {
      DropTails(y, R1(y), R2(y));
      NoStemOfItsOwn(u + "ative");
      NoStemOfItsOwn(u + "ment");
      assert y + "" == y && Stripped(u) + "" == Stripped(u);
      StemIsSum(u, "ative", "");
      StemIsSum(u, "ment", "");
    }
  }

  // ---------------------------------------------------------------- some words

  /** R1 begins behind the first pair, if that is at the second letter. */
  lemma PairAt1(y: string)
    requires !("arsen" <= y) && !("commun" <= y) && !("gener" <= y)
    requires !(y < "arsen") && !(y < "commun") && !(y < "gener")
    requires Pair(y, 1) && !Pair(y, 0)
    ensures R1(y) == 3 && R1Inside(y)
  {
    hide R1, RegionStart;
    RegionsAre(y);
    RegionIs(y, 0);
  }

  lemma RegionsOfHesit()
    ensures Prepared("hesit") == "hesit" == Stripped("hesit") && R1("hesit") == 3 && R2Inside("hesit")
  {
    hide R1, RegionStart, R1Inside;
    var y := "hesit";
    NothingPrepared(y);
    hide Prepared, Stripped;
    assert y[0] == 'h';
    PairOf(y, 1);
    PairOf(y, 3);
    PairAt1(y);
  }

  lemma RegionsOfHop()
    ensures Prepared("hop") == "hop" == Stripped("hop") && R1("hop") == 3 && R1Inside("hop") && EndsShort("hop")
  {
    hide R1, RegionStart, R1Inside;
    var y := "hop";
    NothingPrepared(y);
    hide Prepared, Stripped;
    assert y[0] == 'h';
    PairOf(y, 1);
    PairAt1(y);
  }

  /** An example of what the laws come to. */
  lemma Examples()
    ensures Stem("hesitancy") == "hesit"
    ensures Stem("hoping") == Stem("hope") == "hope"
    ensures Stem("hopping") == Stem("hop's") == "hop"
  {
    hide Stem, R2Inside, R1Inside, R1, EndsShort, Prepared, Stripped;
    RegionsOfHesit();
    RegionsOfHop();
    AncyGoes("hesit");
    ShortWordForms("hop");
    NothingPrepared("ho");
    assert Vocal("ho") by {
      assert "ho"[1] == 'o';
    }
    PlainForms("ho");
    PastForms("ho");
    assert "hesit" + "ancy" == "hesitancy" && "hop" + "ing" == "hoping" && "hop" + "e" == "hope";
    assert "ho" + "pping" == "hopping" && "ho" + "p's" == "hop's" && "ho" + "p" == "hop";
  }
}

/**
 What the English stemmer is meant to do, as rules on words: the Porter2 algorithm, step by step, without cursors,
 tables or marks.  `Stem` is the meaning of the whole pipeline; the results here are that it never lengthens a
 word and never leaves a marked `Y` behind.
 */
module EnglishRules {
  import opened SnowballRuntime

  // ---------------------------------------------------------------- letters and regions

  predicate IsVowel(ch: char) {
    ch == 'a' || ch == 'e' || ch == 'i' || ch == 'o' || ch == 'u' || ch == 'y'
  }

  /** The letters that cannot close a short syllable. */
  predicate IsVowelOrWXY(ch: char) {
    IsVowel(ch) || ch == 'w' || ch == 'x' || ch == 'Y'
  }

  predicate HasVowel(w: string) {
    exists i :: 0 <= i < |w| && IsVowel(w[i])
  }

  /** Just past the first vowel and non-vowel in a row at or after `from`, or the end of the word. */
  function RegionStart(w: string, from: nat): nat
    requires from <= |w|
    decreases |w| - from
  {
    if from + 1 >= |w| then |w|
    else if IsVowel(w[from]) && !IsVowel(w[from + 1]) then from + 2
    else RegionStart(w, from + 1)
  }

  function R1(w: string): (p: nat)
    ensures p <= |w|
  {
    RegionStartBound(w, 0);
    if "arsen" <= w then 5 else if "commun" <= w then 6 else if "gener" <= w then 5 else RegionStart(w, 0)
  }

  function R2(w: string): nat {
    RegionStart(w, R1(w))
  }

  lemma RegionStartBound(w: string, from: nat)
    requires from <= |w|
    ensures from <= RegionStart(w, from) <= |w|
    decreases |w| - from
  {
    if from + 1 < |w| {
      RegionStartBound(w, from + 1);
    }
  }

  predicate EndsShort(w: string) {
    var n := |w|;
    || (n >= 3 && !IsVowelOrWXY(w[n - 1]) && IsVowel(w[n - 2]) && !IsVowel(w[n - 3]))
    || (n == 2 && !IsVowel(w[1]) && IsVowel(w[0]))
  }

  // ---------------------------------------------------------------- marking the consonant y

  /** A `y` after a vowel is a consonant, and is written `Y`. */
  function MarkOne(previous: char, ch: char): char {
    if ch == 'y' && IsVowel(previous) then 'Y' else ch
  }

  function Previous(m: string, i: int): char
    requires 0 <= i <= |m|
  {
    if i == 0 then 'a' else m[i - 1]
  }

  /** `m` is `w` with its consonant `y`s marked; the start of the word counts as following a vowel. */
  ghost predicate IsMarked(w: string, m: string) {
    |m| == |w| && forall i {:trigger Previous(m, i)} :: 0 <= i < |w| ==> m[i] == MarkOne(Previous(m, i), w[i])
  }

  function MarkAfter(previous: char, w: string): string
    decreases |w|
  {
    if w == [] then [] else [MarkOne(previous, w[0])] + MarkAfter(MarkOne(previous, w[0]), w[1..])
  }

  function Marked(w: string): string {
    MarkAfter('a', w)
  }

  lemma {:induction false} MarkAfterUnique(w: string, m: string, i: nat)
    requires IsMarked(w, m) && i <= |w|
    ensures m[i..] == MarkAfter(Previous(m, i), w[i..])
    decreases |w| - i
  {
    if i < |w| {
      MarkAfterUnique(w, m, i + 1);
      assert w[i..][1..] == w[i + 1..] && m[i..] == [m[i]] + m[i + 1..];
    }
  }

  /** The marking rule has exactly one solution. */
  lemma MarkedUnique(w: string, m: string)
    requires IsMarked(w, m)
    ensures m == Marked(w)
  {
    MarkAfterUnique(w, m, 0);
    assert m[0..] == m && w[0..] == w;
  }

  lemma {:induction false} MarkAfterLength(previous: char, w: string)
    ensures |MarkAfter(previous, w)| == |w|
    decreases |w|
  {
    if w != [] {
      MarkAfterLength(MarkOne(previous, w[0]), w[1..]);
    }
  }

  function Unmarked(w: string): (u: string)
    ensures |u| == |w| && forall i :: 0 <= i < |w| ==> u[i] == if w[i] == 'Y' then 'y' else w[i]
  {
    seq(|w|, i requires 0 <= i < |w| => if w[i] == 'Y' then 'y' else w[i])
  }

  // ---------------------------------------------------------------- suffix rules

  datatype Action =
    | Leave
    | Put(s: string)
    | PutAfter(before: string, s: string)  // only after one of these letters
    | PutInR1(s: string)
    | PutInR2(s: string)
    | PutByLength(s: string, short: string)  // the second if fewer than two letters come before
    | DropAfterVowel  // if there is a vowel before the preceding letter
    | DropAndRepair  // if there is a vowel before

  datatype Rule = Rule(suffix: string, action: Action)

  predicate IsBestRule(rules: seq<Rule>, w: string, m: int) {
    && 0 <= m < |rules| && IsSuffix(rules[m].suffix, w)
    && (forall k :: 0 <= k < |rules| && IsSuffix(rules[k].suffix, w) ==> |rules[k].suffix| <= |rules[m].suffix|)
  }

  /** The rule with the longest suffix of the word, or -1. */
  ghost function BestRule(rules: seq<Rule>, w: string): (m: int)
    ensures m == -1 || IsBestRule(rules, w, m)
  {
    if m :| IsBestRule(rules, w, m) then m else -1
  }

  /** What is done to a stem that has just lost `ed` or `ing`. */
  function Repair(u: string, p1: int): string {
    if IsSuffix("at", u) || IsSuffix("bl", u) || IsSuffix("iz", u) then u + "e"
    else if EndsDouble(u) then u[..|u| - 1]
    else if |u| == p1 && EndsShort(u) then u + "e"
    else u
  }

  predicate EndsDouble(u: string) {
    |u| >= 2 && u[|u| - 1] == u[|u| - 2] && u[|u| - 1] in "bdfgmnprt"
  }

  function Apply(a: Action, stem: string, suffix: string, p1: int, p2: int): string {
    match a
    case Leave => stem + suffix
    case Put(s) => stem + s
    case PutAfter(before, s) => if |stem| > 0 && stem[|stem| - 1] in before then stem + s else stem + suffix
    case PutInR1(s) => if p1 <= |stem| then stem + s else stem + suffix
    case PutInR2(s) => if p2 <= |stem| then stem + s else stem + suffix
    case PutByLength(s, short) => if |stem| >= 2 then stem + s else stem + short
    case DropAfterVowel => if |stem| > 0 && HasVowel(stem[..|stem| - 1]) then stem else stem + suffix
    case DropAndRepair => if HasVowel(stem) then Repair(stem, p1) else stem + suffix
  }

  /** Applies the rule of the longest matching suffix, provided what comes before reaches the region. */
  ghost function RuleStep(rules: seq<Rule>, region: int, w: string, p1: int, p2: int): string {
    var m := BestRule(rules, w);
    if m == -1 then w
    else
      var stem := w[..|w| - |rules[m].suffix|];
      if |stem| < region then w else Apply(rules[m].action, stem, rules[m].suffix, p1, p2)
  }

  // ---------------------------------------------------------------- the steps

  const POSSESSIVES := [Rule("'", Put("")), Rule("'s'", Put("")), Rule("'s", Put(""))]

  const PLURALS := [
    Rule("ied", PutByLength("i", "ie")), Rule("s", DropAfterVowel), Rule("ies", PutByLength("i", "ie")),
    Rule("sses", Put("ss")), Rule("ss", Leave), Rule("us", Leave)
  ]

  const PAST := [
    Rule("ed", DropAndRepair), Rule("eed", PutInR1("ee")), Rule("ing", DropAndRepair),
    Rule("edly", DropAndRepair), Rule("eedly", PutInR1("ee")), Rule("ingly", DropAndRepair)
  ]

  const DERIVED := [
    Rule("anci", Put("ance")), Rule("enci", Put("ence")), Rule("ogi", PutAfter("l", "og")),
    Rule("li", PutAfter("cdeghkmnrt", "")), Rule("bli", Put("ble")), Rule("abli", Put("able")),
    Rule("alli", Put("al")), Rule("fulli", Put("ful")), Rule("lessli", Put("less")), Rule("ousli", Put("ous")),
    Rule("entli", Put("ent")), Rule("aliti", Put("al")), Rule("biliti", Put("ble")), Rule("iviti", Put("ive")),
    Rule("tional", Put("tion")), Rule("ational", Put("ate")), Rule("alism", Put("al")), Rule("ation", Put("ate")),
    Rule("ization", Put("ize")), Rule("izer", Put("ize")), Rule("ator", Put("ate")), Rule("iveness", Put("ive")),
    Rule("fulness", Put("ful")), Rule("ousness", Put("ous"))
  ]

  const LENGTHENED := [
    Rule("icate", Put("ic")), Rule("ative", PutInR2("")), Rule("alize", Put("al")), Rule("iciti", Put("ic")),
    Rule("ical", Put("ic")), Rule("tional", Put("tion")), Rule("ational", Put("ate")), Rule("ful", Put("")),
    Rule("ness", Put(""))
  ]

  const RESIDUAL := [
    Rule("ic", Put("")), Rule("ance", Put("")), Rule("ence", Put("")), Rule("able", Put("")), Rule("ible", Put("")),
    Rule("ate", Put("")), Rule("ive", Put("")), Rule("ize", Put("")), Rule("iti", Put("")), Rule("al", Put("")),
    Rule("ism", Put("")), Rule("ion", PutAfter("st", "")), Rule("er", Put("")), Rule("ous", Put("")),
    Rule("ant", Put("")), Rule("ent", Put("")), Rule("ment", Put("")), Rule("ement", Put(""))
  ]

  ghost function Step1a(w: string): string {
    RuleStep(PLURALS, 0, RuleStep(POSSESSIVES, 0, w, 0, 0), 0, 0)
  }

  ghost function Step1b(w: string, p1: int): string {
    RuleStep(PAST, 0, w, p1, 0)
  }

  function Step1c(w: string): string {
    var n := |w|;
    if n > 2 && (w[n - 1] == 'y' || w[n - 1] == 'Y') && !IsVowel(w[n - 2]) then w[..n - 1] + "i" else w
  }

  ghost function Step2(w: string, p1: int): string {
    RuleStep(DERIVED, p1, w, p1, 0)
  }

  ghost function Step3(w: string, p1: int, p2: int): string {
    RuleStep(LENGTHENED, p1, w, p1, p2)
  }

  ghost function Step4(w: string, p2: int): string {
    RuleStep(RESIDUAL, p2, w, 0, p2)
  }

  function Step5(w: string, p1: int, p2: int): string {
    if w == [] then w
    else
      var stem := w[..|w| - 1];
      if w[|w| - 1] == 'e' && (p2 <= |stem| || (p1 <= |stem| && !EndsShort(stem))) then stem
      else if w[|w| - 1] == 'l' && p2 <= |stem| && |stem| > 0 && stem[|stem| - 1] == 'l' then stem
      else w
  }

  const INVARIANTS := ["succeed", "proceed", "exceed", "canning", "inning", "earring", "herring", "outing"]

  /** Words with a stem of their own; `Leave` keeps the word. */
  const EXCEPTIONS := [
    Rule("andes", Leave), Rule("atlas", Leave), Rule("bias", Leave), Rule("cosmos", Leave),
    Rule("dying", Put("die")), Rule("early", Put("earli")), Rule("gently", Put("gentl")), Rule("howe", Leave),
    Rule("idly", Put("idl")), Rule("lying", Put("lie")), Rule("news", Leave), Rule("only", Put("onli")),
    Rule("singly", Put("singl")), Rule("skies", Put("sky")), Rule("skis", Put("ski")), Rule("sky", Leave),
    Rule("tying", Put("tie")), Rule("ugly", Put("ugli"))
  ]

  /** The index of `w` among the exceptional words, or -1. */
  ghost function ExceptionOf(w: string): (m: int)
    ensures m == -1 || (0 <= m < |EXCEPTIONS| && EXCEPTIONS[m].suffix == w)
  {
    if m :| 0 <= m < |EXCEPTIONS| && EXCEPTIONS[m].suffix == w then m else -1
  }

  /** Step 1b onwards. */
  ghost function LaterSteps(w: string, p1: int, p2: int): string {
    Step5(Step4(Step3(Step2(Step1c(Step1b(w, p1)), p1), p1, p2), p2), p1, p2)
  }

  function Stripped(w: string): string {
    if w != [] && w[0] == '\'' then w[1..] else w
  }

  ghost function Stem(w: string): string {
    var m := ExceptionOf(w);
    if m != -1 then Apply(EXCEPTIONS[m].action, "", w, 0, 0)
    else if |w| < 3 then w
    else
      var y := Marked(Stripped(w));
      var a := Step1a(y);
      var s := if a in INVARIANTS then a else LaterSteps(a, R1(y), R2(y));
      if y != Stripped(w) then Unmarked(s) else s
  }

  // ---------------------------------------------------------------- a stem is never longer than the word

  /** The rule replaces its suffix by something no longer, and its text holds no mark. */
  predicate Tame(r: Rule) {
    match r.action
    case Leave => true
    case Put(s) => |s| <= |r.suffix| && 'Y' !in s
    case PutAfter(before, s) => |s| <= |r.suffix| && 'Y' !in s
    case PutInR1(s) => |s| <= |r.suffix| && 'Y' !in s
    case PutInR2(s) => |s| <= |r.suffix| && 'Y' !in s
    case PutByLength(s, short) => |s| <= |r.suffix| && |short| <= |r.suffix| && 'Y' !in s && 'Y' !in short
    case DropAfterVowel => true
    case DropAndRepair => |r.suffix| >= 1
  }

  lemma TameStepShrinks(rules: seq<Rule>, region: int, w: string, p1: int, p2: int)
    requires forall m :: 0 <= m < |rules| ==> Tame(rules[m])
    ensures |RuleStep(rules, region, w, p1, p2)| <= |w|
    ensures 'Y' !in w ==> 'Y' !in RuleStep(rules, region, w, p1, p2)
  {
    var m := BestRule(rules, w);
    if m != -1 {
      assert Tame(rules[m]);
      var stem := w[..|w| - |rules[m].suffix|];
      assert w == stem + rules[m].suffix;
    }
  }

  lemma RulesAreTame()
    ensures forall m :: 0 <= m < |POSSESSIVES| ==> Tame(POSSESSIVES[m])
    ensures forall m :: 0 <= m < |PLURALS| ==> Tame(PLURALS[m])
    ensures forall m :: 0 <= m < |PAST| ==> Tame(PAST[m])
    ensures forall m :: 0 <= m < |LENGTHENED| ==> Tame(LENGTHENED[m])
    ensures forall m :: 0 <= m < |EXCEPTIONS| ==> Tame(EXCEPTIONS[m])
  {
  }

  lemma DerivedIsTame()
    ensures forall m :: 0 <= m < |DERIVED| ==> Tame(DERIVED[m])
  {
  }

  lemma ResidualIsTame()
    ensures forall m :: 0 <= m < |RESIDUAL| ==> Tame(RESIDUAL[m])
  {
  }

  lemma LaterStepsShrink(w: string, p1: int, p2: int)
    ensures |LaterSteps(w, p1, p2)| <= |w|
    ensures 'Y' !in w ==> 'Y' !in LaterSteps(w, p1, p2)
  {
    RulesAreTame();
    DerivedIsTame();
    ResidualIsTame();
    TameStepShrinks(PAST, 0, w, p1, 0);
    var b := Step1c(Step1b(w, p1));
    TameStepShrinks(DERIVED, p1, b, p1, 0);
    TameStepShrinks(LENGTHENED, p1, Step2(b, p1), p1, p2);
    TameStepShrinks(RESIDUAL, p2, Step3(Step2(b, p1), p1, p2), 0, p2);
  }

  lemma Step1aShrinks(w: string)
    ensures |Step1a(w)| <= |w|
    ensures 'Y' !in w ==> 'Y' !in Step1a(w)
  {
    RulesAreTame();
    TameStepShrinks(POSSESSIVES, 0, w, 0, 0);
    TameStepShrinks(PLURALS, 0, RuleStep(POSSESSIVES, 0, w, 0, 0), 0, 0);
  }

  /** The stem is never longer than the word; the caller cuts the word in place at the stem's length. */
  lemma StemNeverLonger(w: string)
    ensures |Stem(w)| <= |w|
  {
    var m := ExceptionOf(w);
    RulesAreTame();
    if m != -1 {
      assert Tame(EXCEPTIONS[m]);
    } else if |w| >= 3 {
      var y := Marked(Stripped(w));
      MarkAfterLength('a', Stripped(w));
      Step1aShrinks(y);
      LaterStepsShrink(Step1a(y), R1(y), R2(y));
    }
  }

  /** The mark is internal: a word without a capital `Y` has a stem without one. */
  lemma StemLeavesNoMark(w: string)
    requires 'Y' !in w
    ensures 'Y' !in Stem(w)
  {
    var m := ExceptionOf(w);
    if m != -1 {
      RulesAreTame();
      assert Tame(EXCEPTIONS[m]);
    } else if |w| >= 3 {
      assert 'Y' !in Stripped(w);
      var y := Marked(Stripped(w));
      if y == Stripped(w) {
        Step1aShrinks(y);
        LaterStepsShrink(Step1a(y), R1(y), R2(y));
      }
    }
  }
}

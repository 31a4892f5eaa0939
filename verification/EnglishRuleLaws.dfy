/**
 What the rules of the English stemmer are, said without its tables: what each rule leaves of any stem, inside its
 region and outside it, that nothing else is touched, where the regions begin, which letters are marked, and which
 words are exceptions.
 */
module EnglishRuleLaws {
  import opened PrefixTables
  import opened SnowballRuntime
  import opened EnglishTables
  import opened EnglishRules
  import opened EnglishStemmer

  // ---------------------------------------------------------------- suffixes

  lemma SuffixOfSum(t: string, s: string, u: string)
    ensures IsSuffix(t + s, u + s) <==> IsSuffix(t, u)
  {
    if IsSuffix(t, u) {
      assert (u + s)[|u + s| - |t + s|..] == u[|u| - |t|..] + s;
    }
    if IsSuffix(t + s, u + s) {
      assert (u + s)[|u + s| - |t + s|..] == u[|u| - |t|..] + s;
      assert (t + s)[..|t|] == t && (u[|u| - |t|..] + s)[..|t|] == u[|u| - |t|..];
    }
  }

  /** Two words that differ at some place from the end. */
  lemma NotSuffix(s: string, w: string, j: nat)
    requires j < |s| && j < |w| && s[|s| - 1 - j] != w[|w| - 1 - j]
    ensures !IsSuffix(s, w)
  {
    assert |s| <= |w| ==> w[|w| - |s|..][|s| - 1 - j] == w[|w| - 1 - j];
  }

  lemma SuffixTransitive(a: string, b: string, w: string)
    requires IsSuffix(a, b) && IsSuffix(b, w)
    ensures IsSuffix(a, w)
  {
    assert b[|b| - |a|..] == w[|w| - |b|..][|b| - |a|..] == w[|w| - |a|..];
  }

  // ---------------------------------------------------------------- which entry a table finds

  lemma LinkIsSuffix(v: seq<Among>, k: int)
    requires WellFormedTable(Backward, v) && 0 <= k < |v|
    ensures v[k].substring_i < k
    ensures v[k].substring_i >= 0 ==> IsSuffix(v[v[k].substring_i].s, v[k].s)
    ensures forall m | 0 <= m < |v| && m != k && IsSuffix(v[m].s, v[k].s) ::
              v[k].substring_i >= 0 && IsSuffix(v[m].s, v[v[k].substring_i].s)
  {
    var ks, links := Keys(Backward, v), Links(v);
    assert LinksLongest(ks, links, k);
    forall m | 0 <= m < |v|
      ensures ks[m] <= ks[k] <==> IsSuffix(v[m].s, v[k].s)
      ensures links[k] >= 0 ==> (ks[m] <= ks[links[k]] <==> IsSuffix(v[m].s, v[links[k]].s))
    {
      MatchesIsPrefixOfView(Backward, v[m].s, v[k].s);
      if links[k] >= 0 {
        MatchesIsPrefixOfView(Backward, v[m].s, v[links[k]].s);
      }
    }
  }

  /** Among the entries that end in entry `m`, one that links to it directly is found inside each. */
  lemma {:induction false} ChildBetween(v: seq<Among>, m: int, k: int) returns (c: int)
    requires WellFormedTable(Backward, v) && 0 <= m < |v| && 0 <= k < |v| && m != k && IsSuffix(v[m].s, v[k].s)
    ensures 0 <= c < |v| && v[c].substring_i == m && IsSuffix(v[c].s, v[k].s)
    decreases k
  {
    LinkIsSuffix(v, k);
    var link := v[k].substring_i;
    if link == m {
      c := k;
    } else {
      c := ChildBetween(v, m, link);
      SuffixTransitive(v[c].s, v[link].s, v[k].s);
    }
  }

  lemma LongestUnlessChild(v: seq<Among>, m: int, w: string)
    requires WellFormedTable(Backward, v) && 0 <= m < |v| && IsSuffix(v[m].s, w)
    requires forall c | 0 <= c < |v| && v[c].substring_i == m :: !IsSuffix(v[c].s, w)
    ensures IsLongestMatch(Backward, v, w, m)
  {
    hide WellFormedTable;
    forall k | 0 <= k < |v| && IsSuffix(v[k].s, w) ensures |v[k].s| <= |v[m].s| {
      if |v[k].s| > |v[m].s| {
        BothSuffixes(v[m].s, v[k].s, w);
        var c := ChildBetween(v, m, k);
        SuffixTransitive(v[c].s, v[k].s, w);
      }
    }
  }

  lemma BothSuffixes(a: string, b: string, w: string)
    requires IsSuffix(a, w) && IsSuffix(b, w) && |a| <= |b|
    ensures IsSuffix(a, b)
  {
    assert b[|b| - |a|..] == w[|w| - |b|..][|b| - |a|..] == w[|w| - |a|..];
  }

  lemma {:induction false} RootInside(v: seq<Among>, k: int) returns (r: int)
    requires WellFormedTable(Backward, v) && 0 <= k < |v|
    ensures 0 <= r < |v| && v[r].substring_i < 0 && IsSuffix(v[r].s, v[k].s)
    decreases k
  {
    LinkIsSuffix(v, k);
    if v[k].substring_i < 0 {
      r := k;
    } else {
      r := RootInside(v, v[k].substring_i);
      SuffixTransitive(v[r].s, v[v[k].substring_i].s, v[k].s);
    }
  }

  /** What a rule step makes of a stem and the suffix of entry `m`, unless an entry that goes on from it matches. */
  lemma RuleGives(v: seq<Among>, rules: seq<Rule>, letters: string, n: nat, action: int -> Action, m: int,
      u: string, region: int, p1: int, p2: int)
    requires Implements(v, rules, letters, n, action) && 0 <= m < |v|
    requires forall c | 0 <= c < |v| && v[c].substring_i == m :: !IsSuffix(v[c].s, u + v[m].s)
    ensures RuleStep(rules, region, u + v[m].s, p1, p2)
         == if |u| < region then u + v[m].s else Apply(action(v[m].result), u, v[m].s, p1, p2)
  {
    hide WellFormedTable, Apply, RuleStep, Entry, IsLongestMatch;
    var w := u + v[m].s;
    assert w[|w| - |v[m].s|..] == v[m].s && w[..|u|] == u;
    LongestUnlessChild(v, m, w);
    StepOutcome(v, rules, letters, n, action, w, m, region, p1, p2);
  }

  /** A word that ends in none of the suffixes, not even the shortest, is left alone. */
  lemma NoRuleGives(v: seq<Among>, rules: seq<Rule>, letters: string, n: nat, action: int -> Action,
      w: string, region: int, p1: int, p2: int)
    requires Implements(v, rules, letters, n, action)
    requires || w == "" || w[|w| - 1] !in letters
             || forall r | 0 <= r < |v| && v[r].substring_i < 0 :: !IsSuffix(v[r].s, w)
    ensures RuleStep(rules, region, w, p1, p2) == w
  {
    hide WellFormedTable, Apply, RuleStep, Entry;
    if w != "" && w[|w| - 1] in letters {
      forall k | 0 <= k < |v| ensures !IsSuffix(v[k].s, w) {
        if IsSuffix(v[k].s, w) {
          var r := RootInside(v, k);
          SuffixTransitive(v[r].s, v[k].s, w);
        }
      }
    }
    StepOutcome(v, rules, letters, n, action, w, -1, region, p1, p2);
  }

  // ---------------------------------------------------------------- letters

  lemma LettersAre(ch: char)
    ensures IsVowel(ch) <==> ch in "aeiouy"
    ensures IsVowelOrWXY(ch) <==> ch in "aeiouywxY"
  {}

  /** A vowel between two consonants, the last none of w, x and Y, or a vowel and a consonant alone. */
  lemma ShortSyllables(u: string, a: char, b: char, c: char)
    ensures EndsShort(u + [a, b, c]) <==> a !in "aeiouy" && b in "aeiouy" && c !in "aeiouywxY"
    ensures EndsShort([b, c]) <==> b in "aeiouy" && c !in "aeiouy"
    ensures !EndsShort([a]) && !EndsShort([])
  {
    LettersAre(a);
    LettersAre(b);
    LettersAre(c);
    hide IsVowel, IsVowelOrWXY;
    var w := u + [a, b, c];
    assert w[|w| - 3] == a && w[|w| - 2] == b && w[|w| - 1] == c;
  }

  lemma HasVowelIs(u: string)
    ensures HasVowel(u) <==> exists i :: 0 <= i < |u| && u[i] in "aeiouy"
  {
    forall i | 0 <= i < |u| ensures IsVowel(u[i]) <==> u[i] in "aeiouy" {
      LettersAre(u[i]);
    }
  }

  // ---------------------------------------------------------------- step 1a

  ghost function Possessive(w: string): string {
    RuleStep(POSSESSIVES, 0, w, 0, 0)
  }

  ghost function Plural(w: string): string {
    RuleStep(PLURALS, 0, w, 0, 0)
  }

  lemma Step1aIs(w: string)
    ensures Step1a(w) == Plural(Possessive(w))
  {}

  lemma NoPossessive(w: string)
    requires !IsSuffix("'", w) && !IsSuffix("'s", w)
    ensures Possessive(w) == w
  {
    A1EntriesAre();
    PossessivesImplemented();
    hide A1, IsSuffix, Implements, EndsIn, RuleStep, POSSESSIVES;
    forall r | 0 <= r < 3 ensures A1[r].substring_i < 0 ==> !IsSuffix(A1[r].s, w) {
      match r {
        case 0 => case 1 => case 2 =>
      }
    }
    NoRuleGives(A1, POSSESSIVES, "'s", 1, ActionPossessive, w, 0, 0, 0);
  }

  lemma PossessiveGives(m: int, u: string)
    requires 0 <= m < 3
    requires forall c | 0 <= c < 3 && A1[c].substring_i == m :: !IsSuffix(A1[c].s, u + A1[m].s)
    ensures Possessive(u + A1[m].s) == u
  {
    A1EntriesAre();
    PossessivesImplemented();
    hide A1, Implements, EndsIn, RuleStep, POSSESSIVES;
    RuleGives(A1, POSSESSIVES, "'s", 1, ActionPossessive, m, u, 0, 0, 0);
    assert u + "" == u;
  }

  lemma PluralGives(m: int, u: string)
    requires 0 <= m < 6
    requires forall c | 0 <= c < 6 && A2[c].substring_i == m :: !IsSuffix(A2[c].s, u + A2[m].s)
    ensures Plural(u + A2[m].s) == Apply(Action1a(A2[m].result), u, A2[m].s, 0, 0)
  {
    A2EntriesAre();
    PluralsImplemented();
    hide A2, Implements, EndsIn, RuleStep, PLURALS, Apply, Action1a;
    RuleGives(A2, PLURALS, "ds", 1, Action1a, m, u, 0, 0, 0);
  }

  lemma NoPlural(w: string)
    requires !IsSuffix("s", w) && !IsSuffix("ied", w)
    ensures Plural(w) == w
  {
    A2EntriesAre();
    PluralsImplemented();
    hide A2, IsSuffix, Implements, EndsIn, RuleStep, PLURALS;
    forall r | 0 <= r < 6 ensures A2[r].substring_i < 0 ==> !IsSuffix(A2[r].s, w) {
      match r {
        case 0 => case 1 => case 2 => case 3 => case 4 => case 5 =>
      }
    }
    NoRuleGives(A2, PLURALS, "ds", 1, Action1a, w, 0, 0, 0);
  }

  /** An apostrophe, with or without an s, goes, and then the plural rules see the stem. */
  lemma Step1aPossessives(u: string)
    requires !IsSuffix("'", u) && !IsSuffix("'s", u)
    ensures Step1a(u + "'") == Step1a(u) && Step1a(u + "'s") == Step1a(u) && Step1a(u + "'s'") == Step1a(u)
  {
    A1EntriesAre();
    hide A1, IsSuffix, Plural, Possessive, Step1a;
    NoPossessive(u);
    SuffixOfSum("'s", "'", u);
    assert "'s" + "'" == "'s'";
    PossessiveGives(0, u);
    PossessiveGives(1, u);
    PossessiveGives(2, u);
    Step1aIs(u);
    Step1aIs(u + "'");
    Step1aIs(u + "'s");
    Step1aIs(u + "'s'");
  }

  lemma OnlyPlural(u: string, s: string)
    requires |s| >= 1 && s[|s| - 1] != '\'' && (s[|s| - 1] == 's' ==> |s| >= 2 && s[|s| - 2] != '\'')
    ensures Step1a(u + s) == Plural(u + s)
  {
    var w := u + s;
    NotSuffix("'", w, 0);
    if s[|s| - 1] == 's' {
      NotSuffix("'s", w, 1);
    } else {
      NotSuffix("'s", w, 0);
    }
    hide IsSuffix, Possessive, Plural, Step1a;
    NoPossessive(w);
    Step1aIs(w);
  }

  /** What step 1a leaves of a stem and a plural ending. */
  lemma Step1aRules(u: string)
    ensures Step1a(u + "sses") == u + "ss" && Step1a(u + "ss") == u + "ss" && Step1a(u + "us") == u + "us"
    ensures Step1a(u + "ied") == if |u| >= 2 then u + "i" else u + "ie"
    ensures Step1a(u + "ies") == if |u| >= 2 then u + "i" else u + "ie"
  {
    A2EntriesAre();
    hide A2, IsSuffix, Plural, Step1a;
    PluralGives(0, u);
    PluralGives(2, u);
    PluralGives(3, u);
    PluralGives(4, u);
    PluralGives(5, u);
    OnlyPlural(u, "sses");
    OnlyPlural(u, "ss");
    OnlyPlural(u, "us");
    OnlyPlural(u, "ied");
    OnlyPlural(u, "ies");
  }

  lemma VowelBefore(u: string)
    ensures |u| > 0 && HasVowel(u[..|u| - 1]) <==> exists i :: 0 <= i < |u| - 1 && u[i] in "aeiouy"
  {
    if |u| > 0 {
      var t := u[..|u| - 1];
      HasVowelIs(t);
      if i :| 0 <= i < |t| && t[i] in "aeiouy" {
        assert u[i] in "aeiouy";
      }
      if i :| 0 <= i < |u| - 1 && u[i] in "aeiouy" {
        assert t[i] in "aeiouy";
      }
    }
  }

  /** A plain s goes after a vowel, unless that is the letter right before it. */
  lemma Step1aPlainS(u: string)
    requires !IsSuffix("'", u) && !IsSuffix("ie", u) && !IsSuffix("sse", u) && !IsSuffix("s", u) && !IsSuffix("u", u)
    ensures Step1a(u + "s") == if exists i :: 0 <= i < |u| - 1 && u[i] in "aeiouy" then u else u + "s"
  {
    A2EntriesAre();
    hide A2, IsSuffix, Plural, Possessive, Step1a, HasVowel;
    SuffixOfSum("ie", "s", u);
    SuffixOfSum("sse", "s", u);
    SuffixOfSum("s", "s", u);
    SuffixOfSum("u", "s", u);
    assert "ie" + "s" == "ies" && "sse" + "s" == "sses" && "s" + "s" == "ss" && "u" + "s" == "us";
    PluralGives(1, u);
    VowelBefore(u);
    Step1aIs(u + "s");
    SuffixOfSum("'", "s", u);
    assert "'" + "s" == "'s";
    NotSuffix("'", u + "s", 0);
    NoPossessive(u + "s");
  }

  lemma EndsNot(w: string)
    requires w == "" || (w[|w| - 1] != '\'' && w[|w| - 1] != 's')
    ensures !IsSuffix("'", w) && !IsSuffix("'s", w) && !IsSuffix("s", w)
  {
    if w != "" {
      NotSuffix("'", w, 0);
      NotSuffix("'s", w, 0);
      NotSuffix("s", w, 0);
    }
  }

  /** Step 1a leaves alone what ends neither in an apostrophe nor in s nor in `ied`. */
  lemma Step1aLeavesAlone(w: string)
    requires w == "" || (w[|w| - 1] != '\'' && w[|w| - 1] != 's')
    requires !IsSuffix("ied", w)
    ensures Step1a(w) == w
  {
    EndsNot(w);
    hide IsSuffix, Possessive, Plural, Step1a;
    Step1aIs(w);
    NoPossessive(w);
    NoPlural(w);
  }

  // ---------------------------------------------------------------- step 1b

  lemma Step1bGives(m: int, u: string, p1: int)
    requires 0 <= m < 6
    requires forall c | 0 <= c < 6 && A4[c].substring_i == m :: !IsSuffix(A4[c].s, u + A4[m].s)
    ensures Step1b(u + A4[m].s, p1) == Apply(Action1b(A4[m].result), u, A4[m].s, p1, 0)
  {
    A4EntriesAre();
    PastImplemented();
    hide A4, Implements, EndsIn, RuleStep, PAST, Apply, Action1b;
    RuleGives(A4, PAST, "dgy", 2, Action1b, m, u, 0, p1, 0);
  }

  /** Step 1b leaves alone what ends in none of `ed`, `ing`, `edly` and `ingly`. */
  lemma Step1bLeavesAlone(w: string, p1: int)
    requires !IsSuffix("ed", w) && !IsSuffix("ing", w) && !IsSuffix("edly", w) && !IsSuffix("ingly", w)
    ensures Step1b(w, p1) == w
  {
    A4EntriesAre();
    PastImplemented();
    hide A4, IsSuffix, Implements, EndsIn, RuleStep, PAST;
    forall r | 0 <= r < 6 ensures A4[r].substring_i < 0 ==> !IsSuffix(A4[r].s, w) {
      match r {
        case 0 => case 1 => case 2 => case 3 => case 4 => case 5 =>
      }
    }
    NoRuleGives(A4, PAST, "dgy", 2, Action1b, w, 0, p1, 0);
  }

  /** `eed` becomes `ee` inside R1, and `eedly` with it. */
  lemma Step1bDoubleE(u: string, p1: int)
    ensures Step1b(u + "eed", p1) == if p1 <= |u| then u + "ee" else u + "eed"
    ensures Step1b(u + "eedly", p1) == if p1 <= |u| then u + "ee" else u + "eedly"
  {
    A4EntriesAre();
    hide A4, IsSuffix, Step1b;
    Step1bGives(1, u, p1);
    Step1bGives(4, u, p1);
  }

  /** What is left of a stem that has lost its ending: an e is put back, a doubled letter undone, or neither. */
  lemma RepairIs(u: string, p1: int)
    ensures IsSuffix("at", u) || IsSuffix("bl", u) || IsSuffix("iz", u) ==> Repair(u, p1) == u + "e"
    ensures |u| >= 2 && u[|u| - 2] == u[|u| - 1] && u[|u| - 1] in "bdfgmnprt" ==> Repair(u, p1) == u[..|u| - 1]
    ensures |u| == p1 && EndsShort(u) ==> Repair(u, p1) == u + "e"
    ensures (&& !(IsSuffix("at", u) || IsSuffix("bl", u) || IsSuffix("iz", u))
             && !(|u| >= 2 && u[|u| - 2] == u[|u| - 1] && u[|u| - 1] in "bdfgmnprt")
             && !(|u| == p1 && EndsShort(u))) ==> Repair(u, p1) == u
  {
    if |u| >= 2 && u[|u| - 2] == u[|u| - 1] {
      NotSuffixIfDouble("at", u);
      NotSuffixIfDouble("bl", u);
      NotSuffixIfDouble("iz", u);
    }
  }

  lemma NotSuffixIfDouble(s: string, u: string)
    requires |s| == 2 && s[0] != s[1] && |u| >= 2 && u[|u| - 2] == u[|u| - 1]
    ensures !IsSuffix(s, u)
  {
    if u[|u| - 1] != s[1] {
      NotSuffix(s, u, 0);
    } else {
      NotSuffix(s, u, 1);
    }
  }

  /** The endings of the past and the progressive go after a vowel, and the stem is repaired; otherwise they stay. */
  lemma Step1bRules(u: string, p1: int)
    ensures var vowel := exists i :: 0 <= i < |u| && u[i] in "aeiouy";
      && Step1b(u + "ing", p1) == (if vowel then Repair(u, p1) else u + "ing")
      && Step1b(u + "ingly", p1) == (if vowel then Repair(u, p1) else u + "ingly")
      && (!IsSuffix("e", u) ==>
            && Step1b(u + "ed", p1) == (if vowel then Repair(u, p1) else u + "ed")
            && Step1b(u + "edly", p1) == if vowel then Repair(u, p1) else u + "edly")
  {
    A4EntriesAre();
    HasVowelIs(u);
    hide A4, IsSuffix, Step1b, HasVowel, Repair;
    Step1bGives(2, u, p1);
    Step1bGives(5, u, p1);
    if !IsSuffix("e", u) {
      SuffixOfSum("e", "ed", u);
      SuffixOfSum("e", "edly", u);
      assert "e" + "ed" == "eed" && "e" + "edly" == "eedly";
      Step1bGives(0, u, p1);
      Step1bGives(3, u, p1);
    }
  }

  // ---------------------------------------------------------------- steps 1c and 5

  /** A y after a consonant becomes an i, unless the word is as short as the two. */
  lemma Step1cRules(u: string, c: char, last: char)
    ensures c !in "aeiouy" && u != "" ==> Step1c(u + [c] + "y") == u + [c] + "i" == Step1c(u + [c] + "Y")
    ensures c in "aeiouy" || u == "" ==>
              Step1c(u + [c] + "y") == u + [c] + "y" && Step1c(u + [c] + "Y") == u + [c] + "Y"
    ensures last != 'y' && last != 'Y' ==> Step1c(u + [last]) == u + [last]
    ensures Step1c("") == "" && Step1c([last]) == [last]
  {
    LettersAre(c);
    hide IsVowel;
    assert (u + [c] + "y")[..|u| + 1] == u + [c] && (u + [c] + "Y")[..|u| + 1] == u + [c];
  }

  /** A final e goes in R2, and in R1 after anything but a short syllable; of a double l one goes in R2. */
  lemma Step5Rules(u: string, p1: int, p2: int, last: char)
    ensures Step5(u + "e", p1, p2) == if p2 <= |u| || (p1 <= |u| && !EndsShort(u)) then u else u + "e"
    ensures Step5(u + "ll", p1, p2) == if p2 <= |u| + 1 then u + "l" else u + "ll"
    ensures last != 'l' ==> Step5(u + [last] + "l", p1, p2) == u + [last] + "l"
    ensures last != 'e' && last != 'l' ==> Step5(u + [last], p1, p2) == u + [last]
    ensures Step5("", p1, p2) == "" && Step5("l", p1, p2) == "l"
  {
    hide EndsShort;
    assert (u + "e")[..|u|] == u && (u + "ll")[..|u| + 1] == u + "l" && (u + [last] + "l")[..|u| + 1] == u + [last];
    assert (u + "ll")[|u| + 1] == 'l' && (u + [last] + "l")[|u| + 1] == 'l';
  }

  lemma A1EntriesAre()
    ensures |A1| == 3
    ensures A1[0] == Among("'", -1, 1)
    ensures A1[1] == Among("'s'", 0, 1)
    ensures A1[2] == Among("'s", -1, 1)
  {}

  lemma A2EntriesAre()
    ensures |A2| == 6
    ensures A2[0] == Among("ied", -1, 2)
    ensures A2[1] == Among("s", -1, 3)
    ensures A2[2] == Among("ies", 1, 2)
    ensures A2[3] == Among("sses", 1, 1)
    ensures A2[4] == Among("ss", 1, -1)
    ensures A2[5] == Among("us", 1, -1)
  {}

  lemma A4EntriesAre()
    ensures |A4| == 6
    ensures A4[0] == Among("ed", -1, 2)
    ensures A4[1] == Among("eed", 0, 1)
    ensures A4[2] == Among("ing", -1, 2)
    ensures A4[3] == Among("edly", -1, 2)
    ensures A4[4] == Among("eedly", 3, 1)
    ensures A4[5] == Among("ingly", -1, 2)
  {}

  // ---------------------------------------------------------------- step 2

  /** Which entry an entry goes on from, in table 5. */
  function Link5(c: int): int {
    if c == 4 then 3 else if c == 5 then 4 else if c == 6 then 3 else if c == 7 then 3 else
    if c == 8 then 3 else if c == 9 then 3 else if c == 10 then 3 else if c == 15 then 14 else
    if c == 18 then 17 else -1
  }

  lemma A5EntriesAre0To2()
    ensures |A5| == 24
    ensures A5[0] == Among("anci", -1, 3)
    ensures A5[1] == Among("enci", -1, 2)
    ensures A5[2] == Among("ogi", -1, 13)
  {}

  lemma A5EntriesAre3To5()
    ensures |A5| == 24
    ensures A5[3] == Among("li", -1, 16)
    ensures A5[4] == Among("bli", 3, 12)
    ensures A5[5] == Among("abli", 4, 4)
  {}

  lemma A5EntriesAre6To8()
    ensures |A5| == 24
    ensures A5[6] == Among("alli", 3, 8)
    ensures A5[7] == Among("fulli", 3, 14)
    ensures A5[8] == Among("lessli", 3, 15)
  {}

  lemma A5EntriesAre9To11()
    ensures |A5| == 24
    ensures A5[9] == Among("ousli", 3, 10)
    ensures A5[10] == Among("entli", 3, 5)
    ensures A5[11] == Among("aliti", -1, 8)
  {}

  lemma A5EntriesAre12To14()
    ensures |A5| == 24
    ensures A5[12] == Among("biliti", -1, 12)
    ensures A5[13] == Among("iviti", -1, 11)
    ensures A5[14] == Among("tional", -1, 1)
  {}

  lemma A5EntriesAre15To17()
    ensures |A5| == 24
    ensures A5[15] == Among("ational", 14, 7)
    ensures A5[16] == Among("alism", -1, 8)
    ensures A5[17] == Among("ation", -1, 7)
  {}

  lemma A5EntriesAre18To20()
    ensures |A5| == 24
    ensures A5[18] == Among("ization", 17, 6)
    ensures A5[19] == Among("izer", -1, 6)
    ensures A5[20] == Among("ator", -1, 7)
  {}

  lemma A5EntriesAre21To23()
    ensures |A5| == 24
    ensures A5[21] == Among("iveness", -1, 11)
    ensures A5[22] == Among("fulness", -1, 9)
    ensures A5[23] == Among("ousness", -1, 10)
  {}

  lemma A5EntriesAre()
    ensures |A5| == 24
    ensures A5[0] == Among("anci", -1, 3)
    ensures A5[1] == Among("enci", -1, 2)
    ensures A5[2] == Among("ogi", -1, 13)
    ensures A5[3] == Among("li", -1, 16)
    ensures A5[4] == Among("bli", 3, 12)
    ensures A5[5] == Among("abli", 4, 4)
    ensures A5[6] == Among("alli", 3, 8)
    ensures A5[7] == Among("fulli", 3, 14)
    ensures A5[8] == Among("lessli", 3, 15)
    ensures A5[9] == Among("ousli", 3, 10)
    ensures A5[10] == Among("entli", 3, 5)
    ensures A5[11] == Among("aliti", -1, 8)
    ensures A5[12] == Among("biliti", -1, 12)
    ensures A5[13] == Among("iviti", -1, 11)
    ensures A5[14] == Among("tional", -1, 1)
    ensures A5[15] == Among("ational", 14, 7)
    ensures A5[16] == Among("alism", -1, 8)
    ensures A5[17] == Among("ation", -1, 7)
    ensures A5[18] == Among("ization", 17, 6)
    ensures A5[19] == Among("izer", -1, 6)
    ensures A5[20] == Among("ator", -1, 7)
    ensures A5[21] == Among("iveness", -1, 11)
    ensures A5[22] == Among("fulness", -1, 9)
    ensures A5[23] == Among("ousness", -1, 10)
  {
    hide A5;
    A5EntriesAre0To2();
    A5EntriesAre3To5();
    A5EntriesAre6To8();
    A5EntriesAre9To11();
    A5EntriesAre12To14();
    A5EntriesAre15To17();
    A5EntriesAre18To20();
    A5EntriesAre21To23();
  }

  lemma A5LinksAre(c: int)
    requires 0 <= c < 24
    ensures A5[c].substring_i == Link5(c)
  {
    A5EntriesAre();
    hide A5;
    match c {
      case 0 => case 1 => case 2 => case 3 => case 4 => case 5 => case 6 => case 7 => case 8 =>
      case 9 => case 10 => case 11 => case 12 => case 13 => case 14 => case 15 => case 16 =>
      case 17 => case 18 => case 19 => case 20 => case 21 => case 22 => case 23 =>
    }
  }

  /** Step 2 leaves alone what ends in none of its suffixes. */
  lemma Step2LeavesAlone(w: string, p1: int)
    requires !IsSuffix("anci", w) && !IsSuffix("enci", w) && !IsSuffix("ogi", w) && !IsSuffix("li", w)
             && !IsSuffix("aliti", w) && !IsSuffix("biliti", w) && !IsSuffix("iviti", w)
             && !IsSuffix("tional", w) && !IsSuffix("alism", w) && !IsSuffix("ation", w) && !IsSuffix("izer", w)
             && !IsSuffix("ator", w) && !IsSuffix("iveness", w) && !IsSuffix("fulness", w)
             && !IsSuffix("ousness", w)
    ensures Step2(w, p1) == w
  {
    A5EntriesAre();
    DerivedImplemented();
    hide A5, IsSuffix, Implements, EndsIn, RuleStep, DERIVED;
    forall r | 0 <= r < 24 ensures A5[r].substring_i < 0 ==> !IsSuffix(A5[r].s, w) {
      match r {
        case 0 => case 1 => case 2 => case 3 => case 4 => case 5 => case 6 => case 7 => case 8 =>
        case 9 => case 10 => case 11 => case 12 => case 13 => case 14 => case 15 => case 16 =>
        case 17 => case 18 => case 19 => case 20 => case 21 => case 22 => case 23 =>
      }
    }
    NoRuleGives(A5, DERIVED, "ilmnrs", 2, Action2, w, p1, p1, 0);
  }

  lemma Step2Quiet(w: string, p1: int)
    requires w == "" || w[|w| - 1] !in "ilmnrs"
    ensures Step2(w, p1) == w
  {
    DerivedImplemented();
    hide A5, Implements, EndsIn, RuleStep, DERIVED;
    NoRuleGives(A5, DERIVED, "ilmnrs", 2, Action2, w, p1, p1, 0);
  }

  lemma Step2Gives(m: int, u: string, p1: int)
    requires 0 <= m < 24
    requires forall c | 0 <= c < 24 && A5[c].substring_i == m :: !IsSuffix(A5[c].s, u + A5[m].s)
    ensures Step2(u + A5[m].s, p1)
         == if |u| < p1 then u + A5[m].s else Apply(Action2(A5[m].result), u, A5[m].s, p1, 0)
  {
    A5EntriesAre();
    DerivedImplemented();
    hide A5, Implements, EndsIn, RuleStep, DERIVED, Apply, Action2;
    RuleGives(A5, DERIVED, "ilmnrs", 2, Action2, m, u, p1, p1, 0);
  }

  /** What step 2 leaves of a stem and a suffix, if no longer suffix matches, inside R1 and outside. */
  lemma Step2RulesFirst(u: string, p1: int)
    ensures Step2(u + "anci", p1) == if p1 <= |u| then u + "ance" else u + "anci"
    ensures Step2(u + "enci", p1) == if p1 <= |u| then u + "ence" else u + "enci"
    ensures Step2(u + "ogi", p1) == if p1 <= |u| && |u| > 0 && u[|u| - 1] == 'l' then u + "og" else u + "ogi"
    ensures !IsSuffix("b", u) && !IsSuffix("al", u) && !IsSuffix("ful", u) && !IsSuffix("less", u)
             && !IsSuffix("ous", u) && !IsSuffix("ent", u) ==>
              Step2(u + "li", p1) == if p1 <= |u| && |u| > 0 && u[|u| - 1] in "cdeghkmnrt" then u else u + "li"
  {
    A5EntriesAre();
    hide A5, IsSuffix, Step2;
    forall c | 0 <= c < 24 ensures A5[c].substring_i == Link5(c) {
      A5LinksAre(c);
    }
    Step2Gives(0, u, p1);
    Step2Gives(1, u, p1);
    Step2Gives(2, u, p1);
    if !IsSuffix("b", u) && !IsSuffix("al", u) && !IsSuffix("ful", u) && !IsSuffix("less", u)
             && !IsSuffix("ous", u) && !IsSuffix("ent", u) {
      SuffixOfSum("b", "li", u);
      assert "b" + "li" == "bli";
      SuffixOfSum("al", "li", u);
      assert "al" + "li" == "alli";
      SuffixOfSum("ful", "li", u);
      assert "ful" + "li" == "fulli";
      SuffixOfSum("less", "li", u);
      assert "less" + "li" == "lessli";
      SuffixOfSum("ous", "li", u);
      assert "ous" + "li" == "ousli";
      SuffixOfSum("ent", "li", u);
      assert "ent" + "li" == "entli";
      Step2Gives(3, u, p1);
    }
  }

  /** What step 2 leaves of a stem and a suffix, if no longer suffix matches, inside R1 and outside. */
  lemma Step2RulesSecond(u: string, p1: int)
    ensures !IsSuffix("a", u) ==>
              Step2(u + "bli", p1) == if p1 <= |u| then u + "ble" else u + "bli"
    ensures Step2(u + "abli", p1) == if p1 <= |u| then u + "able" else u + "abli"
    ensures Step2(u + "alli", p1) == if p1 <= |u| then u + "al" else u + "alli"
    ensures Step2(u + "fulli", p1) == if p1 <= |u| then u + "ful" else u + "fulli"
  {
    A5EntriesAre();
    hide A5, IsSuffix, Step2;
    forall c | 0 <= c < 24 ensures A5[c].substring_i == Link5(c) {
      A5LinksAre(c);
    }
    if !IsSuffix("a", u) {
      SuffixOfSum("a", "bli", u);
      assert "a" + "bli" == "abli";
      Step2Gives(4, u, p1);
    }
    Step2Gives(5, u, p1);
    Step2Gives(6, u, p1);
    Step2Gives(7, u, p1);
  }

  /** What step 2 leaves of a stem and a suffix, if no longer suffix matches, inside R1 and outside. */
  lemma Step2RulesThird(u: string, p1: int)
    ensures Step2(u + "lessli", p1) == if p1 <= |u| then u + "less" else u + "lessli"
    ensures Step2(u + "ousli", p1) == if p1 <= |u| then u + "ous" else u + "ousli"
    ensures Step2(u + "entli", p1) == if p1 <= |u| then u + "ent" else u + "entli"
    ensures Step2(u + "aliti", p1) == if p1 <= |u| then u + "al" else u + "aliti"
    ensures Step2(u + "biliti", p1) == if p1 <= |u| then u + "ble" else u + "biliti"
  {
    A5EntriesAre();
    hide A5, IsSuffix, Step2;
    forall c | 0 <= c < 24 ensures A5[c].substring_i == Link5(c) {
      A5LinksAre(c);
    }
    Step2Gives(8, u, p1);
    Step2Gives(9, u, p1);
    Step2Gives(10, u, p1);
    Step2Gives(11, u, p1);
    Step2Gives(12, u, p1);
  }

  /** What step 2 leaves of a stem and a suffix, if no longer suffix matches, inside R1 and outside. */
  lemma Step2RulesFourth(u: string, p1: int)
    ensures Step2(u + "iviti", p1) == if p1 <= |u| then u + "ive" else u + "iviti"
    ensures !IsSuffix("a", u) ==>
              Step2(u + "tional", p1) == if p1 <= |u| then u + "tion" else u + "tional"
    ensures Step2(u + "ational", p1) == if p1 <= |u| then u + "ate" else u + "ational"
    ensures Step2(u + "alism", p1) == if p1 <= |u| then u + "al" else u + "alism"
    ensures !IsSuffix("iz", u) ==>
              Step2(u + "ation", p1) == if p1 <= |u| then u + "ate" else u + "ation"
  {
    A5EntriesAre();
    hide A5, IsSuffix, Step2;
    forall c | 0 <= c < 24 ensures A5[c].substring_i == Link5(c) {
      A5LinksAre(c);
    }
    Step2Gives(13, u, p1);
    if !IsSuffix("a", u) {
      SuffixOfSum("a", "tional", u);
      assert "a" + "tional" == "ational";
      Step2Gives(14, u, p1);
    }
    Step2Gives(15, u, p1);
    Step2Gives(16, u, p1);
    if !IsSuffix("iz", u) {
      SuffixOfSum("iz", "ation", u);
      assert "iz" + "ation" == "ization";
      Step2Gives(17, u, p1);
    }
  }

  /** What step 2 leaves of a stem and a suffix, if no longer suffix matches, inside R1 and outside. */
  lemma Step2RulesFifth(u: string, p1: int)
    ensures Step2(u + "ization", p1) == if p1 <= |u| then u + "ize" else u + "ization"
    ensures Step2(u + "izer", p1) == if p1 <= |u| then u + "ize" else u + "izer"
    ensures Step2(u + "ator", p1) == if p1 <= |u| then u + "ate" else u + "ator"
    ensures Step2(u + "iveness", p1) == if p1 <= |u| then u + "ive" else u + "iveness"
    ensures Step2(u + "fulness", p1) == if p1 <= |u| then u + "ful" else u + "fulness"
    ensures Step2(u + "ousness", p1) == if p1 <= |u| then u + "ous" else u + "ousness"
  {
    A5EntriesAre();
    hide A5, IsSuffix, Step2;
    forall c | 0 <= c < 24 ensures A5[c].substring_i == Link5(c) {
      A5LinksAre(c);
    }
    Step2Gives(18, u, p1);
    Step2Gives(19, u, p1);
    Step2Gives(20, u, p1);
    Step2Gives(21, u, p1);
    Step2Gives(22, u, p1);
    Step2Gives(23, u, p1);
  }

  // ---------------------------------------------------------------- step 3

  /** Which entry an entry goes on from, in table 6. */
  function Link6(c: int): int {
    if c == 6 then 5 else -1
  }

  lemma A6EntriesAre()
    ensures |A6| == 9
    ensures A6[0] == Among("icate", -1, 4)
    ensures A6[1] == Among("ative", -1, 6)
    ensures A6[2] == Among("alize", -1, 3)
    ensures A6[3] == Among("iciti", -1, 4)
    ensures A6[4] == Among("ical", -1, 4)
    ensures A6[5] == Among("tional", -1, 1)
    ensures A6[6] == Among("ational", 5, 2)
    ensures A6[7] == Among("ful", -1, 5)
    ensures A6[8] == Among("ness", -1, 5)
  {}

  lemma A6LinksAre(c: int)
    requires 0 <= c < 9
    ensures A6[c].substring_i == Link6(c)
  {
    A6EntriesAre();
    hide A6;
    match c {
      case 0 => case 1 => case 2 => case 3 => case 4 => case 5 => case 6 => case 7 => case 8 =>
    }
  }

  /** Step 3 leaves alone what ends in none of its suffixes. */
  lemma Step3LeavesAlone(w: string, p1: int, p2: int)
    requires !IsSuffix("icate", w) && !IsSuffix("ative", w) && !IsSuffix("alize", w) && !IsSuffix("iciti", w)
             && !IsSuffix("ical", w) && !IsSuffix("tional", w) && !IsSuffix("ful", w) && !IsSuffix("ness", w)
    ensures Step3(w, p1, p2) == w
  {
    A6EntriesAre();
    LengthenedImplemented();
    hide A6, IsSuffix, Implements, EndsIn, RuleStep, LENGTHENED;
    forall r | 0 <= r < 9 ensures A6[r].substring_i < 0 ==> !IsSuffix(A6[r].s, w) {
      match r {
        case 0 => case 1 => case 2 => case 3 => case 4 => case 5 => case 6 => case 7 => case 8 =>
      }
    }
    NoRuleGives(A6, LENGTHENED, "eils", 3, Action3, w, p1, p1, p2);
  }

  lemma Step3Quiet(w: string, p1: int, p2: int)
    requires w == "" || w[|w| - 1] !in "eils"
    ensures Step3(w, p1, p2) == w
  {
    LengthenedImplemented();
    hide A6, Implements, EndsIn, RuleStep, LENGTHENED;
    NoRuleGives(A6, LENGTHENED, "eils", 3, Action3, w, p1, p1, p2);
  }

  lemma Step3Gives(m: int, u: string, p1: int, p2: int)
    requires 0 <= m < 9
    requires forall c | 0 <= c < 9 && A6[c].substring_i == m :: !IsSuffix(A6[c].s, u + A6[m].s)
    ensures Step3(u + A6[m].s, p1, p2)
         == if |u| < p1 then u + A6[m].s else Apply(Action3(A6[m].result), u, A6[m].s, p1, p2)
  {
    A6EntriesAre();
    LengthenedImplemented();
    hide A6, Implements, EndsIn, RuleStep, LENGTHENED, Apply, Action3;
    RuleGives(A6, LENGTHENED, "eils", 3, Action3, m, u, p1, p1, p2);
  }

  /** What step 3 leaves of a stem and a suffix; `ative` goes only if R2 is reached as well. */
  lemma Step3RulesFirst(u: string, p1: int, p2: int)
    ensures Step3(u + "icate", p1, p2) == if p1 <= |u| then u + "ic" else u + "icate"
    ensures Step3(u + "ative", p1, p2) == if p1 <= |u| && p2 <= |u| then u else u + "ative"
    ensures Step3(u + "alize", p1, p2) == if p1 <= |u| then u + "al" else u + "alize"
    ensures Step3(u + "iciti", p1, p2) == if p1 <= |u| then u + "ic" else u + "iciti"
    ensures Step3(u + "ical", p1, p2) == if p1 <= |u| then u + "ic" else u + "ical"
  {
    A6EntriesAre();
    hide A6, IsSuffix, Step3;
    forall c | 0 <= c < 9 ensures A6[c].substring_i == Link6(c) {
      A6LinksAre(c);
    }
    Step3Gives(0, u, p1, p2);
    Step3Gives(1, u, p1, p2);
    Step3Gives(2, u, p1, p2);
    Step3Gives(3, u, p1, p2);
    Step3Gives(4, u, p1, p2);
  }

  /** What step 3 leaves of a stem and a suffix; `ative` goes only if R2 is reached as well. */
  lemma Step3RulesSecond(u: string, p1: int, p2: int)
    ensures !IsSuffix("a", u) ==>
              Step3(u + "tional", p1, p2) == if p1 <= |u| then u + "tion" else u + "tional"
    ensures Step3(u + "ational", p1, p2) == if p1 <= |u| then u + "ate" else u + "ational"
    ensures Step3(u + "ful", p1, p2) == if p1 <= |u| then u else u + "ful"
    ensures Step3(u + "ness", p1, p2) == if p1 <= |u| then u else u + "ness"
  {
    A6EntriesAre();
    hide A6, IsSuffix, Step3;
    forall c | 0 <= c < 9 ensures A6[c].substring_i == Link6(c) {
      A6LinksAre(c);
    }
    if !IsSuffix("a", u) {
      SuffixOfSum("a", "tional", u);
      assert "a" + "tional" == "ational";
      Step3Gives(5, u, p1, p2);
    }
    Step3Gives(6, u, p1, p2);
    Step3Gives(7, u, p1, p2);
    Step3Gives(8, u, p1, p2);
  }

  // ---------------------------------------------------------------- step 4

  /** Which entry an entry goes on from, in table 7. */
  function Link7(c: int): int {
    if c == 16 then 15 else if c == 17 then 16 else -1
  }

  lemma A7EntriesAre0To2()
    ensures |A7| == 18
    ensures A7[0] == Among("ic", -1, 1)
    ensures A7[1] == Among("ance", -1, 1)
    ensures A7[2] == Among("ence", -1, 1)
  {}

  lemma A7EntriesAre3To5()
    ensures |A7| == 18
    ensures A7[3] == Among("able", -1, 1)
    ensures A7[4] == Among("ible", -1, 1)
    ensures A7[5] == Among("ate", -1, 1)
  {}

  lemma A7EntriesAre6To8()
    ensures |A7| == 18
    ensures A7[6] == Among("ive", -1, 1)
    ensures A7[7] == Among("ize", -1, 1)
    ensures A7[8] == Among("iti", -1, 1)
  {}

  lemma A7EntriesAre9To11()
    ensures |A7| == 18
    ensures A7[9] == Among("al", -1, 1)
    ensures A7[10] == Among("ism", -1, 1)
    ensures A7[11] == Among("ion", -1, 2)
  {}

  lemma A7EntriesAre12To14()
    ensures |A7| == 18
    ensures A7[12] == Among("er", -1, 1)
    ensures A7[13] == Among("ous", -1, 1)
    ensures A7[14] == Among("ant", -1, 1)
  {}

  lemma A7EntriesAre15To17()
    ensures |A7| == 18
    ensures A7[15] == Among("ent", -1, 1)
    ensures A7[16] == Among("ment", 15, 1)
    ensures A7[17] == Among("ement", 16, 1)
  {}

  lemma A7EntriesAre()
    ensures |A7| == 18
    ensures A7[0] == Among("ic", -1, 1)
    ensures A7[1] == Among("ance", -1, 1)
    ensures A7[2] == Among("ence", -1, 1)
    ensures A7[3] == Among("able", -1, 1)
    ensures A7[4] == Among("ible", -1, 1)
    ensures A7[5] == Among("ate", -1, 1)
    ensures A7[6] == Among("ive", -1, 1)
    ensures A7[7] == Among("ize", -1, 1)
    ensures A7[8] == Among("iti", -1, 1)
    ensures A7[9] == Among("al", -1, 1)
    ensures A7[10] == Among("ism", -1, 1)
    ensures A7[11] == Among("ion", -1, 2)
    ensures A7[12] == Among("er", -1, 1)
    ensures A7[13] == Among("ous", -1, 1)
    ensures A7[14] == Among("ant", -1, 1)
    ensures A7[15] == Among("ent", -1, 1)
    ensures A7[16] == Among("ment", 15, 1)
    ensures A7[17] == Among("ement", 16, 1)
  {
    hide A7;
    A7EntriesAre0To2();
    A7EntriesAre3To5();
    A7EntriesAre6To8();
    A7EntriesAre9To11();
    A7EntriesAre12To14();
    A7EntriesAre15To17();
  }

  lemma A7LinksAre(c: int)
    requires 0 <= c < 18
    ensures A7[c].substring_i == Link7(c)
  {
    A7EntriesAre();
    hide A7;
    match c {
      case 0 => case 1 => case 2 => case 3 => case 4 => case 5 => case 6 => case 7 => case 8 =>
      case 9 => case 10 => case 11 => case 12 => case 13 => case 14 => case 15 => case 16 =>
      case 17 =>
    }
  }

  /** Step 4 leaves alone what ends in none of its suffixes. */
  lemma Step4LeavesAlone(w: string, p2: int)
    requires !IsSuffix("ic", w) && !IsSuffix("ance", w) && !IsSuffix("ence", w) && !IsSuffix("able", w)
             && !IsSuffix("ible", w) && !IsSuffix("ate", w) && !IsSuffix("ive", w) && !IsSuffix("ize", w)
             && !IsSuffix("iti", w) && !IsSuffix("al", w) && !IsSuffix("ism", w) && !IsSuffix("ion", w)
             && !IsSuffix("er", w) && !IsSuffix("ous", w) && !IsSuffix("ant", w) && !IsSuffix("ent", w)
    ensures Step4(w, p2) == w
  {
    A7EntriesAre();
    ResidualImplemented();
    hide A7, IsSuffix, Implements, EndsIn, RuleStep, RESIDUAL;
    forall r | 0 <= r < 18 ensures A7[r].substring_i < 0 ==> !IsSuffix(A7[r].s, w) {
      match r {
        case 0 => case 1 => case 2 => case 3 => case 4 => case 5 => case 6 => case 7 => case 8 =>
        case 9 => case 10 => case 11 => case 12 => case 13 => case 14 => case 15 => case 16 =>
        case 17 =>
      }
    }
    NoRuleGives(A7, RESIDUAL, "ceilmnrst", 2, Action4, w, p2, 0, p2);
  }

  lemma Step4Quiet(w: string, p2: int)
    requires w == "" || w[|w| - 1] !in "ceilmnrst"
    ensures Step4(w, p2) == w
  {
    ResidualImplemented();
    hide A7, Implements, EndsIn, RuleStep, RESIDUAL;
    NoRuleGives(A7, RESIDUAL, "ceilmnrst", 2, Action4, w, p2, 0, p2);
  }

  lemma Step4Gives(m: int, u: string, p2: int)
    requires 0 <= m < 18
    requires forall c | 0 <= c < 18 && A7[c].substring_i == m :: !IsSuffix(A7[c].s, u + A7[m].s)
    ensures Step4(u + A7[m].s, p2)
         == if |u| < p2 then u + A7[m].s else Apply(Action4(A7[m].result), u, A7[m].s, 0, p2)
  {
    A7EntriesAre();
    ResidualImplemented();
    hide A7, Implements, EndsIn, RuleStep, RESIDUAL, Apply, Action4;
    RuleGives(A7, RESIDUAL, "ceilmnrst", 2, Action4, m, u, p2, 0, p2);
  }

  /** What step 4 leaves of a stem and a suffix, inside R2 and outside. */
  lemma Step4RulesFirst(u: string, p2: int)
    ensures Step4(u + "ic", p2) == if p2 <= |u| then u else u + "ic"
    ensures Step4(u + "ance", p2) == if p2 <= |u| then u else u + "ance"
    ensures Step4(u + "ence", p2) == if p2 <= |u| then u else u + "ence"
    ensures Step4(u + "able", p2) == if p2 <= |u| then u else u + "able"
    ensures Step4(u + "ible", p2) == if p2 <= |u| then u else u + "ible"
    ensures Step4(u + "ate", p2) == if p2 <= |u| then u else u + "ate"
  {
    A7EntriesAre();
    hide A7, IsSuffix, Step4;
    forall c | 0 <= c < 18 ensures A7[c].substring_i == Link7(c) {
      A7LinksAre(c);
    }
    Step4Gives(0, u, p2);
    Step4Gives(1, u, p2);
    Step4Gives(2, u, p2);
    Step4Gives(3, u, p2);
    Step4Gives(4, u, p2);
    Step4Gives(5, u, p2);
  }

  /** What step 4 leaves of a stem and a suffix, inside R2 and outside. */
  lemma Step4RulesSecond(u: string, p2: int)
    ensures Step4(u + "ive", p2) == if p2 <= |u| then u else u + "ive"
    ensures Step4(u + "ize", p2) == if p2 <= |u| then u else u + "ize"
    ensures Step4(u + "iti", p2) == if p2 <= |u| then u else u + "iti"
    ensures Step4(u + "al", p2) == if p2 <= |u| then u else u + "al"
    ensures Step4(u + "ism", p2) == if p2 <= |u| then u else u + "ism"
    ensures Step4(u + "ion", p2) == if p2 <= |u| && |u| > 0 && u[|u| - 1] in "st" then u else u + "ion"
  {
    A7EntriesAre();
    hide A7, IsSuffix, Step4;
    forall c | 0 <= c < 18 ensures A7[c].substring_i == Link7(c) {
      A7LinksAre(c);
    }
    Step4Gives(6, u, p2);
    Step4Gives(7, u, p2);
    Step4Gives(8, u, p2);
    Step4Gives(9, u, p2);
    Step4Gives(10, u, p2);
    Step4Gives(11, u, p2);
  }

  /** What step 4 leaves of a stem and a suffix, inside R2 and outside. */
  lemma Step4RulesThird(u: string, p2: int)
    ensures Step4(u + "er", p2) == if p2 <= |u| then u else u + "er"
    ensures Step4(u + "ous", p2) == if p2 <= |u| then u else u + "ous"
    ensures Step4(u + "ant", p2) == if p2 <= |u| then u else u + "ant"
    ensures !IsSuffix("m", u) ==>
              Step4(u + "ent", p2) == if p2 <= |u| then u else u + "ent"
    ensures !IsSuffix("e", u) ==>
              Step4(u + "ment", p2) == if p2 <= |u| then u else u + "ment"
    ensures Step4(u + "ement", p2) == if p2 <= |u| then u else u + "ement"
  {
    A7EntriesAre();
    hide A7, IsSuffix, Step4;
    forall c | 0 <= c < 18 ensures A7[c].substring_i == Link7(c) {
      A7LinksAre(c);
    }
    Step4Gives(12, u, p2);
    Step4Gives(13, u, p2);
    Step4Gives(14, u, p2);
    if !IsSuffix("m", u) {
      SuffixOfSum("m", "ent", u);
      assert "m" + "ent" == "ment";
      Step4Gives(15, u, p2);
    }
    if !IsSuffix("e", u) {
      SuffixOfSum("e", "ment", u);
      assert "e" + "ment" == "ement";
      Step4Gives(16, u, p2);
    }
    Step4Gives(17, u, p2);
  }

  // ---------------------------------------------------------------- regions

  /** A vowel at a position and a non-vowel right after it. */
  predicate Pair(y: string, i: int) {
    0 <= i && i + 1 < |y| && y[i] in "aeiouy" && y[i + 1] !in "aeiouy"
  }

  /** A region begins behind the first vowel and non-vowel in a row, or at the end if there are none. */
  lemma {:induction false} RegionIs(y: string, from: nat)
    requires from <= |y|
    ensures from <= RegionStart(y, from) <= |y|
    ensures forall i | from <= i && Pair(y, i) :: RegionStart(y, from) <= i + 2
    ensures var p := RegionStart(y, from);
            if exists i :: from <= i && Pair(y, i) then from <= p - 2 && Pair(y, p - 2) else p == |y|
    decreases |y| - from
  {
    if from + 1 < |y| {
      LettersAre(y[from]);
      LettersAre(y[from + 1]);
      hide IsVowel;
      if Pair(y, from) {
        assert RegionStart(y, from) == from + 2;
      } else {
        RegionIs(y, from + 1);
        assert forall i | from <= i && Pair(y, i) :: from + 1 <= i;
      }
    }
  }

  /** R1 begins where three beginnings of words say, and else behind the first pair; R2 behind the first pair in R1. */
  lemma RegionsAre(y: string)
    ensures "arsen" <= y || "gener" <= y ==> R1(y) == 5
    ensures "commun" <= y ==> R1(y) == 6
    ensures !("arsen" <= y) && !("commun" <= y) && !("gener" <= y) ==> R1(y) == RegionStart(y, 0)
    ensures R1(y) <= |y| && R2(y) == RegionStart(y, R1(y))
  {
    RegionStartBound(y, 0);
    assert "arsen" <= y ==> y[0] == 'a';
    assert "commun" <= y ==> y[0] == 'c';
    assert "gener" <= y ==> y[0] == 'g';
  }

  /** R1 begins inside, whatever follows: there is a pair, and the word is not cut short of one of three beginnings. */
  ghost predicate R1Inside(y: string) {
    !(y < "arsen") && !(y < "commun") && !(y < "gener") && exists i :: Pair(y, i)
  }

  /** R2 begins inside as well. */
  ghost predicate R2Inside(y: string) {
    R1Inside(y) && exists i :: R1(y) <= i && Pair(y, i)
  }

  /** R1 begins inside, and R2 does not. */
  ghost predicate OnlyR1Inside(y: string) {
    R1Inside(y) && forall i | R1(y) <= i :: !Pair(y, i)
  }

  lemma RegionStays(y: string, s: string, from: nat)
    requires from <= |y| && exists i :: from <= i && Pair(y, i)
    ensures RegionStart(y + s, from) == RegionStart(y, from)
  {
    RegionIs(y, from);
    RegionIs(y + s, from);
    var p, q := RegionStart(y, from), RegionStart(y + s, from);
    hide RegionStart;
    assert Pair(y + s, p - 2);
    assert q <= p;
    assert Pair(y, q - 2);
  }

  lemma BeginningStays(x: string, y: string, s: string)
    requires !(y < x)
    ensures x <= y + s <==> x <= y
  {
    if |y| < |x| {
      assert y != x[..|y|];
      var k :| 0 <= k < |y| && y[k] != x[k];
      assert (y + s)[k] == y[k];
    }
  }

  lemma R1Stays(y: string, s: string)
    requires R1Inside(y)
    ensures R1(y + s) == R1(y) <= |y|
  {
    hide R1, RegionStart;
    RegionsAre(y);
    RegionsAre(y + s);
    BeginningStays("arsen", y, s);
    BeginningStays("commun", y, s);
    BeginningStays("gener", y, s);
    if !("arsen" <= y) && !("commun" <= y) && !("gener" <= y) {
      var i :| Pair(y, i);
      assert 0 <= i;
      RegionStays(y, s, 0);
    }
  }

  lemma R2Stays(y: string, s: string)
    requires R2Inside(y)
    ensures R1(y + s) == R1(y) && R2(y + s) == R2(y) <= |y|
  {
    hide R1, R2, RegionStart, R1Inside;
    R1Stays(y, s);
    RegionsAre(y);
    RegionsAre(y + s);
    RegionStays(y, s, R1(y));
    RegionIs(y, R1(y));
  }

  lemma R2Beyond(y: string, s: string)
    requires OnlyR1Inside(y) && s != ""
    ensures R1(y + s) == R1(y) && R2(y + s) > |y|
  {
    hide R1, R2, RegionStart, R1Inside;
    R1Stays(y, s);
    RegionsAre(y + s);
    RegionIs(y + s, R1(y));
    var p := R2(y + s);
    assert p <= |y| ==> Pair(y + s, p - 2);
    assert p <= |y| ==> Pair(y, p - 2);
  }

  /** With a pair in what both words begin with, they have the same regions. */
  lemma RegionsAgree(y: string, c: string, s: string, t: string)
    requires R1Inside(y) && exists i :: Pair(c, i)
    ensures R1(y + c + s) == R1(y + c + t) == R1(y) <= |y|
    ensures R2(y + c + s) == R2(y + c + t) <= |y| + |c|
  {
    hide R1, R2;
    var i :| Pair(c, i);
    assert Pair(y + c, |y| + i);
    R1Stays(y, c);
    assert !(y + c < "arsen") && !(y + c < "commun") && !(y + c < "gener") by {
      NotShort("arsen", y, c);
      NotShort("commun", y, c);
      NotShort("gener", y, c);
    }
    R2Stays(y + c, s);
    R2Stays(y + c, t);
    R1Stays(y, c + s);
    assert y + (c + s) == y + c + s;
  }

  lemma NotShort(x: string, y: string, c: string)
    requires !(y < x)
    ensures !(y + c < x)
  {
    if |y| < |x| {
      assert y != x[..|y|];
      var k :| 0 <= k < |y| && y[k] != x[k];
      assert (y + c)[k] == y[k];
    }
  }

  // ---------------------------------------------------------------- marks

  lemma {:induction false} MarkAfterIs(previous: char, w: string, i: nat)
    requires i < |w|
    ensures |MarkAfter(previous, w)| == |w|
    ensures MarkAfter(previous, w)[i]
         == MarkOne(if i == 0 then previous else MarkAfter(previous, w)[i - 1], w[i])
    decreases |w|
  {
    MarkAfterLength(previous, w);
    if i > 0 {
      MarkAfterIs(MarkOne(previous, w[0]), w[1..], i - 1);
    }
  }

  /** A y is marked at the beginning of a word and after a vowel, unless that is marked itself; nothing else changes. */
  lemma MarksAre(w: string)
    ensures |Marked(w)| == |w|
    ensures forall i | 0 <= i < |w| ::
              Marked(w)[i] == if w[i] == 'y' && (i == 0 || Marked(w)[i - 1] in "aeiouy") then 'Y' else w[i]
    ensures forall i | 0 <= i < |w| :: Marked(w)[i] == w[i] || (Marked(w)[i] == 'Y' && w[i] == 'y')
  {
    MarkAfterLength('a', w);
    forall i | 0 <= i < |w|
      ensures Marked(w)[i] == if w[i] == 'y' && (i == 0 || Marked(w)[i - 1] in "aeiouy") then 'Y' else w[i]
      ensures Marked(w)[i] == w[i] || (Marked(w)[i] == 'Y' && w[i] == 'y')
    {
      MarkAfterIs('a', w, i);
      if i > 0 {
        LettersAre(Marked(w)[i - 1]);
      }
    }
  }

  /** The word as the steps see it: without a leading apostrophe, and with its consonant y's marked. */
  function Prepared(u: string): string {
    Marked(Stripped(u))
  }

  /** An ending in which no y is marked, whatever it follows. */
  predicate Calm(s: string) {
    (s != "" ==> s[0] != 'y') && forall i | 1 <= i < |s| :: s[i] == 'y' ==> s[i - 1] !in "aeiouy"
  }

  lemma PreparedAppend(u: string, s: string)
    requires u != "" && Calm(s)
    ensures Prepared(u + s) == Prepared(u) + s && Stripped(u + s) == Stripped(u) + s
  {
    assert Stripped(u + s) == Stripped(u) + s;
    var a := Stripped(u);
    var m := Marked(a) + s;
    MarksAre(a);
    forall i | 0 <= i < |a + s| ensures m[i] == MarkOne(Previous(m, i), (a + s)[i]) {
      LettersAre(Previous(m, i));
      if i < |a| {
        assert i > 0 ==> m[i - 1] == Marked(a)[i - 1];
      } else if i > |a| {
        assert m[i - 1] == s[i - |a| - 1];
      }
    }
    hide Marked, MarkOne;
    MarkedUnique(a + s, m);
  }

  lemma UnmarkedSum(a: string, m: string, t: string)
    requires |m| == |a|
    requires forall i | 0 <= i < |a| :: a[i] != 'Y' && (m[i] == a[i] || (m[i] == 'Y' && a[i] == 'y'))
    requires forall i | 0 <= i < |t| :: t[i] != 'Y'
    ensures Unmarked(m + t) == a + t
  {}

  lemma UnmarkedPrepared(u: string, t: string)
    requires 'Y' !in u && 'Y' !in t
    ensures Unmarked(Prepared(u) + t) == Stripped(u) + t
  {
    var a := Stripped(u);
    MarksAre(a);
    assert forall i | 0 <= i < |a| :: a[i] in u;
    assert forall i | 0 <= i < |t| :: t[i] in t;
    forall i | 0 <= i < |a| ensures a[i] != 'Y' {
      assert a[i] in u;
    }
    UnmarkedSum(a, Marked(a), t);
  }

  // ---------------------------------------------------------------- words of their own

  lemma A10EntriesAre0To2()
    ensures |A10| == 18
    ensures A10[0] == Among("andes", -1, -1)
    ensures A10[1] == Among("atlas", -1, -1)
    ensures A10[2] == Among("bias", -1, -1)
  {}

  lemma A10EntriesAre3To5()
    ensures |A10| == 18
    ensures A10[3] == Among("cosmos", -1, -1)
    ensures A10[4] == Among("dying", -1, 3)
    ensures A10[5] == Among("early", -1, 9)
  {}

  lemma A10EntriesAre6To8()
    ensures |A10| == 18
    ensures A10[6] == Among("gently", -1, 7)
    ensures A10[7] == Among("howe", -1, -1)
    ensures A10[8] == Among("idly", -1, 6)
  {}

  lemma A10EntriesAre9To11()
    ensures |A10| == 18
    ensures A10[9] == Among("lying", -1, 4)
    ensures A10[10] == Among("news", -1, -1)
    ensures A10[11] == Among("only", -1, 10)
  {}

  lemma A10EntriesAre12To14()
    ensures |A10| == 18
    ensures A10[12] == Among("singly", -1, 11)
    ensures A10[13] == Among("skies", -1, 2)
    ensures A10[14] == Among("skis", -1, 1)
  {}

  lemma A10EntriesAre15To17()
    ensures |A10| == 18
    ensures A10[15] == Among("sky", -1, -1)
    ensures A10[16] == Among("tying", -1, 5)
    ensures A10[17] == Among("ugly", -1, 8)
  {}

  lemma A10EntriesAre()
    ensures |A10| == 18
    ensures A10[0] == Among("andes", -1, -1)
    ensures A10[1] == Among("atlas", -1, -1)
    ensures A10[2] == Among("bias", -1, -1)
    ensures A10[3] == Among("cosmos", -1, -1)
    ensures A10[4] == Among("dying", -1, 3)
    ensures A10[5] == Among("early", -1, 9)
    ensures A10[6] == Among("gently", -1, 7)
    ensures A10[7] == Among("howe", -1, -1)
    ensures A10[8] == Among("idly", -1, 6)
    ensures A10[9] == Among("lying", -1, 4)
    ensures A10[10] == Among("news", -1, -1)
    ensures A10[11] == Among("only", -1, 10)
    ensures A10[12] == Among("singly", -1, 11)
    ensures A10[13] == Among("skies", -1, 2)
    ensures A10[14] == Among("skis", -1, 1)
    ensures A10[15] == Among("sky", -1, -1)
    ensures A10[16] == Among("tying", -1, 5)
    ensures A10[17] == Among("ugly", -1, 8)
  {
    hide A10;
    A10EntriesAre0To2();
    A10EntriesAre3To5();
    A10EntriesAre6To8();
    A10EntriesAre9To11();
    A10EntriesAre12To14();
    A10EntriesAre15To17();
  }

  lemma ThereAre18Exceptions()
    ensures |EXCEPTIONS| == 18
  {}

  lemma ExceptionAt(m: int)
    requires 0 <= m < 18
    ensures |A10| == 18 && ExceptionOf(A10[m].s) == m
    ensures Stem(A10[m].s) == Apply(ActionX(A10[m].result), "", A10[m].s, 0, 0)
  {
    A10EntriesAre();
    ThereAre18Exceptions();
    hide A10, EXCEPTIONS, Apply, ActionX;
    var w := A10[m].s;
    assert IsLongestMatch(Forward, A10, w, m);
    ExceptionLookup(w, m);
  }

  /** The words that have a stem of their own. */
  lemma ExceptionsGive()
    ensures Stem("skis") == "ski" && Stem("skies") == "sky" && Stem("dying") == "die" && Stem("lying") == "lie"
    ensures Stem("tying") == "tie" && Stem("idly") == "idl" && Stem("gently") == "gentl" && Stem("ugly") == "ugli"
    ensures Stem("early") == "earli" && Stem("only") == "onli" && Stem("singly") == "singl"
    ensures Stem("sky") == "sky" && Stem("news") == "news" && Stem("howe") == "howe" && Stem("atlas") == "atlas"
    ensures Stem("cosmos") == "cosmos" && Stem("bias") == "bias" && Stem("andes") == "andes"
  {
    A10EntriesAre();
    hide A10, Stem, ExceptionOf;
    forall m | 0 <= m < 18 ensures Stem(A10[m].s) == Apply(ActionX(A10[m].result), "", A10[m].s, 0, 0) {
      ExceptionAt(m);
    }
  }

  predicate HasItsOwnStem(w: string) {
    || w == "skis" || w == "skies" || w == "dying" || w == "lying" || w == "tying" || w == "idly" || w == "gently"
    || w == "ugly" || w == "early" || w == "only" || w == "singly" || w == "sky" || w == "news" || w == "howe"
    || w == "atlas" || w == "cosmos" || w == "bias" || w == "andes"
  }

  lemma ExceptionsAre(w: string)
    ensures ExceptionOf(w) != -1 <==> HasItsOwnStem(w)
  {
    A10EntriesAre();
    ThereAre18Exceptions();
    hide A10, ExceptionOf, EXCEPTIONS;
    var m := ExceptionOf(w);
    if m != -1 {
      ExceptionRules(m);
      match m {
        case 0 => case 1 => case 2 => case 3 => case 4 => case 5 => case 6 => case 7 => case 8 =>
        case 9 => case 10 => case 11 => case 12 => case 13 => case 14 => case 15 => case 16 => case 17 =>
      }
    }
    forall k | 0 <= k < 18 ensures ExceptionOf(A10[k].s) == k {
      ExceptionAt(k);
    }
  }

  /** The words that are left alone once their plural is gone. */
  lemma InvariantsAre(a: string)
    ensures a in INVARIANTS <==>
            || a == "inning" || a == "outing" || a == "canning" || a == "herring" || a == "earring"
            || a == "proceed" || a == "exceed" || a == "succeed"
  {}
}

/**
 The test framework's own regular expressions: their validation and their backtracking matcher.

 Patterns have a grammar and a language here, stated without the code; the validator accepts exactly the renderings of
 patterns, and the matcher finds exactly the substrings in the language.  Strings end in a terminator, and `At`, which
 reads them, can be asked for no position past it.
 */
module SimpleRegex {
  import opened Wrappers

  const NUL := '\0'

  /** The characters of a string before its terminator. */
  type CString = s: string | NUL !in s

  function At(s: CString, i: nat): char
    requires i <= |s|
  {
    if i == |s| then NUL else s[i]
  }

  // ---------------------------------------------------------------- characters

  predicate IsInSet(ch: char, set_: string) {
    ch != NUL && ch in set_
  }

  const PUNCTUATION := "^-!\"#$%&'()*+,./:;<=>?@[\\]_`{|}~"

  predicate IsAsciiDigit(ch: char) {
    '0' <= ch <= '9'
  }

  predicate IsAsciiPunct(ch: char) {
    IsInSet(ch, PUNCTUATION)
  }

  predicate IsRepeat(ch: char) {
    IsInSet(ch, "?*+")
  }

  const FORM_FEED: char := '\U{0C}'
  const VERTICAL_TAB: char := '\U{0B}'

  predicate IsAsciiWhiteSpace(ch: char) {
    IsInSet(ch, [' ', FORM_FEED, '\n', '\r', '\t', VERTICAL_TAB])
  }

  predicate IsAsciiWordChar(ch: char) {
    'a' <= ch <= 'z' || 'A' <= ch <= 'Z' || '0' <= ch <= '9' || ch == '_'
  }

  predicate IsValidEscape(ch: char) {
    IsAsciiPunct(ch) || IsInSet(ch, "dDfnrsStvwW")
  }

  predicate AtomMatchesChar(escaped: bool, pattern: char, ch: char) {
    if escaped then
      match pattern
      case 'd' => IsAsciiDigit(ch)
      case 'D' => !IsAsciiDigit(ch)
      case 'f' => ch == FORM_FEED
      case 'n' => ch == '\n'
      case 'r' => ch == '\r'
      case 's' => IsAsciiWhiteSpace(ch)
      case 'S' => !IsAsciiWhiteSpace(ch)
      case 't' => ch == '\t'
      case 'v' => ch == VERTICAL_TAB
      case 'w' => IsAsciiWordChar(ch)
      case 'W' => !IsAsciiWordChar(ch)
      case _ => IsAsciiPunct(pattern) && pattern == ch
    else (pattern == '.' && ch != '\n') || pattern == ch
  }

  // ---------------------------------------------------------------- the grammar

  datatype Atom = Atom(escaped: bool, c: char)

  datatype Repeat = Once | AtMostOnce | AnyNumber | AtLeastOnce

  datatype Item = Item(atom: Atom, repeat: Repeat)

  datatype Pattern = Pattern(fromStart: bool, items: seq<Item>, toEnd: bool)

  /** An escape that is supported, or a character without a meaning of its own. */
  predicate IsAtom(a: Atom) {
    if a.escaped then IsValidEscape(a.c)
    else a.c !in {NUL, '\\', '^', '$', '(', ')', '[', ']', '{', '}', '|', '?', '*', '+'}
  }

  predicate WellFormed(items: seq<Item>) {
    forall i | 0 <= i < |items| :: IsAtom(items[i].atom)
  }

  function RenderAtom(a: Atom): string {
    if a.escaped then ['\\', a.c] else [a.c]
  }

  function RenderRepeat(r: Repeat): string {
    match r
    case Once => ""
    case AtMostOnce => "?"
    case AnyNumber => "*"
    case AtLeastOnce => "+"
  }

  function RenderItem(item: Item): string {
    RenderAtom(item.atom) + RenderRepeat(item.repeat)
  }

  function RenderItems(items: seq<Item>, toEnd: bool): string {
    if items == [] then (if toEnd then "$" else "") else RenderItem(items[0]) + RenderItems(items[1..], toEnd)
  }

  function Render(p: Pattern): string {
    (if p.fromStart then "^" else "") + RenderItems(p.items, p.toEnd)
  }

  // ---------------------------------------------------------------- the language

  predicate AllMatch(a: Atom, w: string) {
    forall i | 0 <= i < |w| :: AtomMatchesChar(a.escaped, a.c, w[i])
  }

  /** How often the atom may come. */
  predicate MayRepeat(r: Repeat, count: nat) {
    match r
    case Once => count == 1
    case AtMostOnce => count <= 1
    case AnyNumber => true
    case AtLeastOnce => count >= 1
  }

  predicate ItemMatches(item: Item, w: string) {
    MayRepeat(item.repeat, |w|) && AllMatch(item.atom, w)
  }

  /** The word falls into pieces that match the items one by one. */
  ghost predicate InLanguage(items: seq<Item>, w: string)
    decreases |items|
  {
    if items == [] then w == ""
    else exists k: nat :: k <= |w| && ItemMatches(items[0], w[..k]) && InLanguage(items[1..], w[k..])
  }

  /** A beginning of the string is in the language; all of it, if the pattern goes on to the end. */
  ghost predicate HeadMatches(items: seq<Item>, toEnd: bool, s: string) {
    exists j: nat :: j <= |s| && (toEnd ==> j == |s|) && InLanguage(items, s[..j])
  }

  /** A substring is in the language, where the pattern's anchors want it. */
  ghost predicate Accepts(p: Pattern, s: string) {
    exists i: nat, j: nat ::
      i <= j <= |s| && (p.fromStart ==> i == 0) && (p.toEnd ==> j == |s|) && InLanguage(p.items, s[i..j])
  }

  // ---------------------------------------------------------------- what the pieces stand for

  predicate InPunctuationRanges(c: int) {
    33 <= c <= 47 || 58 <= c <= 64 || 91 <= c <= 96 || 123 <= c <= 126
  }

  lemma PunctuationFirst(i: nat)
    requires 0 <= i < 8
    ensures InPunctuationRanges(PUNCTUATION[i] as int)
  {}

  lemma PunctuationSecond(i: nat)
    requires 8 <= i < 16
    ensures InPunctuationRanges(PUNCTUATION[i] as int)
  {}

  lemma PunctuationThird(i: nat)
    requires 16 <= i < 24
    ensures InPunctuationRanges(PUNCTUATION[i] as int)
  {}

  lemma PunctuationFourth(i: nat)
    requires 24 <= i < 32
    ensures InPunctuationRanges(PUNCTUATION[i] as int)
  {}

  lemma HasLow(c: int)
    requires 33 <= c <= 40
    ensures (c as char) in PUNCTUATION
  {
    assert PUNCTUATION[2] == '!' && PUNCTUATION[3] == '\"' && PUNCTUATION[4] == '#' && PUNCTUATION[5] == '$'
           && PUNCTUATION[6] == '%' && PUNCTUATION[7] == '&' && PUNCTUATION[8] == '\'' && PUNCTUATION[9] == '(';
  }

  lemma HasMiddle(c: int)
    requires 41 <= c <= 47
    ensures (c as char) in PUNCTUATION
  {
    assert PUNCTUATION[10] == ')' && PUNCTUATION[11] == '*' && PUNCTUATION[12] == '+' && PUNCTUATION[13] == ','
           && PUNCTUATION[1] == '-' && PUNCTUATION[14] == '.' && PUNCTUATION[15] == '/';
  }

  lemma HasHigh(c: int)
    requires 58 <= c <= 64
    ensures (c as char) in PUNCTUATION
  {
    assert PUNCTUATION[16] == ':' && PUNCTUATION[17] == ';' && PUNCTUATION[18] == '<' && PUNCTUATION[19] == '='
           && PUNCTUATION[20] == '>' && PUNCTUATION[21] == '?' && PUNCTUATION[22] == '@';
  }

  lemma HasBrackets(c: int)
    requires 91 <= c <= 96
    ensures (c as char) in PUNCTUATION
  {
    assert PUNCTUATION[23] == '[' && PUNCTUATION[24] == '\\' && PUNCTUATION[25] == ']' && PUNCTUATION[0] == '^'
           && PUNCTUATION[26] == '_' && PUNCTUATION[27] == '`';
  }

  lemma HasBraces(c: int)
    requires 123 <= c <= 126
    ensures (c as char) in PUNCTUATION
  {
    assert PUNCTUATION[28] == '{' && PUNCTUATION[29] == '|' && PUNCTUATION[30] == '}' && PUNCTUATION[31] == '~';
  }

  /** Punctuation is what is printed in ASCII and is neither a letter nor a digit nor the space. */
  lemma PunctuationIs(ch: char)
    ensures IsAsciiPunct(ch) <==>
            var c := ch as int; 33 <= c <= 47 || 58 <= c <= 64 || 91 <= c <= 96 || 123 <= c <= 126
  {
    assert |PUNCTUATION| == 32;
    hide PUNCTUATION;
    var c := ch as int;
    if i :| 0 <= i < |PUNCTUATION| && PUNCTUATION[i] == ch {
      if i < 8 {
        PunctuationFirst(i);
      } else if i < 16 {
        PunctuationSecond(i);
      } else if i < 24 {
        PunctuationThird(i);
      } else {
        PunctuationFourth(i);
      }
    }
    if 33 <= c <= 40 {
      HasLow(c);
    } else if 41 <= c <= 47 {
      HasMiddle(c);
    } else if 58 <= c <= 64 {
      HasHigh(c);
    } else if 91 <= c <= 96 {
      HasBrackets(c);
    } else if 123 <= c <= 126 {
      HasBraces(c);
    }
  }

  /** The atoms: any character but a line end, the classes and their complements, control characters, and literals. */
  lemma AtomsStandFor(ch: char, literal: char)
    ensures var c := ch as int;
      && (AtomMatchesChar(false, '.', ch) <==> c != 10)
      && (AtomMatchesChar(true, 'd', ch) <==> 48 <= c <= 57)
      && (AtomMatchesChar(true, 'w', ch) <==> 48 <= c <= 57 || 65 <= c <= 90 || c == 95 || 97 <= c <= 122)
      && (AtomMatchesChar(true, 's', ch) <==> 9 <= c <= 13 || c == 32)
      && (AtomMatchesChar(true, 'D', ch) <==> !AtomMatchesChar(true, 'd', ch))
      && (AtomMatchesChar(true, 'W', ch) <==> !AtomMatchesChar(true, 'w', ch))
      && (AtomMatchesChar(true, 'S', ch) <==> !AtomMatchesChar(true, 's', ch))
      && (AtomMatchesChar(true, 't', ch) <==> c == 9) && (AtomMatchesChar(true, 'n', ch) <==> c == 10)
      && (AtomMatchesChar(true, 'v', ch) <==> c == 11) && (AtomMatchesChar(true, 'f', ch) <==> c == 12)
      && (AtomMatchesChar(true, 'r', ch) <==> c == 13)
    ensures literal != '.' ==> (AtomMatchesChar(false, literal, ch) <==> ch == literal)
    ensures IsAsciiPunct(literal) ==> (AtomMatchesChar(true, literal, ch) <==> ch == literal)
  {
    if IsAsciiPunct(literal) {
      PunctuationIs(literal);
    }
    hide IsAsciiPunct;
  }

  /** Which characters may be atoms, bare and escaped. */
  lemma AtomsAre(c: char)
    ensures IsAtom(Atom(false, c)) <==>
            c != NUL && c != '\\' && c != '^' && c != '$' && c != '(' && c != ')' && c != '[' && c != ']'
            && c != '{' && c != '}' && c != '|' && c != '?' && c != '*' && c != '+'
    ensures IsAtom(Atom(true, c)) <==>
            || (33 <= c as int <= 47 || 58 <= c as int <= 64 || 91 <= c as int <= 96 || 123 <= c as int <= 126)
            || c == 'd' || c == 'D' || c == 'f' || c == 'n' || c == 'r' || c == 's' || c == 'S' || c == 't' || c == 'v'
            || c == 'w' || c == 'W'
  {
    PunctuationIs(c);
    hide IsAsciiPunct;
  }

  /** How items are written. */
  lemma ItemsAreWritten(c: char)
    ensures RenderItem(Item(Atom(false, c), Once)) == [c] && RenderItem(Item(Atom(true, c), Once)) == ['\\', c]
    ensures RenderItem(Item(Atom(false, c), AtMostOnce)) == [c, '?']
    ensures RenderItem(Item(Atom(false, c), AnyNumber)) == [c, '*']
    ensures RenderItem(Item(Atom(false, c), AtLeastOnce)) == [c, '+']
  {}

  /** The words of a single item: as many matching characters as its mark allows. */
  lemma ItemsStandFor(a: Atom, w: string)
    ensures var fits := forall i | 0 <= i < |w| :: AtomMatchesChar(a.escaped, a.c, w[i]);
      && (InLanguage([Item(a, Once)], w) <==> |w| == 1 && fits)
      && (InLanguage([Item(a, AtMostOnce)], w) <==> |w| <= 1 && fits)
      && (InLanguage([Item(a, AnyNumber)], w) <==> fits)
      && (InLanguage([Item(a, AtLeastOnce)], w) <==> |w| >= 1 && fits)
  {
    OneItem(Item(a, Once), w);
    OneItem(Item(a, AtMostOnce), w);
    OneItem(Item(a, AnyNumber), w);
    OneItem(Item(a, AtLeastOnce), w);
  }

  lemma OneItem(item: Item, w: string)
    ensures InLanguage([item], w) <==> ItemMatches(item, w)
  {
    hide ItemMatches;
    assert [item][1..] == [];
    assert w[..|w|] == w && w[|w|..] == "";
    assert InLanguage([], "");
    if k: nat :| k <= |w| && ItemMatches([item][0], w[..k]) && InLanguage([item][1..], w[k..]) {
      assert w[k..] == "" && w[..k] == w;
    }
  }

  /** The words of one list of items after another: a word of the first and then one of the second. */
  lemma {:induction false} ItemsFollow(a: seq<Item>, b: seq<Item>, w: string)
    ensures InLanguage(a + b, w) <==> exists k: nat :: k <= |w| && InLanguage(a, w[..k]) && InLanguage(b, w[k..])
    decreases |a|
  {
    hide ItemMatches;
    if a == [] {
      assert a + b == b && w[..0] == "" && w[0..] == w;
      assert InLanguage(a, w[..0]);
    } else {
      assert (a + b)[1..] == a[1..] + b;
      if InLanguage(a + b, w) {
        var j: nat :| j <= |w| && ItemMatches(a[0], w[..j]) && InLanguage(a[1..] + b, w[j..]);
        ItemsFollow(a[1..], b, w[j..]);
        var k: nat :| k <= |w| - j && InLanguage(a[1..], w[j..][..k]) && InLanguage(b, w[j..][k..]);
        assert w[..j + k][..j] == w[..j] && w[..j + k][j..] == w[j..][..k] && w[j..][k..] == w[j + k..];
        assert InLanguage(a, w[..j + k]);
      }
      if k: nat :| k <= |w| && InLanguage(a, w[..k]) && InLanguage(b, w[k..]) {
        var j: nat :| j <= k && ItemMatches(a[0], w[..k][..j]) && InLanguage(a[1..], w[..k][j..]);
        assert w[..k][..j] == w[..j] && w[..k][j..] == w[j..][..k - j] && w[j..][k - j..] == w[k..];
        ItemsFollow(a[1..], b, w[j..]);
        assert ItemMatches((a + b)[0], w[..j]) && InLanguage((a + b)[1..], w[j..]);
      }
    }
  }

  /** The anchors: both of them ask for the whole string, none for any substring. */
  lemma AnchorsStandFor(items: seq<Item>, s: string)
    ensures Accepts(Pattern(true, items, true), s) <==> InLanguage(items, s)
    ensures Accepts(Pattern(true, items, false), s) <==> exists j: nat :: j <= |s| && InLanguage(items, s[..j])
    ensures Accepts(Pattern(false, items, true), s) <==> exists i: nat :: i <= |s| && InLanguage(items, s[i..])
    ensures Accepts(Pattern(false, items, false), s) <==>
            exists i: nat, j: nat :: i <= j <= |s| && InLanguage(items, s[i..j])
  {
    hide InLanguage;
    assert s[0..|s|] == s;
    forall i: nat | i <= |s| ensures s[i..|s|] == s[i..] && s[0..i] == s[..i] {}
  }

  // ---------------------------------------------------------------- parsing

  function RepeatOf(ch: char): Repeat {
    if ch == '?' then AtMostOnce else if ch == '*' then AnyNumber else if ch == '+' then AtLeastOnce else Once
  }

  /** The atom at the head of a string: an escape or a character. */
  function FirstAtom(s: string): (a: Atom)
    requires s != ""
    ensures RenderAtom(a) <= s
  {
    if s[0] == '\\' && |s| >= 2 then Atom(true, s[1]) else Atom(false, s[0])
  }

  function FirstRepeat(s: string): (r: Repeat)
    ensures RenderRepeat(r) <= s
  {
    if s == "" then Once else RepeatOf(s[0])
  }

  /** The item at the head of a string, and what is left. */
  function Split(s: string): (r: (Item, string))
    requires s != ""
    ensures s == RenderItem(r.0) + r.1 && |r.1| < |s|
  {
    var atom := FirstAtom(s);
    var rest := s[|RenderAtom(atom)|..];
    var repeat := FirstRepeat(rest);
    var last := rest[|RenderRepeat(repeat)|..];
    assert rest == RenderRepeat(repeat) + last && s == RenderAtom(atom) + rest;
    (Item(atom, repeat), last)
  }

  /** The items a string renders, if it renders any. */
  function ParseItems(s: string): Option<(seq<Item>, bool)>
    decreases |s|
  {
    if s == "" then Some(([], false))
    else if s == "$" then Some(([], true))
    else
      var (item, rest) := Split(s);
      if !IsAtom(item.atom) then None
      else
        var more := ParseItems(rest);
        if more.None? then None else Some(([item] + more.value.0, more.value.1))
  }

  function Parse(s: string): Option<Pattern> {
    var fromStart := s != "" && s[0] == '^';
    var items := ParseItems(if fromStart then s[1..] else s);
    if items.None? then None else Some(Pattern(fromStart, items.value.0, items.value.1))
  }

  lemma {:induction false} ParseSound(s: string)
    requires ParseItems(s).Some?
    ensures var (items, toEnd) := ParseItems(s).value; WellFormed(items) && RenderItems(items, toEnd) == s
    decreases |s|
  {
    hide IsAtom, Split, RenderItem;
    if s != "" && s != "$" {
      ParseSound(Split(s).1);
    }
  }

  /** What follows an item never begins with a repetition mark. */
  lemma NoMarkAhead(items: seq<Item>, toEnd: bool)
    requires WellFormed(items)
    ensures FirstRepeat(RenderItems(items, toEnd)) == Once && !("^" <= RenderItems(items, toEnd))
    ensures items != [] ==> RenderItems(items, toEnd) != "$" && RenderItems(items, toEnd) != ""
  {
    if items != [] {
      assert IsAtom(items[0].atom);
    }
  }

  /** An item is split off where it was put in front. */
  lemma SplitRender(item: Item, rest: string)
    requires IsAtom(item.atom) && FirstRepeat(rest) == Once
    ensures RenderItem(item) + rest != "" && Split(RenderItem(item) + rest) == (item, rest)
  {
    var s, mark := RenderItem(item) + rest, RenderRepeat(item.repeat);
    assert s == RenderAtom(item.atom) + (mark + rest);
    assert FirstAtom(s) == item.atom by {
      assert !item.atom.escaped ==> s[0] == item.atom.c != '\\';
    }
    assert s[|RenderAtom(item.atom)|..] == mark + rest;
    assert FirstRepeat(mark + rest) == item.repeat;
    assert (mark + rest)[|mark|..] == rest;
  }

  lemma {:induction false} ParseComplete(items: seq<Item>, toEnd: bool)
    requires WellFormed(items)
    ensures ParseItems(RenderItems(items, toEnd)) == Some((items, toEnd))
    decreases |items|
  {
    hide IsAtom, Split, RenderItem, FirstRepeat;
    if items != [] {
      ParseComplete(items[1..], toEnd);
      NoMarkAhead(items, toEnd);
      NoMarkAhead(items[1..], toEnd);
      SplitRender(items[0], RenderItems(items[1..], toEnd));
      assert [items[0]] + items[1..] == items;
    }
  }

  /** A string has at most one pattern, and parsing finds it. */
  lemma ParseIsInverse(s: string, p: Pattern)
    ensures Parse(s) == Some(p) <==> WellFormed(p.items) && Render(p) == s
  {
    hide ParseItems, RenderItems, WellFormed, FirstRepeat;
    if Parse(s) == Some(p) {
      ParseSound(if p.fromStart then s[1..] else s);
    }
    if WellFormed(p.items) && Render(p) == s {
      ParseComplete(p.items, p.toEnd);
      NoMarkAhead(p.items, p.toEnd);
      var rest := RenderItems(p.items, p.toEnd);
      assert ("^" + rest)[1..] == rest;
      assert "" + rest == rest;
      assert s != "" && s[0] == '^' ==> "^" <= s;
    }
  }

  // ---------------------------------------------------------------- validation

  /** Whether a character may stand at the head of what is left of the pattern. */
  predicate Allowed(s: string, first: bool, prevRepeatable: bool)
    requires s != ""
  {
    && (s[0] == '^' ==> first)
    && (s[0] == '$' ==> |s| == 1)
    && !IsInSet(s[0], "()[]{}|")
    && (IsRepeat(s[0]) ==> prevRepeatable)
  }

  /** The validator's scan of what is left of the pattern. */
  predicate Check(s: string, first: bool, prevRepeatable: bool)
    decreases |s|
  {
    if s == "" then true
    else if s[0] == '\\' then |s| >= 2 && IsValidEscape(s[1]) && Check(s[2..], false, true)
    else Allowed(s, first, prevRepeatable) && Check(s[1..], false, !IsInSet(s[0], "^$?*+"))
  }

  method ValidateRegex(regex: Option<CString>) returns (isValid: bool)
    ensures isValid <==> regex.Some? && Parse(regex.value).Some?
  {
    hide Parse, Check, IsValidEscape, IsInSet, IsRepeat;
    if regex.None? {
      return false;
    }
    var re := regex.value;
    CheckIffParses(re);
    isValid := true;
    var prevRepeatable := false;
    var i := 0;
    assert re[0..] == re;
    while At(re, i) != NUL
      invariant i <= |re|
      invariant (isValid && Check(re[i..], i == 0, prevRepeatable)) == Check(re, true, false)
      decreases |re| - i
    {
      ScanStep(re, i, prevRepeatable);
      if At(re, i) == '\\' {
        i := i + 1;
        if At(re, i) == NUL {
          return false;
        }
        if !IsValidEscape(At(re, i)) {
          isValid := false;
        }
        prevRepeatable := true;
      } else {
        var ch := At(re, i);
        if ch == '^' && i > 0 {
          isValid := false;
        } else if ch == '$' && At(re, i + 1) != NUL {
          isValid := false;
        } else if IsInSet(ch, "()[]{}|") {
          isValid := false;
        } else if IsRepeat(ch) && !prevRepeatable {
          isValid := false;
        }
        prevRepeatable := !IsInSet(ch, "^$?*+");
      }
      i := i + 1;
    }
    assert re[i..] == "";
    EmptyChecks();
  }

  /** One turn of the validator's loop. */
  lemma ScanStep(re: CString, i: nat, prevRepeatable: bool)
    requires i < |re|
    ensures re[i] != NUL && (i + 1 < |re| ==> re[i + 1] != NUL)
    ensures Check(re[i..], i == 0, prevRepeatable) <==>
            if re[i] == '\\' then i + 1 < |re| && IsValidEscape(re[i + 1]) && Check(re[i + 2..], false, true)
            else
              && !(re[i] == '^' && i > 0) && !(re[i] == '$' && i + 1 < |re|) && !IsInSet(re[i], "()[]{}|")
              && !(IsRepeat(re[i]) && !prevRepeatable)
              && Check(re[i + 1..], false, !IsInSet(re[i], "^$?*+"))
  {
    hide IsValidEscape, IsInSet, IsRepeat;
    var s := re[i..];
    assert re[i] in re && (i + 1 < |re| ==> re[i + 1] in re);
    assert s[1..] == re[i + 1..];
    assert |s| >= 2 ==> s[2..] == re[i + 2..];
  }

  /** The character classes of the scan and those of the grammar. */
  lemma Classes(ch: char)
    requires ch != NUL
    ensures IsInSet(ch, "()[]{}|") <==> ch in {'(', ')', '[', ']', '{', '}', '|'}
    ensures IsRepeat(ch) <==> ch in {'?', '*', '+'}
    ensures IsInSet(ch, "^$?*+") <==> ch in {'^', '$', '?', '*', '+'}
  {}

  /** One step of the scan. */
  lemma CheckStep(s: CString, prevRepeatable: bool)
    requires s != ""
    ensures Check(s, false, prevRepeatable) <==>
            if s[0] == '\\' then |s| >= 2 && IsValidEscape(s[1]) && Check(s[2..], false, true)
            else if s[0] in {'?', '*', '+'} then prevRepeatable && Check(s[1..], false, false)
            else if s[0] == '$' then |s| == 1
            else s[0] !in {'^', '(', ')', '[', ']', '{', '}', '|'} && Check(s[1..], false, true)
  {
    hide IsValidEscape, IsInSet, IsRepeat;
    assert s[0] in s;
    Classes(s[0]);
    assert Check("", false, false);
  }

  /** What can be parsed after an atom: perhaps a mark, then items. */
  predicate ParsesAfterAtom(s: string) {
    if FirstRepeat(s) == Once then ParseItems(s).Some? else ParseItems(s[1..]).Some?
  }

  /** One step of the parse. */
  lemma ParseStep(s: CString)
    requires s != ""
    ensures ParseItems(s).Some? <==>
            if s[0] == '\\' then |s| >= 2 && IsValidEscape(s[1]) && ParsesAfterAtom(s[2..])
            else if s[0] == '$' then |s| == 1
            else s[0] !in {'?', '*', '+', '^', '(', ')', '[', ']', '{', '}', '|'} && ParsesAfterAtom(s[1..])
  {
    hide IsValidEscape, Split, FirstRepeat;
    assert s[0] in s;
    SplitBySteps(s);
  }

  /** Past the beginning, the scan accepts what can be parsed, after a mark if one may follow. */
  lemma {:induction false} CheckIffItems(s: CString)
    ensures Check(s, false, false) <==> ParseItems(s).Some?
    ensures Check(s, false, true) <==> ParsesAfterAtom(s)
    decreases |s|
  {
    hide IsValidEscape, IsInSet, IsRepeat, Check, ParseItems;
    if s == "" {
      EmptyChecks();
    } else {
      CheckIffItems(s[1..]);
      if |s| >= 2 {
        CheckIffItems(s[2..]);
      }
      CheckStep(s, false);
      CheckStep(s, true);
      ParseStep(s);
    }
  }

  lemma EmptyChecks()
    ensures forall first, prevRepeatable :: Check("", first, prevRepeatable)
    ensures ParseItems("").Some?
  {}

  /** The first item of a string, one or two characters and then perhaps a mark. */
  lemma SplitBySteps(s: string)
    requires s != ""
    ensures var n := if s[0] == '\\' && |s| >= 2 then 2 else 1;
      && Split(s).0.atom == (if n == 2 then Atom(true, s[1]) else Atom(false, s[0]))
      && Split(s).1 == if FirstRepeat(s[n..]) == Once then s[n..] else s[n..][1..]
  {}

  lemma CheckIffParses(s: CString)
    ensures Check(s, true, false) <==> Parse(s).Some?
  {
    hide IsValidEscape, IsInSet, IsRepeat, ParseItems;
    if s == "" {
      EmptyChecks();
    } else {
      assert s[0] in s;
      Classes(s[0]);
      CheckIffItems(s);
      CheckIffItems(s[1..]);
    }
  }

  // ---------------------------------------------------------------- matching

  /** The item takes the first `k` characters and the others match the rest. */
  ghost predicate Takes(item: Item, rest: seq<Item>, toEnd: bool, s: string, k: nat) {
    k <= |s| && ItemMatches(item, s[..k]) && HeadMatches(rest, toEnd, s[k..])
  }

  lemma TakesSome(items: seq<Item>, toEnd: bool, s: string)
    requires items != []
    ensures HeadMatches(items, toEnd, s) <==> exists k: nat :: Takes(items[0], items[1..], toEnd, s, k)
  {
    hide ItemMatches;
    if HeadMatches(items, toEnd, s) {
      var j: nat :| j <= |s| && (toEnd ==> j == |s|) && InLanguage(items, s[..j]);
      var w := s[..j];
      var k: nat :| k <= |w| && ItemMatches(items[0], w[..k]) && InLanguage(items[1..], w[k..]);
      assert w[..k] == s[..k] && w[k..] == s[k..][..j - k];
      assert Takes(items[0], items[1..], toEnd, s, k);
    }
    if k: nat :| Takes(items[0], items[1..], toEnd, s, k) {
      var j: nat :| j <= |s[k..]| && (toEnd ==> j == |s[k..]|) && InLanguage(items[1..], s[k..][..j]);
      var w := s[..k + j];
      assert w[..k] == s[..k] && w[k..] == s[k..][..j];
      assert InLanguage(items, w);
    }
  }

  lemma NothingLeft(toEnd: bool, s: string)
    ensures HeadMatches([], toEnd, s) <==> !toEnd || s == ""
  {
    if !toEnd || s == "" {
      assert InLanguage([], s[..0]);
    }
  }

  /** Where the parts of the first item stand in the pattern: what the matcher looks at, and what it goes on with. */
  lemma HeadShape(regex: CString, r: nat, items: seq<Item>, toEnd: bool)
    requires r <= |regex| && regex[r..] == RenderItems(items, toEnd) && WellFormed(items)
    ensures items == [] ==> if toEnd then At(regex, r) == '$' else At(regex, r) == NUL
    ensures items != [] ==>
              var a, q := items[0].atom, r + if At(regex, r) == '\\' then 1 else 0;
              && At(regex, r) !in {NUL, '$'} && (At(regex, r) == '\\' <==> a.escaped)
              && q < |regex| && regex[q] == a.c
              && (IsRepeat(At(regex, q + 1)) <==> items[0].repeat != Once)
              && if items[0].repeat == Once then regex[q + 1..] == RenderItems(items[1..], toEnd)
                 else
                   && q + 2 <= |regex| && RepeatOf(regex[q + 1]) == items[0].repeat
                   && regex[q + 2..] == RenderItems(items[1..], toEnd)
  {
    hide IsAtom, RenderItem, IsRepeat, RepeatOf;
    var s := regex[r..];
    if items != [] {
      var rest := RenderItems(items[1..], toEnd);
      NoMarkAhead(items[1..], toEnd);
      ItemShape(items[0], rest);
      var n := |RenderAtom(items[0].atom)|;
      MarkIsRepeat(At(regex, r + n));
      assert s[0] == regex[r] && s[n - 1] == regex[r + n - 1] && s[n..] == regex[r + n..];
      if n < |s| {
        assert s[n] == regex[r + n] && s[n + 1..] == regex[r + n + 1..];
      }
    } else if toEnd {
      assert regex[r] == s[0];
    }
  }

  /** The parts of a rendered item. */
  lemma ItemShape(item: Item, rest: string)
    requires IsAtom(item.atom) && FirstRepeat(rest) == Once
    ensures var s, n := RenderItem(item) + rest, |RenderAtom(item.atom)|;
      && n == (if item.atom.escaped then 2 else 1) <= |s|
      && s[0] !in {NUL, '$'} && (s[0] == '\\' <==> item.atom.escaped) && s[n - 1] == item.atom.c
      && (n < |s| ==> RepeatOf(s[n]) == item.repeat) && (n == |s| ==> item.repeat == Once)
      && if item.repeat == Once then s[n..] == rest else n < |s| && s[n + 1..] == rest
  {
    var mark, n := RenderRepeat(item.repeat), |RenderAtom(item.atom)|;
    var s := RenderItem(item) + rest;
    assert s == RenderAtom(item.atom) + (mark + rest);
    assert s[n..] == mark + rest;
    if item.repeat != Once {
      assert s[n] == mark[0];
    }
  }

  lemma MarkIsRepeat(ch: char)
    ensures IsRepeat(ch) <==> RepeatOf(ch) != Once
    ensures RepeatOf(NUL) == Once
  {}

  /** Tries ever more repetitions; each failed try is one that no match can use. */
  method MatchRepetitionAndRegexAtHead(escaped: bool, c: char, repeat: char, regex: CString, r: nat, str: CString,
      t: nat, ghost item: Item, ghost rest: seq<Item>, ghost toEnd: bool)
    returns (matches: bool)
    requires r <= |regex| && t <= |str| && WellFormed(rest) && regex[r..] == RenderItems(rest, toEnd)
    requires item == Item(Atom(escaped, c), RepeatOf(repeat)) && IsRepeat(repeat)
    ensures matches <==> HeadMatches([item] + rest, toEnd, str[t..])
    decreases |regex| - r, 1
  {
    hide InLanguage, HeadMatches, AtomMatchesChar, RenderItems, WellFormed;
    MarkIsRepeat(repeat);
    var minCount := if repeat == '+' then 1 else 0;
    ghost var s := str[t..];
    TakesSome([item] + rest, toEnd, s);
    assert ([item] + rest)[0] == item && ([item] + rest)[1..] == rest;
    var i := 0;
    while repeat != '?' || i <= 1
      invariant t + i <= |str| && AllMatch(item.atom, s[..i])
      invariant forall k: nat | k < i :: !Takes(item, rest, toEnd, s, k)
      decreases |str| - (t + i) + if repeat == '?' then 2 - i else 0
    {
      assert s[i..] == str[t + i..];
      if i >= minCount {
        var tail := MatchRegexAtHead(regex, r, str, t + i, rest, toEnd);
        if tail {
          TakeNow(item, rest, toEnd, s, i);
          return true;
        }
      }
      NotNow(item, rest, toEnd, s, i, minCount);
      if At(str, t + i) == NUL || !AtomMatchesChar(escaped, c, At(str, t + i)) {
        return false;
      }
      i := i + 1;
    }
    return false;
  }

  lemma TakeNow(item: Item, rest: seq<Item>, toEnd: bool, s: string, k: nat)
    requires k <= |s| && MayRepeat(item.repeat, k) && AllMatch(item.atom, s[..k]) && HeadMatches(rest, toEnd, s[k..])
    ensures Takes(item, rest, toEnd, s, k)
  {}

  lemma NotNow(item: Item, rest: seq<Item>, toEnd: bool, s: string, k: nat, minCount: nat)
    requires k <= |s| && (item.repeat == AtLeastOnce ==> minCount == 1)
    requires k < minCount || !HeadMatches(rest, toEnd, s[k..])
    requires minCount <= (if item.repeat == AtLeastOnce then 1 else 0)
    ensures !Takes(item, rest, toEnd, s, k)
  {
    hide HeadMatches;
  }

  /** Whether a beginning of the string from `t` on matches the pattern from `r` on. */
  method MatchRegexAtHead(regex: CString, r: nat, str: CString, t: nat, ghost items: seq<Item>, ghost toEnd: bool)
    returns (matches: bool)
    requires r <= |regex| && t <= |str| && WellFormed(items) && regex[r..] == RenderItems(items, toEnd)
    ensures matches <==> HeadMatches(items, toEnd, str[t..])
    decreases |regex| - r, 0
  {
    hide InLanguage, HeadMatches, AtomMatchesChar, RenderItems, IsRepeat;
    HeadShape(regex, r, items, toEnd);
    if At(regex, r) == NUL {
      NothingLeft(toEnd, str[t..]);
      return true;
    }
    if At(regex, r) == '$' {
      NothingLeft(toEnd, str[t..]);
      return At(str, t) == NUL;
    }
    var escaped := At(regex, r) == '\\';
    var q := if escaped then r + 1 else r;
    assert items == [items[0]] + items[1..];
    if IsRepeat(At(regex, q + 1)) {
      matches := MatchRepetitionAndRegexAtHead(escaped, At(regex, q), At(regex, q + 1), regex, q + 2, str, t,
                                               items[0], items[1..], toEnd);
    } else {
      TakesOne(items, toEnd, str[t..]);
      if At(str, t) != NUL && AtomMatchesChar(escaped, At(regex, q), At(str, t)) {
        assert str[t..][1..] == str[t + 1..];
        matches := MatchRegexAtHead(regex, q + 1, str, t + 1, items[1..], toEnd);
      } else {
        matches := false;
      }
    }
  }

  lemma TakesOne(items: seq<Item>, toEnd: bool, s: string)
    requires items != [] && items[0].repeat == Once
    ensures HeadMatches(items, toEnd, s) <==>
            s != "" && AtomMatchesChar(items[0].atom.escaped, items[0].atom.c, s[0])
                && HeadMatches(items[1..], toEnd, s[1..])
  {
    hide AtomMatchesChar, HeadMatches;
    TakesSome(items, toEnd, s);
    if s != "" {
      assert s[..1][0] == s[0];
      assert Takes(items[0], items[1..], toEnd, s, 1) <==>
             AtomMatchesChar(items[0].atom.escaped, items[0].atom.c, s[0]) && HeadMatches(items[1..], toEnd, s[1..]);
    }
  }

  lemma AcceptsAtHead(p: Pattern, s: string)
    ensures p.fromStart ==> (Accepts(p, s) <==> HeadMatches(p.items, p.toEnd, s))
    ensures !p.fromStart ==> (Accepts(p, s) <==> exists i: nat | i <= |s| :: HeadMatches(p.items, p.toEnd, s[i..]))
  {
    hide InLanguage;
    forall i: nat, j: nat | i <= j <= |s| ensures s[i..][..j - i] == s[i..j] {}
    if Accepts(p, s) {
      var i: nat, j: nat :| i <= j <= |s| && (p.fromStart ==> i == 0) && (p.toEnd ==> j == |s|)
          && InLanguage(p.items, s[i..j]);
      assert s[i..][..j - i] == s[i..j] && s[0..] == s;
      assert HeadMatches(p.items, p.toEnd, s[i..]);
    }
    forall i: nat | i <= |s| && HeadMatches(p.items, p.toEnd, s[i..]) && (p.fromStart ==> i == 0)
      ensures Accepts(p, s)
    {
      var j: nat :| j <= |s[i..]| && (p.toEnd ==> j == |s[i..]|) && InLanguage(p.items, s[i..][..j]);
      assert s[i..][..j] == s[i..i + j];
    }
    assert s[0..] == s;
  }

  /** For every valid pattern and every string: whether some substring is in the pattern's language. */
  method MatchRegexAnywhere(regex: Option<CString>, str: Option<CString>) returns (matches: bool)
    requires regex.Some? ==> Parse(regex.value).Some?
    ensures matches <==> regex.Some? && str.Some? && Accepts(Parse(regex.value).value, str.value)
  {
    hide HeadMatches, Accepts, ParseItems, RenderItems, WellFormed;
    if regex.None? || str.None? {
      return false;
    }
    var re, text := regex.value, str.value;
    ghost var p := Parse(re).value;
    ParseIsInverse(re, p);
    AcceptsAtHead(p, text);
    if At(re, 0) == '^' {
      assert text[0..] == text;
      matches := MatchRegexAtHead(re, 1, text, 0, p.items, p.toEnd);
      return;
    }
    var t := 0;
    while true
      invariant t <= |text| && forall i: nat | i < t :: !HeadMatches(p.items, p.toEnd, text[i..])
      decreases |text| - t
    {
      var found := MatchRegexAtHead(re, 0, text, t, p.items, p.toEnd);
      if found {
        return true;
      }
      if At(text, t) == NUL {
        return false;
      }
      t := t + 1;
    }
  }

}

/**
 The look-up tables of the English stemmer, entry for entry, and the proof that each is a table its search can use.

 A table is checked one entry at a time against the entry before: where the two part when read in the table's
 direction, and that the link is the nearest entry on the previous one's chain that ends by then.
 */
module EnglishTables {
  import opened Lexicographic
  import opened PrefixTables
  import opened SnowballRuntime

  // ---------------------------------------------------------------- checking one entry

  /** Follows the links from entry `x` to the first of at most `d` symbols. */
  function NearestIn(v: seq<Among>, x: int, d: int): int
    decreases x
  {
    if !(0 <= x < |v|) then -1
    else if |v[x].s| <= d then x
    else if v[x].substring_i < x then NearestIn(v, v[x].substring_i, d) else -1
  }

  ghost predicate EntryParts(dir: Direction, v: seq<Among>, i: int, d: nat)
    requires 0 < i < |v|
  {
    && PartsAt(View(dir, v[i - 1].s), View(dir, v[i].s), d)
    && v[i].substring_i == NearestIn(v, i - 1, d)
  }

  ghost predicate EntryOk(dir: Direction, v: seq<Among>, i: int) {
    0 < i < |v| && -1 <= v[i].substring_i < i && exists d: nat :: EntryParts(dir, v, i, d)
  }

  ghost function PartOf(dir: Direction, v: seq<Among>, i: int): (d: nat)
    requires EntryOk(dir, v, i)
    ensures EntryParts(dir, v, i, d)
  {
    var d: nat :| EntryParts(dir, v, i, d); d
  }

  lemma {:induction false} NearestAgrees(dir: Direction, v: seq<Among>, x: int, d: int)
    requires (forall i :: 0 <= i < |v| ==> -1 <= v[i].substring_i < i) && x < |v|
    ensures (if x < 0 then -1 else NearestIn(v, x, d)) == NearestWithin(Keys(dir, v), Links(v), x, d)
    decreases x
  {
    if x >= 0 && |v[x].s| > d {
      NearestAgrees(dir, v, v[x].substring_i, d);
    }
  }

  /** Entries that fit the ones before them make a table the search can use. */
  lemma TableFromEntries(dir: Direction, v: seq<Among>)
    requires |v| > 0 && v[0].substring_i == -1 && forall i :: 0 < i < |v| ==> EntryOk(dir, v, i)
    ensures WellFormedTable(dir, v)
  {
    forall i | 0 <= i < |v| ensures -1 <= v[i].substring_i < i {
      assert i == 0 || EntryOk(dir, v, i);
    }
    var parts := seq(|v|, i requires 0 <= i < |v| => if i == 0 then 0 else PartOf(dir, v, i));
    forall i | 0 < i < |v|
      ensures PartsAt(Keys(dir, v)[i - 1], Keys(dir, v)[i], parts[i])
      ensures Links(v)[i] == NearestWithin(Keys(dir, v), Links(v), i - 1, parts[i])
    {
      assert EntryParts(dir, v, i, parts[i]);
      NearestAgrees(dir, v, i - 1, parts[i]);
    }
    LocallyBuiltIsWellFormed(Keys(dir, v), Links(v), parts);
  }

  // ---------------------------------------------------------------- the tables

  /** The prefixes with a first region of their own. */
  const A0: seq<Among> := [
    Among("arsen", -1, -1),
    Among("commun", -1, -1),
    Among("gener", -1, -1)
  ]

  lemma A0Entries(i: int)
    requires 1 <= i < 3
    ensures EntryOk(Forward, A0, i)
  {
    match i {
      case 1 => assert EntryParts(Forward, A0, 1, 0);
      case 2 => assert EntryParts(Forward, A0, 2, 0);
    }
  }

  lemma A0WellFormed()
    ensures WellFormedTable(Forward, A0)
  {
    forall i | 0 < i < |A0| ensures EntryOk(Forward, A0, i) {
      A0Entries(i);
    }
    TableFromEntries(Forward, A0);
  }

  /** Step 1a, possessives. */
  const A1: seq<Among> := [
    Among("'", -1, 1),
    Among("'s'", 0, 1),
    Among("'s", -1, 1)
  ]

  lemma A1Entries(i: int)
    requires 1 <= i < 3
    ensures EntryOk(Backward, A1, i)
  {
    match i {
      case 1 => assert EntryParts(Backward, A1, 1, 1);
      case 2 => assert NearestIn(A1, 0, 0) == -1; assert EntryParts(Backward, A1, 2, 0);
    }
  }

  lemma A1WellFormed()
    ensures WellFormedTable(Backward, A1)
  {
    forall i | 0 < i < |A1| ensures EntryOk(Backward, A1, i) {
      A1Entries(i);
    }
    TableFromEntries(Backward, A1);
  }

  /** Step 1a, plurals. */
  const A2: seq<Among> := [
    Among("ied", -1, 2),
    Among("s", -1, 3),
    Among("ies", 1, 2),
    Among("sses", 1, 1),
    Among("ss", 1, -1),
    Among("us", 1, -1)
  ]

  lemma A2EntriesFrom1(i: int)
    requires 1 <= i < 5
    ensures EntryOk(Backward, A2, i)
  {
    match i {
      case 1 => assert EntryParts(Backward, A2, 1, 0);
      case 2 => assert EntryParts(Backward, A2, 2, 1);
      case 3 => assert EntryParts(Backward, A2, 3, 2);
      case 4 => assert EntryParts(Backward, A2, 4, 1);
    }
  }

  lemma A2EntriesFrom5(i: int)
    requires 5 <= i < 6
    ensures EntryOk(Backward, A2, i)
  {
    match i {
      case 5 => assert EntryParts(Backward, A2, 5, 1);
    }
  }

  lemma A2WellFormed()
    ensures WellFormedTable(Backward, A2)
  {
    forall i | 0 < i < |A2| ensures EntryOk(Backward, A2, i) {
      if i < 5 {
        A2EntriesFrom1(i);
      } else {
        A2EntriesFrom5(i);
      }
    }
    TableFromEntries(Backward, A2);
  }

  /** Step 1b, endings left by a deletion. */
  const A3: seq<Among> := [
    Among("", -1, 3),
    Among("bb", 0, 2),
    Among("dd", 0, 2),
    Among("ff", 0, 2),
    Among("gg", 0, 2),
    Among("bl", 0, 1),
    Among("mm", 0, 2),
    Among("nn", 0, 2),
    Among("pp", 0, 2),
    Among("rr", 0, 2),
    Among("at", 0, 1),
    Among("tt", 0, 2),
    Among("iz", 0, 1)
  ]

  lemma A3EntriesFrom1(i: int)
    requires 1 <= i < 5
    ensures EntryOk(Backward, A3, i)
  {
    match i {
      case 1 => assert EntryParts(Backward, A3, 1, 0);
      case 2 => assert EntryParts(Backward, A3, 2, 0);
      case 3 => assert EntryParts(Backward, A3, 3, 0);
      case 4 => assert EntryParts(Backward, A3, 4, 0);
    }
  }

  lemma A3EntriesFrom5(i: int)
    requires 5 <= i < 9
    ensures EntryOk(Backward, A3, i)
  {
    match i {
      case 5 => assert EntryParts(Backward, A3, 5, 0);
      case 6 => assert EntryParts(Backward, A3, 6, 0);
      case 7 => assert EntryParts(Backward, A3, 7, 0);
      case 8 => assert EntryParts(Backward, A3, 8, 0);
    }
  }

  lemma A3EntriesFrom9(i: int)
    requires 9 <= i < 13
    ensures EntryOk(Backward, A3, i)
  {
    match i {
      case 9 => assert EntryParts(Backward, A3, 9, 0);
      case 10 => assert EntryParts(Backward, A3, 10, 0);
      case 11 => assert EntryParts(Backward, A3, 11, 1);
      case 12 => assert EntryParts(Backward, A3, 12, 0);
    }
  }

  lemma A3WellFormed()
    ensures WellFormedTable(Backward, A3)
  {
    forall i | 0 < i < |A3| ensures EntryOk(Backward, A3, i) {
      if i < 5 {
        A3EntriesFrom1(i);
      } else if i < 9 {
        A3EntriesFrom5(i);
      } else {
        A3EntriesFrom9(i);
      }
    }
    TableFromEntries(Backward, A3);
  }

  /** Step 1b. */
  const A4: seq<Among> := [
    Among("ed", -1, 2),
    Among("eed", 0, 1),
    Among("ing", -1, 2),
    Among("edly", -1, 2),
    Among("eedly", 3, 1),
    Among("ingly", -1, 2)
  ]

  lemma A4EntriesFrom1(i: int)
    requires 1 <= i < 5
    ensures EntryOk(Backward, A4, i)
  {
    match i {
      case 1 => assert EntryParts(Backward, A4, 1, 2);
      case 2 => assert NearestIn(A4, 0, 0) == -1; assert EntryParts(Backward, A4, 2, 0);
      case 3 => assert EntryParts(Backward, A4, 3, 0);
      case 4 => assert EntryParts(Backward, A4, 4, 4);
    }
  }

  lemma A4EntriesFrom5(i: int)
    requires 5 <= i < 6
    ensures EntryOk(Backward, A4, i)
  {
    match i {
      case 5 => assert NearestIn(A4, 3, 2) == -1; assert EntryParts(Backward, A4, 5, 2);
    }
  }

  lemma A4WellFormed()
    ensures WellFormedTable(Backward, A4)
  {
    forall i | 0 < i < |A4| ensures EntryOk(Backward, A4, i) {
      if i < 5 {
        A4EntriesFrom1(i);
      } else {
        A4EntriesFrom5(i);
      }
    }
    TableFromEntries(Backward, A4);
  }

  /** Step 2. */
  const A5: seq<Among> := [
    Among("anci", -1, 3),
    Among("enci", -1, 2),
    Among("ogi", -1, 13),
    Among("li", -1, 16),
    Among("bli", 3, 12),
    Among("abli", 4, 4),
    Among("alli", 3, 8),
    Among("fulli", 3, 14),
    Among("lessli", 3, 15),
    Among("ousli", 3, 10),
    Among("entli", 3, 5),
    Among("aliti", -1, 8),
    Among("biliti", -1, 12),
    Among("iviti", -1, 11),
    Among("tional", -1, 1),
    Among("ational", 14, 7),
    Among("alism", -1, 8),
    Among("ation", -1, 7),
    Among("ization", 17, 6),
    Among("izer", -1, 6),
    Among("ator", -1, 7),
    Among("iveness", -1, 11),
    Among("fulness", -1, 9),
    Among("ousness", -1, 10)
  ]

  lemma A5EntriesFrom1(i: int)
    requires 1 <= i < 5
    ensures EntryOk(Backward, A5, i)
  {
    match i {
      case 1 => assert EntryParts(Backward, A5, 1, 3);
      case 2 => assert EntryParts(Backward, A5, 2, 1);
      case 3 => assert EntryParts(Backward, A5, 3, 1);
      case 4 => assert EntryParts(Backward, A5, 4, 2);
    }
  }

  lemma A5EntriesFrom5(i: int)
    requires 5 <= i < 9
    ensures EntryOk(Backward, A5, i)
  {
    match i {
      case 5 => assert EntryParts(Backward, A5, 5, 3);
      case 6 => assert NearestIn(A5, 4, 2) == 3; assert EntryParts(Backward, A5, 6, 2);
      case 7 => assert EntryParts(Backward, A5, 7, 3);
      case 8 => assert EntryParts(Backward, A5, 8, 2);
    }
  }

  lemma A5EntriesFrom9(i: int)
    requires 9 <= i < 13
    ensures EntryOk(Backward, A5, i)
  {
    match i {
      case 9 => assert EntryParts(Backward, A5, 9, 3);
      case 10 => assert EntryParts(Backward, A5, 10, 2);
      case 11 => assert NearestIn(A5, 3, 1) == -1; assert EntryParts(Backward, A5, 11, 1);
      case 12 => assert EntryParts(Backward, A5, 12, 4);
    }
  }

  lemma A5EntriesFrom13(i: int)
    requires 13 <= i < 17
    ensures EntryOk(Backward, A5, i)
  {
    match i {
      case 13 => assert EntryParts(Backward, A5, 13, 3);
      case 14 => assert EntryParts(Backward, A5, 14, 0);
      case 15 => assert EntryParts(Backward, A5, 15, 6);
      case 16 => assert NearestIn(A5, 14, 0) == -1; assert EntryParts(Backward, A5, 16, 0);
    }
  }

  lemma A5EntriesFrom17(i: int)
    requires 17 <= i < 21
    ensures EntryOk(Backward, A5, i)
  {
    match i {
      case 17 => assert EntryParts(Backward, A5, 17, 0);
      case 18 => assert EntryParts(Backward, A5, 18, 5);
      case 19 => assert NearestIn(A5, 17, 0) == -1; assert EntryParts(Backward, A5, 19, 0);
      case 20 => assert EntryParts(Backward, A5, 20, 1);
    }
  }

  lemma A5EntriesFrom21(i: int)
    requires 21 <= i < 24
    ensures EntryOk(Backward, A5, i)
  {
    match i {
      case 21 => assert EntryParts(Backward, A5, 21, 0);
      case 22 => assert EntryParts(Backward, A5, 22, 4);
      case 23 => assert EntryParts(Backward, A5, 23, 4);
    }
  }

  lemma A5WellFormed()
    ensures WellFormedTable(Backward, A5)
  {
    forall i | 0 < i < |A5| ensures EntryOk(Backward, A5, i) {
      if i < 5 {
        A5EntriesFrom1(i);
      } else if i < 9 {
        A5EntriesFrom5(i);
      } else if i < 13 {
        A5EntriesFrom9(i);
      } else if i < 17 {
        A5EntriesFrom13(i);
      } else if i < 21 {
        A5EntriesFrom17(i);
      } else {
        A5EntriesFrom21(i);
      }
    }
    TableFromEntries(Backward, A5);
  }

  /** Step 3. */
  const A6: seq<Among> := [
    Among("icate", -1, 4),
    Among("ative", -1, 6),
    Among("alize", -1, 3),
    Among("iciti", -1, 4),
    Among("ical", -1, 4),
    Among("tional", -1, 1),
    Among("ational", 5, 2),
    Among("ful", -1, 5),
    Among("ness", -1, 5)
  ]

  lemma A6EntriesFrom1(i: int)
    requires 1 <= i < 5
    ensures EntryOk(Backward, A6, i)
  {
    match i {
      case 1 => assert EntryParts(Backward, A6, 1, 1);
      case 2 => assert EntryParts(Backward, A6, 2, 1);
      case 3 => assert EntryParts(Backward, A6, 3, 0);
      case 4 => assert EntryParts(Backward, A6, 4, 0);
    }
  }

  lemma A6EntriesFrom5(i: int)
    requires 5 <= i < 9
    ensures EntryOk(Backward, A6, i)
  {
    match i {
      case 5 => assert EntryParts(Backward, A6, 5, 2);
      case 6 => assert EntryParts(Backward, A6, 6, 6);
      case 7 => assert NearestIn(A6, 5, 1) == -1; assert EntryParts(Backward, A6, 7, 1);
      case 8 => assert EntryParts(Backward, A6, 8, 0);
    }
  }

  lemma A6WellFormed()
    ensures WellFormedTable(Backward, A6)
  {
    forall i | 0 < i < |A6| ensures EntryOk(Backward, A6, i) {
      if i < 5 {
        A6EntriesFrom1(i);
      } else {
        A6EntriesFrom5(i);
      }
    }
    TableFromEntries(Backward, A6);
  }

  /** Step 4. */
  const A7: seq<Among> := [
    Among("ic", -1, 1),
    Among("ance", -1, 1),
    Among("ence", -1, 1),
    Among("able", -1, 1),
    Among("ible", -1, 1),
    Among("ate", -1, 1),
    Among("ive", -1, 1),
    Among("ize", -1, 1),
    Among("iti", -1, 1),
    Among("al", -1, 1),
    Among("ism", -1, 1),
    Among("ion", -1, 2),
    Among("er", -1, 1),
    Among("ous", -1, 1),
    Among("ant", -1, 1),
    Among("ent", -1, 1),
    Among("ment", 15, 1),
    Among("ement", 16, 1)
  ]

  lemma A7EntriesFrom1(i: int)
    requires 1 <= i < 5
    ensures EntryOk(Backward, A7, i)
  {
    match i {
      case 1 => assert EntryParts(Backward, A7, 1, 0);
      case 2 => assert EntryParts(Backward, A7, 2, 3);
      case 3 => assert EntryParts(Backward, A7, 3, 1);
      case 4 => assert EntryParts(Backward, A7, 4, 3);
    }
  }

  lemma A7EntriesFrom5(i: int)
    requires 5 <= i < 9
    ensures EntryOk(Backward, A7, i)
  {
    match i {
      case 5 => assert EntryParts(Backward, A7, 5, 1);
      case 6 => assert EntryParts(Backward, A7, 6, 1);
      case 7 => assert EntryParts(Backward, A7, 7, 1);
      case 8 => assert EntryParts(Backward, A7, 8, 0);
    }
  }

  lemma A7EntriesFrom9(i: int)
    requires 9 <= i < 13
    ensures EntryOk(Backward, A7, i)
  {
    match i {
      case 9 => assert EntryParts(Backward, A7, 9, 0);
      case 10 => assert EntryParts(Backward, A7, 10, 0);
      case 11 => assert EntryParts(Backward, A7, 11, 0);
      case 12 => assert EntryParts(Backward, A7, 12, 0);
    }
  }

  lemma A7EntriesFrom13(i: int)
    requires 13 <= i < 17
    ensures EntryOk(Backward, A7, i)
  {
    match i {
      case 13 => assert EntryParts(Backward, A7, 13, 0);
      case 14 => assert EntryParts(Backward, A7, 14, 0);
      case 15 => assert EntryParts(Backward, A7, 15, 2);
      case 16 => assert EntryParts(Backward, A7, 16, 3);
    }
  }

  lemma A7EntriesFrom17(i: int)
    requires 17 <= i < 18
    ensures EntryOk(Backward, A7, i)
  {
    match i {
      case 17 => assert EntryParts(Backward, A7, 17, 4);
    }
  }

  lemma A7WellFormed()
    ensures WellFormedTable(Backward, A7)
  {
    forall i | 0 < i < |A7| ensures EntryOk(Backward, A7, i) {
      if i < 5 {
        A7EntriesFrom1(i);
      } else if i < 9 {
        A7EntriesFrom5(i);
      } else if i < 13 {
        A7EntriesFrom9(i);
      } else if i < 17 {
        A7EntriesFrom13(i);
      } else {
        A7EntriesFrom17(i);
      }
    }
    TableFromEntries(Backward, A7);
  }

  /** Step 5. */
  const A8: seq<Among> := [
    Among("e", -1, 1),
    Among("l", -1, 2)
  ]

  lemma A8Entries(i: int)
    requires 1 <= i < 2
    ensures EntryOk(Backward, A8, i)
  {
    match i {
      case 1 => assert EntryParts(Backward, A8, 1, 0);
    }
  }

  lemma A8WellFormed()
    ensures WellFormedTable(Backward, A8)
  {
    forall i | 0 < i < |A8| ensures EntryOk(Backward, A8, i) {
      A8Entries(i);
    }
    TableFromEntries(Backward, A8);
  }

  /** Words left alone after step 1a. */
  const A9: seq<Among> := [
    Among("succeed", -1, -1),
    Among("proceed", -1, -1),
    Among("exceed", -1, -1),
    Among("canning", -1, -1),
    Among("inning", -1, -1),
    Among("earring", -1, -1),
    Among("herring", -1, -1),
    Among("outing", -1, -1)
  ]

  lemma A9EntriesFrom1(i: int)
    requires 1 <= i < 5
    ensures EntryOk(Backward, A9, i)
  {
    match i {
      case 1 => assert EntryParts(Backward, A9, 1, 4);
      case 2 => assert EntryParts(Backward, A9, 2, 4);
      case 3 => assert EntryParts(Backward, A9, 3, 0);
      case 4 => assert EntryParts(Backward, A9, 4, 5);
    }
  }

  lemma A9EntriesFrom5(i: int)
    requires 5 <= i < 8
    ensures EntryOk(Backward, A9, i)
  {
    match i {
      case 5 => assert EntryParts(Backward, A9, 5, 3);
      case 6 => assert EntryParts(Backward, A9, 6, 5);
      case 7 => assert EntryParts(Backward, A9, 7, 3);
    }
  }

  lemma A9WellFormed()
    ensures WellFormedTable(Backward, A9)
  {
    forall i | 0 < i < |A9| ensures EntryOk(Backward, A9, i) {
      if i < 5 {
        A9EntriesFrom1(i);
      } else {
        A9EntriesFrom5(i);
      }
    }
    TableFromEntries(Backward, A9);
  }

  /** Words with a stem of their own. */
  const A10: seq<Among> := [
    Among("andes", -1, -1),
    Among("atlas", -1, -1),
    Among("bias", -1, -1),
    Among("cosmos", -1, -1),
    Among("dying", -1, 3),
    Among("early", -1, 9),
    Among("gently", -1, 7),
    Among("howe", -1, -1),
    Among("idly", -1, 6),
    Among("lying", -1, 4),
    Among("news", -1, -1),
    Among("only", -1, 10),
    Among("singly", -1, 11),
    Among("skies", -1, 2),
    Among("skis", -1, 1),
    Among("sky", -1, -1),
    Among("tying", -1, 5),
    Among("ugly", -1, 8)
  ]

  lemma A10EntriesFrom1(i: int)
    requires 1 <= i < 5
    ensures EntryOk(Forward, A10, i)
  {
    match i {
      case 1 => assert EntryParts(Forward, A10, 1, 1);
      case 2 => assert EntryParts(Forward, A10, 2, 0);
      case 3 => assert EntryParts(Forward, A10, 3, 0);
      case 4 => assert EntryParts(Forward, A10, 4, 0);
    }
  }

  lemma A10EntriesFrom5(i: int)
    requires 5 <= i < 9
    ensures EntryOk(Forward, A10, i)
  {
    match i {
      case 5 => assert EntryParts(Forward, A10, 5, 0);
      case 6 => assert EntryParts(Forward, A10, 6, 0);
      case 7 => assert EntryParts(Forward, A10, 7, 0);
      case 8 => assert EntryParts(Forward, A10, 8, 0);
    }
  }

  lemma A10EntriesFrom9(i: int)
    requires 9 <= i < 13
    ensures EntryOk(Forward, A10, i)
  {
    match i {
      case 9 => assert EntryParts(Forward, A10, 9, 0);
      case 10 => assert EntryParts(Forward, A10, 10, 0);
      case 11 => assert EntryParts(Forward, A10, 11, 0);
      case 12 => assert EntryParts(Forward, A10, 12, 0);
    }
  }

  lemma A10EntriesFrom13(i: int)
    requires 13 <= i < 17
    ensures EntryOk(Forward, A10, i)
  {
    match i {
      case 13 => assert EntryParts(Forward, A10, 13, 1);
      case 14 => assert EntryParts(Forward, A10, 14, 3);
      case 15 => assert EntryParts(Forward, A10, 15, 2);
      case 16 => assert EntryParts(Forward, A10, 16, 0);
    }
  }

  lemma A10EntriesFrom17(i: int)
    requires 17 <= i < 18
    ensures EntryOk(Forward, A10, i)
  {
    match i {
      case 17 => assert EntryParts(Forward, A10, 17, 0);
    }
  }

  lemma A10WellFormed()
    ensures WellFormedTable(Forward, A10)
  {
    forall i | 0 < i < |A10| ensures EntryOk(Forward, A10, i) {
      if i < 5 {
        A10EntriesFrom1(i);
      } else if i < 9 {
        A10EntriesFrom5(i);
      } else if i < 13 {
        A10EntriesFrom9(i);
      } else if i < 17 {
        A10EntriesFrom13(i);
      } else {
        A10EntriesFrom17(i);
      }
    }
    TableFromEntries(Forward, A10);
  }
}

/**
 The runtime under every generated stemmer: a symbol buffer with a cursor, table look-up by binary search, and
 splicing.

 `find_among` and its backward twin run the same search over the text read forwards from the cursor or backwards
 from it, so they are one method here with a `Direction`.  The search keeps, for each end of the interval, how
 many symbols that end shares with the text, and starts each comparison at the smaller of the two.
 */
module SnowballRuntime {
  import opened Lexicographic
  import opened PrefixTables

  // ---------------------------------------------------------------- reading direction

  datatype Direction = Forward | Backward

  function Reverse(s: string): (r: string)
    ensures |r| == |s| && forall i :: 0 <= i < |s| ==> r[i] == s[|s| - 1 - i]
  {
    seq(|s|, i requires 0 <= i < |s| => s[|s| - 1 - i])
  }

  /** `s` in the order in which the search reads it. */
  function View(dir: Direction, s: string): (r: string)
    ensures |r| == |s|
  {
    if dir.Forward? then s else Reverse(s)
  }

  predicate IsSuffix(s: string, t: string) {
    |s| <= |t| && t[|t| - |s|..] == s
  }

  /** `s` is the prefix (suffix) of `t` when reading forwards (backwards). */
  predicate Matches(dir: Direction, s: string, t: string) {
    if dir.Forward? then s <= t else IsSuffix(s, t)
  }

  lemma MatchesIsPrefixOfView(dir: Direction, s: string, t: string)
    ensures Matches(dir, s, t) <==> View(dir, s) <= View(dir, t)
  {
    if dir.Backward? {
      if IsSuffix(s, t) {
        assert forall i :: 0 <= i < |s| ==> s[i] == t[|t| - |s| + i];
        assert Reverse(s) == Reverse(t)[..|s|];
      }
      if Reverse(s) <= Reverse(t) {
        forall i | 0 <= i < |s| ensures s[i] == t[|t| - |s| + i] {
          assert Reverse(s)[|s| - 1 - i] == Reverse(t)[|s| - 1 - i];
        }
        assert t[|t| - |s|..] == s;
      }
    }
  }

  // ---------------------------------------------------------------- look-up tables

  /** One table entry; none of the tables modelled here has a callback. */
  datatype Among = Among(s: string, substring_i: int, result: int)

  function Keys(dir: Direction, v: seq<Among>): (ks: seq<string>)
    ensures |ks| == |v| && forall i :: 0 <= i < |v| ==> ks[i] == View(dir, v[i].s)
  {
    seq(|v|, i requires 0 <= i < |v| => View(dir, v[i].s))
  }

  function Links(v: seq<Among>): (links: seq<int>)
    ensures |links| == |v| && forall i :: 0 <= i < |v| ==> links[i] == v[i].substring_i
  {
    seq(|v|, i requires 0 <= i < |v| => v[i].substring_i)
  }

  /** Strictly sorted, with `substring_i` naming the longest other entry that matches inside an entry. */
  ghost predicate WellFormedTable(dir: Direction, v: seq<Among>) {
    WellFormed(Keys(dir, v), Links(v))
  }

  ghost predicate NoneMatches(dir: Direction, v: seq<Among>, t: string) {
    forall m :: 0 <= m < |v| ==> !Matches(dir, v[m].s, t)
  }

  ghost predicate IsLongestMatch(dir: Direction, v: seq<Among>, t: string, m: int) {
    && 0 <= m < |v| && Matches(dir, v[m].s, t)
    && (forall k :: 0 <= k < |v| && Matches(dir, v[k].s, t) ==> |v[k].s| <= |v[m].s|)
  }

  lemma KeysMatch(dir: Direction, v: seq<Among>, t: string)
    ensures NoneMatches(dir, v, t) <==> forall m :: 0 <= m < |v| ==> !(Keys(dir, v)[m] <= View(dir, t))
    ensures forall m :: IsLongestMatch(dir, v, t, m) <==> IsLongestPrefix(Keys(dir, v), View(dir, t), m)
  {
    forall m | 0 <= m < |v| ensures Matches(dir, v[m].s, t) <==> Keys(dir, v)[m] <= View(dir, t) {
      MatchesIsPrefixOfView(dir, v[m].s, t);
    }
  }

  /** The longest matching entry is a function of the text. */
  lemma LongestMatchUnique(dir: Direction, v: seq<Among>, t: string, m: int, n: int)
    requires WellFormedTable(dir, v) && IsLongestMatch(dir, v, t, m) && IsLongestMatch(dir, v, t, n)
    ensures m == n
  {
    KeysMatch(dir, v, t);
    LongestPrefixUnique(Keys(dir, v), View(dir, t), m, n);
  }

  /** The inner loop: compares the text with `w`, given that `start` symbols are already known to agree. */
  method Compare(dir: Direction, t: string, w: string, start: int) returns (diff: int, common: int)
    requires Agree(View(dir, w), View(dir, t), start)
    ensures Shares(View(dir, w), View(dir, t), common)
    ensures diff < 0 ==> Before(View(dir, t), View(dir, w))
    ensures diff >= 0 ==> AtMost(View(dir, w), View(dir, t), common)
  {
    diff, common := 0, start;
    ghost var x, y := View(dir, w), View(dir, t);
    while common < |w|
      invariant Agree(x, y, common) && diff == 0
      decreases |w| - common
    {
      if common == |t| {
        assert PartsAt(y, x, common);
        return -1, common;
      }
      diff := if dir.Forward? then t[common] as int - w[common] as int
              else t[|t| - 1 - common] as int - w[|w| - 1 - common] as int;
      assert diff == y[common] as int - x[common] as int;
      if diff != 0 {
        assert diff < 0 ==> PartsAt(y, x, common);
        return;
      }
      common := common + 1;
    }
  }

  /** The binary search: finds the last entry not after the text, and how much of it the text shares. */
  method Locate(dir: Direction, v: seq<Among>, t: string) returns (i: int, commonI: int)
    requires |v| > 0 && Sorted(Keys(dir, v))
    ensures Located(Keys(dir, v), View(dir, t), i, commonI)
  {
    hide Agree, AtMost, Sorted, View;
    var j, commonJ, firstKeyInspected := |v|, 0, false;
    i, commonI := 0, 0;
    ghost var ks, x, inspected := Keys(dir, v), View(dir, t), false;
    while true
      invariant 0 <= i < j <= |v|
      invariant HighEnd(ks, x, j, commonJ) && LowEnd(ks, x, i, commonI, inspected)
      invariant firstKeyInspected ==> i == 0 && j == 1
      decreases if firstKeyInspected then 0 else 1, j - i
    {
      var k := i + (j - i) / 2;
      StartAgrees(ks, x, i, k, j, commonI, commonJ, inspected);
      var diff, common := Compare(dir, t, v[k].s, if commonI < commonJ then commonI else commonJ);
      if diff < 0 {
        j, commonJ := k, common;
      } else {
        i, commonI, inspected := k, common, true;
      }
      if j - i <= 1 {
        if i > 0 || j == i {
          break;
        }
        if firstKeyInspected {
          break;
        }
        firstKeyInspected := true;
      }
    }
  }

  /** Look-up of the text `t` that lies between the cursor and the limit: the longest entry matching it, or -1. */
  method Search(dir: Direction, v: seq<Among>, t: string) returns (m: int)
    requires WellFormedTable(dir, v)
    ensures m < 0 ==> m == -1 && NoneMatches(dir, v, t)
    ensures m >= 0 ==> IsLongestMatch(dir, v, t, m)
  {
    var i, commonI := Locate(dir, v, t);
    m := FollowLinks(Keys(dir, v), Links(v), i, commonI, View(dir, t));
    KeysMatch(dir, v, t);
    if m < 0 {
      m := -1;
    }
  }

  // ---------------------------------------------------------------- character classes

  /** A set of symbols given as a bitmap over `min..max`. */
  datatype Grouping = Grouping(bitmap: seq<nat>, min: nat, max: nat)

  const BIT := [1, 2, 4, 8, 16, 32, 64, 128]

  predicate InGroup(g: Grouping, ch: char) {
    var k := ch as int - g.min;
    ch as int <= g.max && 0 <= k && k / 8 < |g.bitmap| && (g.bitmap[k / 8] / BIT[k % 8]) % 2 == 1
  }

  /** The first position at or after `c` whose membership differs from `inside`, or `l`. */
  function SpanEnd(text: string, c: int, l: int, g: Grouping, inside: bool): (e: int)
    requires 0 <= c <= l <= |text|
    ensures c <= e <= l
    ensures forall i :: c <= i < e ==> InGroup(g, text[i]) == inside
    ensures e < l ==> InGroup(g, text[e]) != inside
    decreases l - c
  {
    if c < l && InGroup(g, text[c]) == inside then SpanEnd(text, c + 1, l, g, inside) else c
  }

  /** The last position at or before `c` whose preceding symbol's membership differs from `inside`, or `lb`. */
  function SpanStart(text: string, c: int, lb: int, g: Grouping, inside: bool): (b: int)
    requires 0 <= lb <= c <= |text|
    ensures lb <= b <= c
    ensures forall i :: b <= i < c ==> InGroup(g, text[i]) == inside
    ensures lb < b ==> InGroup(g, text[b - 1]) != inside
    decreases c
  {
    if lb < c && InGroup(g, text[c - 1]) == inside then SpanStart(text, c - 1, lb, g, inside) else c
  }

  // ---------------------------------------------------------------- the environment

  /** Where the cursor ends up when `[bra..ket)` is replaced by `n` symbols. */
  function MovedCursor(c: int, bra: int, ket: int, n: int): int {
    var adjustment := n - (ket - bra);
    if adjustment == 0 then c
    else if c >= ket then c + adjustment
    else if c > bra then bra else c
  }

  function Spliced(text: string, bra: int, ket: int, s: string): string
    requires 0 <= bra <= ket <= |text|
  {
    text[..bra] + s + text[ket..]
  }

  /** After the tail of the text has moved, what is outside the slice is in its final place. */
  lemma TailMoved(b0: string, b1: string, text: string, bra: int, ket: int, adjustment: int)
    requires 0 <= bra <= ket <= |text| <= |b0| && b0[..|text|] == text
    requires bra <= ket + adjustment && |text| + adjustment <= |b0|
    requires b1 == b0[..ket + adjustment] + b0[ket..|text|] + b0[|text| + adjustment..]
    ensures |b1| == |b0| && b1[..bra] == text[..bra] && b1[ket + adjustment..|text| + adjustment] == text[ket..]
  {
    assert b0[ket..|text|] == text[ket..];
    assert b0[..bra] == text[..bra];
  }

  /** Writing the replacement into the gap completes the splice. */
  lemma HoleFilled(b1: string, b2: string, text: string, bra: int, ket: int, s: string)
    requires 0 <= bra <= ket <= |text| && |text| + |s| - (ket - bra) <= |b1|
    requires b1[..bra] == text[..bra] && b1[bra + |s|..|text| + |s| - (ket - bra)] == text[ket..]
    requires b2 == b1[..bra] + s + b1[bra + |s|..]
    ensures b2[..|text| + |s| - (ket - bra)] == Spliced(text, bra, ket, s)
  {
    var n := |text| + |s| - (ket - bra);
    assert b2[..n] == b1[..bra] + s + b1[bra + |s|..n];
  }

  class SnEnv {
    var p: array<char>  // the symbol buffer; its length is the capacity
    var size: nat  // how much of the buffer is in use
    var c: int  // cursor
    var l: int  // forward limit
    var lb: int  // backward limit
    var bra: int
    var ket: int
    var p1: int  // first mark, where region R1 starts
    var p2: int  // second mark, where region R2 starts
    var yFound: bool

    ghost predicate Valid()
      reads this
    {
      0 <= lb <= c <= l <= size <= p.Length
    }

    ghost function Text(): string
      requires size <= p.Length
      reads this, p
    {
      p[..size]
    }

    /** What lies between the cursor and the limit in the given direction. */
    ghost function Ahead(dir: Direction): string
      requires Valid()
      reads this, p
    {
      if dir.Forward? then Text()[c..l] else Text()[lb..c]
    }

    /** An environment holding `word`, with the cursor at its start. */
    constructor (word: string)
      ensures Valid() && fresh(p) && Text() == word && c == 0 && lb == 0 && l == size == |word|
    {
      p := new char[|word|](i requires 0 <= i < |word| => word[i]);
      size := |word|;
      c, l, lb, bra, ket, p1, p2, yFound := 0, |word|, 0, 0, 0, 0, 0, false;
    }

    // -------------------------------------------------------------- comparing

    method EqS(s: string) returns (ok: bool)
      requires Valid()
      modifies this`c
      ensures ok <==> s <= old(Ahead(Forward))
      ensures c == if ok then old(c) + |s| else old(c)
    {
      if l - c < |s| {
        return false;
      }
      assert forall i :: 0 <= i < |s| ==> Ahead(Forward)[i] == p[c + i];
      if p[c..c + |s|] != s {
        return false;
      }
      c := c + |s|;
      return true;
    }

    method EqSB(s: string) returns (ok: bool)
      requires Valid()
      modifies this`c
      ensures ok <==> IsSuffix(s, old(Ahead(Backward)))
      ensures c == if ok then old(c) - |s| else old(c)
    {
      if c - lb < |s| {
        return false;
      }
      assert forall i :: lb <= i < c ==> Ahead(Backward)[i - lb] == p[i];
      assert Ahead(Backward)[c - lb - |s|..] == p[c - |s|..c];
      if p[c - |s|..c] != s {
        return false;
      }
      c := c - |s|;
      return true;
    }

    /**
     `in_grouping` (inside) and `out_grouping` (outside): 0 if consumed, 1 if stopped by a symbol, -1 at the limit.
     */
    method Group(g: Grouping, inside: bool, repeat: bool) returns (ret: int)
      requires Valid()
      modifies this`c
      ensures Valid()
      ensures repeat ==> c == SpanEnd(Text(), old(c), l, g, inside) && ret == if c < l then 1 else -1
      ensures !repeat ==> ret == if old(c) >= l then -1 else if InGroup(g, Text()[old(c)]) == inside then 0 else 1
      ensures !repeat ==> c == if ret == 0 then old(c) + 1 else old(c)
    {
      while true
        invariant Valid() && old(c) <= c
        invariant repeat ==> SpanEnd(Text(), old(c), l, g, inside) == SpanEnd(Text(), c, l, g, inside)
        invariant !repeat ==> c == old(c)
        decreases l - c
      {
        if c >= l {
          return -1;
        }
        if InGroup(g, p[c]) != inside {
          return 1;
        }
        c := c + 1;
        if !repeat {
          return 0;
        }
      }
    }

    /** `in_grouping_b` and `out_grouping_b`. */
    method GroupB(g: Grouping, inside: bool, repeat: bool) returns (ret: int)
      requires Valid()
      modifies this`c
      ensures Valid()
      ensures repeat ==> c == SpanStart(Text(), old(c), lb, g, inside) && ret == if lb < c then 1 else -1
      ensures !repeat ==> ret == if old(c) <= lb then -1 else if InGroup(g, Text()[old(c) - 1]) == inside then 0 else 1
      ensures !repeat ==> c == if ret == 0 then old(c) - 1 else old(c)
    {
      while true
        invariant Valid() && c <= old(c)
        invariant repeat ==> SpanStart(Text(), old(c), lb, g, inside) == SpanStart(Text(), c, lb, g, inside)
        invariant !repeat ==> c == old(c)
        decreases c
      {
        if c <= lb {
          return -1;
        }
        if InGroup(g, p[c - 1]) != inside {
          return 1;
        }
        c := c - 1;
        if !repeat {
          return 0;
        }
      }
    }

    // -------------------------------------------------------------- table look-up

    /** `find_among` and `find_among_b`; the ghost result is the entry found, or -1. */
    method FindAmong(dir: Direction, v: seq<Among>) returns (result: int, ghost m: int)
      requires Valid() && WellFormedTable(dir, v)
      modifies this`c
      ensures Valid()
      ensures m == -1 ==> result == 0 && c == old(c) && NoneMatches(dir, v, old(Ahead(dir)))
      ensures m != -1 ==> IsLongestMatch(dir, v, old(Ahead(dir)), m) && result == v[m].result
      ensures m != -1 ==> c == if dir.Forward? then old(c) + |v[m].s| else old(c) - |v[m].s|
    {
      var k := Search(dir, v, if dir.Forward? then p[c..l] else p[lb..c]);
      assert Ahead(dir) == if dir.Forward? then p[c..l] else p[lb..c];
      if k < 0 {
        return 0, -1;
      }
      c := if dir.Forward? then c + |v[k].s| else c - |v[k].s|;
      return v[k].result, k;
    }

    // -------------------------------------------------------------- splicing

    /** Copies as C's memmove does: the source and target ranges may overlap. */
    static method MemMove(dst: array<char>, to: nat, src: string)
      requires to + |src| <= dst.Length
      modifies dst
      ensures dst[..] == old(dst[..to]) + src + old(dst[to + |src|..])
    {
      forall i | 0 <= i < |src| {
        dst[to + i] := src[i];
      }
    }

    /** `increase_size`: a larger buffer with the same contents. */
    method IncreaseSize(n: nat)
      requires size <= p.Length <= n
      modifies this`p
      ensures fresh(p) && p.Length == n + 20 && p[..size] == old(p[..size])
    {
      var q := new char[n + 20];
      forall i | 0 <= i < size {
        q[i] := p[i];
      }
      p := q;
    }

    /** Moves the text from `cKet` on by `adjustment`, into a larger buffer if it has to. */
    method MoveTail(cBra: int, cKet: int, adjustment: int)
      requires 0 <= cBra <= cKet <= size <= p.Length && cBra <= cKet + adjustment
      modifies this`p, this`size, p
      ensures p == old(p) || fresh(p)
      ensures size == old(size) + adjustment && size <= p.Length
      ensures p[..cBra] == old(Text())[..cBra] && p[cKet + adjustment..size] == old(Text())[cKet..]
    {
      ghost var text := Text();
      if adjustment + size > p.Length {
        IncreaseSize(adjustment + size);
      }
      ghost var b0 := p[..];
      MemMove(p, cKet + adjustment, p[cKet..size]);
      TailMoved(b0, p[..], text, cBra, cKet, adjustment);
      size := adjustment + size;
    }

    /** Writes the replacement between the two parts of the text that stay. */
    method FillHole(cBra: int, cKet: int, s: string, ghost text: string)
      requires 0 <= cBra <= cKet <= |text| && size == |text| + |s| - (cKet - cBra) <= p.Length
      requires p[..cBra] == text[..cBra] && p[cBra + |s|..size] == text[cKet..]
      modifies p
      ensures Text() == Spliced(text, cBra, cKet, s)
    {
      ghost var b1 := p[..];
      if |s| != 0 {
        MemMove(p, cBra, s);
      }
      HoleFilled(b1, p[..], text, cBra, cKet, s);
    }

    /** `replace_s`: replaces the symbols in `[cBra..cKet)` by `s`, moving the limit and the cursor along. */
    method ReplaceS(cBra: int, cKet: int, s: string) returns (adjustment: int)
      requires Valid() && 0 <= cBra <= cKet <= l
      modifies this`p, this`size, this`l, this`c, p
      ensures p == old(p) || fresh(p)
      ensures adjustment == |s| - (cKet - cBra) && l == old(l) + adjustment && size == old(size) + adjustment
      ensures size <= p.Length && Text() == Spliced(old(Text()), cBra, cKet, s)
      ensures c == MovedCursor(old(c), cBra, cKet, |s|)
    {
      adjustment := |s| - (cKet - cBra);
      ghost var text := Text();
      if adjustment != 0 {
        MoveTail(cBra, cKet, adjustment);
        l := l + adjustment;
        if c >= cKet {
          c := c + adjustment;
        } else if c > cBra {
          c := cBra;
        }
      }
      FillHole(cBra, cKet, s, text);
    }

    /** `SN_set_current`: puts a new word in place of the old one, with the cursor at its start. */
    method SetCurrent(word: string)
      requires Valid() && lb == 0 && l == size
      modifies this`p, this`size, this`l, this`c, p
      ensures p == old(p) || fresh(p)
      ensures Valid() && c == 0 && l == size && Text() == word
    {
      var _ := ReplaceS(0, l, word);
      c := 0;
    }

    /** `slice_from_s`: -1 if the slice is faulty, otherwise the slice is replaced. */
    method SliceFromS(s: string) returns (err: int)
      requires Valid()
      modifies this`p, this`size, this`l, this`c, p
      ensures p == old(p) || fresh(p)
      ensures err == if 0 <= bra <= ket <= old(l) then 0 else -1
      ensures size <= p.Length
      ensures err == -1 ==> Text() == old(Text()) && c == old(c) && l == old(l) && size == old(size)
      ensures err == 0 ==> Text() == Spliced(old(Text()), bra, ket, s)
      ensures err == 0 ==> size == old(size) + |s| - (ket - bra) && l == old(l) + |s| - (ket - bra)
      ensures err == 0 ==> c == MovedCursor(old(c), bra, ket, |s|)
    {
      if bra < 0 || bra > ket || ket > l || l > size {
        return -1;
      }
      var _ := ReplaceS(bra, ket, s);
      err := 0;
    }

    /** `insert_s`: a replacement anywhere, after which the slice marks at or beyond it move along. */
    method InsertS(cBra: int, cKet: int, s: string)
      requires Valid() && 0 <= cBra <= cKet <= l
      modifies this`p, this`size, this`l, this`c, this`bra, this`ket, p
      ensures p == old(p) || fresh(p)
      ensures size <= p.Length && Text() == Spliced(old(Text()), cBra, cKet, s)
      ensures size == old(size) + |s| - (cKet - cBra) && l == old(l) + |s| - (cKet - cBra)
      ensures c == MovedCursor(old(c), cBra, cKet, |s|)
      ensures bra == if cBra <= old(bra) then old(bra) + |s| - (cKet - cBra) else old(bra)
      ensures ket == if cBra <= old(ket) then old(ket) + |s| - (cKet - cBra) else old(ket)
    {
      var adjustment := ReplaceS(cBra, cKet, s);
      if cBra <= bra {
        bra := bra + adjustment;
      }
      if cBra <= ket {
        ket := ket + adjustment;
      }
    }
  }
}

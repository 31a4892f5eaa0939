/**
 The theory of the runtime's look-up tables: sorted lists of keys in which every key links
 to the longest other key that is a prefix of it.
 */
module PrefixTables {
  import opened Lexicographic

  /** The first `n` symbols of `a` and `b` are the same. */
  predicate Agree(a: string, b: string, n: int) {
    0 <= n <= |a| && n <= |b| && forall k :: 0 <= k < n ==> a[k] == b[k]
  }

  /** `n` is exactly how many leading symbols `a` and `b` share. */
  predicate Shares(a: string, b: string, n: int) {
    Agree(a, b, n) && (n == |a| || n == |b| || a[n] != b[n])
  }

  /** `a` is not after `b`, and they share `n` symbols. */
  predicate AtMost(a: string, b: string, n: int) {
    Shares(a, b, n) && (n == |a| || (n < |b| && a[n] < b[n]))
  }

  lemma AtMostOrder(a: string, b: string, n: int)
    requires AtMost(a, b, n)
    ensures a == b || Before(a, b)
  {
    if n == |a| && n == |b| {
      assert a == b;
    } else {
      assert PartsAt(a, b, n);
    }
  }

  lemma PrefixAgrees(e: string, x: string)
    ensures e <= x <==> Agree(e, x, |e|)
  {
  }

  lemma PrefixOfBoth(e: string, w: string, x: string, n: int)
    requires e <= w && e <= x && Shares(w, x, n)
    ensures |e| <= n
  {
  }

  // ---------------------------------------------------------------- tables

  ghost predicate InOrder(ks: seq<string>, i: int, j: int) {
    0 <= i < |ks| && 0 <= j < |ks| && Before(ks[i], ks[j])
  }

  ghost predicate Sorted(ks: seq<string>) {
    forall i, j {:trigger InOrder(ks, i, j)} :: 0 <= i < j < |ks| ==> InOrder(ks, i, j)
  }

  /** `links[i]` names the longest other key that is a prefix of key `i`, or is negative if there is none. */
  ghost predicate LinksLongest(ks: seq<string>, links: seq<int>, i: int)
    requires 0 <= i < |ks| == |links|
  {
    var k := links[i];
    && k < i
    && (k >= 0 ==> ks[k] <= ks[i])
    && (forall m :: 0 <= m < |ks| && m != i && ks[m] <= ks[i] ==> k >= 0 && ks[m] <= ks[k])
  }

  ghost predicate WellFormed(ks: seq<string>, links: seq<int>) {
    && 0 < |ks| == |links| && Sorted(ks)
    && (forall i :: 0 <= i < |ks| ==> LinksLongest(ks, links, i))
  }

  // ---------------------------------------------------------------- checking a table locally

  /** Follows the links from `x` to the first key of at most `d` symbols. */
  function NearestWithin(ks: seq<string>, links: seq<int>, x: int, d: int): (n: int)
    requires |ks| == |links| && x < |ks|
    requires forall i :: 0 <= i < |ks| ==> links[i] < i
    ensures -1 <= n < |ks| && n <= (if x < 0 then -1 else x) && (n >= 0 ==> |ks[n]| <= d)
    decreases x
  {
    if x < 0 then -1 else if |ks[x]| <= d then x else NearestWithin(ks, links, links[x], d)
  }

  /** Neighbours part where `parts` says, and each link is the nearest key on the previous chain that ends before. */
  ghost predicate LocallyBuilt(ks: seq<string>, links: seq<int>, parts: seq<nat>) {
    && 0 < |ks| == |links| == |parts|
    && (forall i :: 0 <= i < |ks| ==> -1 <= links[i] < i)
    && (forall i :: 0 < i < |ks| ==>
          PartsAt(ks[i - 1], ks[i], parts[i]) && links[i] == NearestWithin(ks, links, i - 1, parts[i]))
  }

  lemma {:induction false} SortedFromNeighbours(ks: seq<string>, links: seq<int>, parts: seq<nat>, i: int, j: int)
    requires LocallyBuilt(ks, links, parts) && 0 <= i < j < |ks|
    ensures InOrder(ks, i, j)
    decreases j - i
  {
    assert PartsAt(ks[j - 1], ks[j], parts[j]);
    if i + 1 < j {
      SortedFromNeighbours(ks, links, parts, i, j - 1);
      BeforeTransitive(ks[i], ks[j - 1], ks[j]);
    }
  }

  /** A key that is a prefix of some later string is a prefix of every key in between. */
  lemma PrefixInBetween(ks: seq<string>, m: int, i: int, w: string)
    requires Sorted(ks) && 0 <= m <= i < |ks| && (ks[i] == w || Before(ks[i], w)) && ks[m] <= w
    ensures ks[m] <= ks[i]
  {
    assert m < i ==> InOrder(ks, m, i);
    PrefixAgrees(ks[m], w);
    PrefixAgrees(ks[m], ks[i]);
  }

  /** The links below `i` are right. */
  ghost predicate LinkedBelow(ks: seq<string>, links: seq<int>, i: int) {
    |ks| == |links| && forall k :: 0 <= k < i && k < |ks| ==> LinksLongest(ks, links, k)
  }

  /** The nearest short key on `x`'s chain is a prefix of `x`, and every short prefix of `x` is a prefix of it. */
  lemma {:induction false} NearestIsLongest(ks: seq<string>, links: seq<int>, x: int, d: int)
    requires |ks| == |links| && 0 <= x < |ks|
    requires forall i :: 0 <= i < |ks| ==> links[i] < i
    requires LinkedBelow(ks, links, x + 1)
    ensures var n := NearestWithin(ks, links, x, d);
            && (n >= 0 ==> ks[n] <= ks[x])
            && (forall m :: 0 <= m < |ks| && ks[m] <= ks[x] && |ks[m]| <= d ==> n >= 0 && ks[m] <= ks[n])
    decreases x
  {
    if |ks[x]| > d {
      assert LinksLongest(ks, links, x);
      if links[x] >= 0 {
        NearestIsLongest(ks, links, links[x], d);
      }
    }
  }

  lemma PartsShares(a: string, b: string, d: nat)
    requires PartsAt(a, b, d)
    ensures a[..d] == b[..d] && forall e :: e <= a && |e| <= d ==> e <= b
  {
  }

  /** Any other prefix of key `i` comes earlier and lies within what key `i` shares with the key before it. */
  lemma PrefixIsEarlier(ks: seq<string>, i: int, d: nat, m: int)
    requires Sorted(ks) && 0 <= i < |ks| && 0 <= m < |ks| && m != i && ks[m] <= ks[i]
    requires i > 0 ==> PartsAt(ks[i - 1], ks[i], d)
    ensures i > 0 && ks[m] <= ks[i - 1] && |ks[m]| <= d
  {
    if i < m {
      assert InOrder(ks, i, m);
      BeforeIrreflexive(ks[i], ks[m]);
      assert false;
    }
    assert InOrder(ks, i - 1, i);
    PrefixInBetween(ks, m, i - 1, ks[i]);
    PrefixOfBoth(ks[m], ks[i - 1], ks[i], d);
  }

  lemma LinkIsPrefix(ks: seq<string>, links: seq<int>, parts: seq<nat>, i: int)
    requires LocallyBuilt(ks, links, parts) && LinkedBelow(ks, links, i) && 0 <= i < |ks| && links[i] >= 0
    ensures ks[links[i]] <= ks[i]
  {
    NearestIsLongest(ks, links, i - 1, parts[i]);
    PartsShares(ks[i - 1], ks[i], parts[i]);
  }

  lemma LinkCovers(ks: seq<string>, links: seq<int>, parts: seq<nat>, i: int, m: int)
    requires LocallyBuilt(ks, links, parts) && LinkedBelow(ks, links, i) && Sorted(ks) && 0 <= i < |ks|
    requires 0 <= m < |ks| && m != i && ks[m] <= ks[i]
    ensures links[i] >= 0 && ks[m] <= ks[links[i]]
  {
    hide PartsAt, Sorted, LinkedBelow, NearestWithin, LinksLongest, InOrder;
    PrefixIsEarlier(ks, i, parts[i], m);
    assert LinkedBelow(ks, links, i) && links[i] == NearestWithin(ks, links, i - 1, parts[i]);
    NearestIsLongest(ks, links, i - 1, parts[i]);
  }

  /** The link of key `i` names a prefix of it, of which every other prefix of key `i` is a prefix. */
  lemma LinkFromLocal(ks: seq<string>, links: seq<int>, parts: seq<nat>, i: int)
    requires LocallyBuilt(ks, links, parts) && LinkedBelow(ks, links, i) && Sorted(ks) && 0 <= i < |ks|
    ensures LinksLongest(ks, links, i)
  {
    assert links[i] < i;
    hide LocallyBuilt, LinkedBelow, Sorted;
    if links[i] >= 0 {
      LinkIsPrefix(ks, links, parts, i);
    }
    forall m | 0 <= m < |ks| && m != i && ks[m] <= ks[i] ensures links[i] >= 0 && ks[m] <= ks[links[i]] {
      LinkCovers(ks, links, parts, i, m);
    }
  }

  lemma {:induction false} LinksFromLocal(ks: seq<string>, links: seq<int>, parts: seq<nat>, i: nat)
    requires LocallyBuilt(ks, links, parts) && Sorted(ks) && i <= |ks|
    ensures LinkedBelow(ks, links, i)
  {
    if i > 0 {
      LinksFromLocal(ks, links, parts, i - 1);
      LinkFromLocal(ks, links, parts, i - 1);
    }
  }

  /** The local check implies everything the search needs of a table. */
  lemma LocallyBuiltIsWellFormed(ks: seq<string>, links: seq<int>, parts: seq<nat>)
    requires LocallyBuilt(ks, links, parts)
    ensures WellFormed(ks, links)
  {
    forall i, j | 0 <= i < j < |ks| ensures InOrder(ks, i, j) {
      SortedFromNeighbours(ks, links, parts, i, j);
    }
    LinksFromLocal(ks, links, parts, |ks|);
  }

  // ---------------------------------------------------------------- what the binary search leaves behind

  /** Key `i` is the last one not after the text, or the first one if all are after it. */
  ghost predicate Located(ks: seq<string>, x: string, i: int, common: int) {
    && 0 <= i < |ks|
    && (i + 1 < |ks| ==> Before(x, ks[i + 1]))
    && (AtMost(ks[i], x, common) || (i == 0 && common == 0 && Before(x, ks[0])))
  }

  /** Key `j` is after the text and agrees with it on `common` symbols; past the table nothing is known. */
  ghost predicate HighEnd(ks: seq<string>, x: string, j: int, common: int)
    requires 0 <= j <= |ks|
  {
    if j < |ks| then Before(x, ks[j]) && Agree(ks[j], x, common) else common == 0
  }

  /** Key `i`, once inspected, is not after the text; before that it is the first key. */
  ghost predicate LowEnd(ks: seq<string>, x: string, i: int, common: int, inspected: bool)
    requires 0 <= i < |ks|
  {
    if inspected then AtMost(ks[i], x, common) else i == 0 && common == 0
  }

  /** A key in the middle already agrees with the text on what both ends share with it. */
  lemma StartAgrees(ks: seq<string>, x: string, i: int, k: int, j: int, commonI: int, commonJ: int, inspected: bool)
    requires Sorted(ks) && 0 <= i <= k < j <= |ks|
    requires HighEnd(ks, x, j, commonJ) && LowEnd(ks, x, i, commonI, inspected)
    ensures Agree(ks[k], x, if commonI < commonJ then commonI else commonJ)
  {
    var m := if commonI < commonJ then commonI else commonJ;
    if i < k && j < |ks| && inspected {
      assert InOrder(ks, i, k) && InOrder(ks, k, j);
      assert Agree(ks[i], ks[j], m);
    }
  }

  /** No key from one after the text onwards is a prefix of it. */
  lemma PrefixIsNotAfter(ks: seq<string>, x: string, k: int, m: int)
    requires Sorted(ks) && 0 <= k <= m < |ks| && Before(x, ks[k])
    ensures !(ks[m] <= x)
  {
    if k < m {
      assert InOrder(ks, k, m);
      BeforeTransitive(x, ks[k], ks[m]);
    }
    BeforeIrreflexive(x, ks[m]);
  }

  /** Every key that is a prefix of the text is a prefix of the located key, within the shared part. */
  lemma LocatedCovers(ks: seq<string>, x: string, i: int, common: int, m: int)
    requires Sorted(ks) && Located(ks, x, i, common) && 0 <= m < |ks| && ks[m] <= x
    ensures ks[m] <= ks[i] && |ks[m]| <= common
  {
    if i < m {
      PrefixIsNotAfter(ks, x, i + 1, m);
      assert false;
    }
    if Before(x, ks[0]) {
      PrefixIsNotAfter(ks, x, 0, m);
      assert false;
    }
    AtMostOrder(ks[i], x, common);
    PrefixInBetween(ks, m, i, x);
    PrefixOfBoth(ks[m], ks[i], x, common);
  }

  ghost predicate IsLongestPrefix(ks: seq<string>, x: string, m: int) {
    0 <= m < |ks| && ks[m] <= x && forall k :: 0 <= k < |ks| && ks[k] <= x ==> |ks[k]| <= |ks[m]|
  }

  /** The longest prefix is unique, so a look-up result is a function of the text. */
  lemma LongestPrefixUnique(ks: seq<string>, x: string, m: int, n: int)
    requires Sorted(ks) && IsLongestPrefix(ks, x, m) && IsLongestPrefix(ks, x, n)
    ensures m == n
  {
    if m != n {
      assert ks[m] == ks[n];
      assert InOrder(ks, m, n) || InOrder(ks, n, m);
      BeforeIrreflexive(ks[m], ks[n]);
    }
  }

  /** The loop that follows the links from the located key to the first that is a prefix of the text. */
  method FollowLinks(ks: seq<string>, links: seq<int>, located: int, common: int, ghost x: string) returns (i: int)
    requires WellFormed(ks, links) && Located(ks, x, located, common)
    ensures i < 0 ==> forall m :: 0 <= m < |ks| ==> !(ks[m] <= x)
    ensures i >= 0 ==> IsLongestPrefix(ks, x, i)
  {
    i := located;
    forall k | 0 <= k < |ks| && ks[k] <= x ensures ks[k] <= ks[located] && |ks[k]| <= common {
      LocatedCovers(ks, x, located, common, k);
    }
    while |ks[i]| > common
      invariant 0 <= i < |ks| && ks[i] <= ks[located]
      invariant forall k :: 0 <= k < |ks| && ks[k] <= x ==> ks[k] <= ks[i]
      decreases i
    {
      assert LinksLongest(ks, links, i);
      i := links[i];
      if i < 0 {
        return;
      }
    }
    assert ks[i] <= x;
  }
}

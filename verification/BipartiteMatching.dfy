/**
 Maximum bipartite matching by augmenting paths, as the vendored matcher library computes it to pair
 container elements (left) with matchers (right).

 The state is two arrays that name each other's entries.  The search breaks that mutual reference while it
 recurses: a right node on the path still names its old partner, who has already moved on.  `Linked`
 describes the arrays with one such gap.  Maximality rests on a ghost set of dead right nodes: all of them are
 matched, and the neighbours of their partners are dead too, so no later search can pass through them.
 */
module BipartiteMatching {

  const UNUSED := -1

  datatype MatchMatrix = MatchMatrix(lhs: nat, rhs: nat, edges: set<(int, int)>) {
    predicate HasEdge(l: int, r: int) {
      0 <= l < lhs && 0 <= r < rhs && (l, r) in edges
    }
  }

  // ---------------------------------------------------------------- what a matching is

  /** Edges of the graph, no two of which share an end. */
  ghost predicate IsMatching(g: MatchMatrix, m: set<(int, int)>) {
    && (forall e <- m :: g.HasEdge(e.0, e.1))
    && (forall e <- m, f <- m :: (e.0 == f.0 || e.1 == f.1) ==> e == f)
  }

  /** Every matcher gets an element of its own: `pick[r]` is the element matcher `r` accepts. */
  ghost predicate IsFullPairing(g: MatchMatrix, pick: seq<int>) {
    && |pick| == g.rhs
    && (forall r :: 0 <= r < g.rhs ==> g.HasEdge(pick[r], r))
    && (forall r, s :: 0 <= r < s < g.rhs ==> pick[r] != pick[s])
  }

  // ---------------------------------------------------------------- the two arrays

  /** The arrays are mutually referent, except that `gap` still names a partner who left it. */
  ghost predicate Linked(g: MatchMatrix, left: seq<int>, right: seq<int>, gap: int) {
    && |left| == g.lhs && |right| == g.rhs
    && (forall l :: 0 <= l < g.lhs && left[l] != UNUSED ==>
          left[l] != gap && g.HasEdge(l, left[l]) && right[left[l]] == l)
    && (forall r :: 0 <= r < g.rhs && right[r] != UNUSED ==> 0 <= right[r] < g.lhs)
    && (forall r :: 0 <= r < g.rhs && right[r] != UNUSED && r != gap ==> left[right[r]] == r)
  }

  /** The right nodes in `dead` are matched, and their partners lead only to dead nodes. */
  ghost predicate Dead(g: MatchMatrix, right: seq<int>, dead: set<int>) {
    && |right| == g.rhs
    && (forall r <- dead :: 0 <= r < g.rhs && right[r] != UNUSED)
    && (forall r, s :: r in dead && g.HasEdge(right[r], s) ==> s in dead)
  }

  /** Nothing was unmarked, and every newly marked node is matched, with its partner's neighbours all marked. */
  ghost predicate Closed(g: MatchMatrix, right: seq<int>, before: seq<bool>, after: seq<bool>)
    requires |right| == |before| == |after| == g.rhs
  {
    && (forall r :: 0 <= r < g.rhs && before[r] ==> after[r])
    && (forall r :: 0 <= r < g.rhs && after[r] && !before[r] ==> right[r] != UNUSED)
    && (forall r, s :: 0 <= r < g.rhs && after[r] && !before[r] && g.HasEdge(right[r], s) ==> after[s])
  }

  /** A failed search from `l` that has tried the right nodes below `upto` marked all of them `l` leads to. */
  ghost predicate Explored(g: MatchMatrix, right: seq<int>, before: seq<bool>, after: seq<bool>, l: int, upto: int)
    requires |right| == |before| == |after| == g.rhs
  {
    && Closed(g, right, before, after)
    && (forall s :: s < upto && g.HasEdge(l, s) ==> after[s])
  }

  /** A successful search from `l` gave `l` a partner, and touched only what was not yet marked. */
  ghost predicate Augmented(g: MatchMatrix, before: seq<bool>, left: seq<int>, right: seq<int>,
                            left': seq<int>, right': seq<int>, l: int)
    requires |left| == |left'| == g.lhs && |right| == |right'| == |before| == g.rhs && 0 <= l < g.lhs
  {
    && Linked(g, left', right', left[l])
    && left'[l] != UNUSED
    && (forall x :: 0 <= x < g.lhs && x != l ==> (left'[x] == UNUSED <==> left[x] == UNUSED))
    && (forall x :: 0 <= x < g.lhs && x != l && 0 <= left[x] < g.rhs && before[left[x]] ==> left'[x] == left[x])
    && (forall r :: 0 <= r < g.rhs && before[r] ==> right'[r] == right[r])
  }

  ghost function Unseen(seen: seq<bool>): set<int> {
    set r | 0 <= r < |seen| && !seen[r]
  }

  // ---------------------------------------------------------------- one step of the search

  lemma LinkFree(g: MatchMatrix, before: seq<bool>, left: seq<int>, right: seq<int>, l: int, r: int)
    requires Linked(g, left, right, UNUSED) && |before| == g.rhs && g.HasEdge(l, r)
    requires right[r] == UNUSED && !before[r]
    ensures Augmented(g, before, left, right, left[l := r], right[r := l], l)
  {
  }

  lemma LinkThrough(g: MatchMatrix, before: seq<bool>, mid: seq<bool>, left: seq<int>, right: seq<int>,
                    left1: seq<int>, right1: seq<int>, l: int, r: int)
    requires Linked(g, left, right, UNUSED) && |before| == |mid| == g.rhs && g.HasEdge(l, r)
    requires |left1| == g.lhs && |right1| == g.rhs
    requires left[l] != UNUSED ==> before[left[l]]
    requires right[r] != UNUSED && !before[r] && mid[r] && forall s :: 0 <= s < g.rhs && before[s] ==> mid[s]
    requires Augmented(g, mid, left, right, left1, right1, right[r])
    ensures Augmented(g, before, left, right, left1[l := r], right1[r := l], l)
  {
  }

  lemma ScanFurther(g: MatchMatrix, right: seq<int>, before: seq<bool>, seen: seq<bool>, after: seq<bool>, l: int,
      r: int)
    requires |right| == |before| == |seen| == |after| == g.rhs && g.HasEdge(l, r)
    requires Explored(g, right, before, seen, l, r) && !seen[r] && right[r] != UNUSED
    requires Explored(g, right, seen[r := true], after, right[r], g.rhs)
    ensures Explored(g, right, before, after, l, r + 1)
  {
  }

  // ---------------------------------------------------------------- the dead set between searches

  /** The left nodes below `upto` that stayed unmatched lead only to dead nodes. */
  ghost predicate Exhausted(g: MatchMatrix, left: seq<int>, dead: set<int>, upto: int)
    requires |left| == g.lhs
  {
    forall l, s :: 0 <= l < upto && g.HasEdge(l, s) && left[l] == UNUSED ==> s in dead
  }

  ghost function Marked(seen: seq<bool>): set<int> {
    set r | 0 <= r < |seen| && seen[r]
  }

  lemma KeepDead(g: MatchMatrix, unseen: seq<bool>, left: seq<int>, right: seq<int>,
                 left': seq<int>, right': seq<int>, dead: set<int>, l: int)
    requires Dead(g, right, dead) && |left| == |left'| == g.lhs && |right'| == |unseen| == g.rhs && 0 <= l < g.lhs
    requires Exhausted(g, left, dead, l) && forall r <- dead :: right'[r] == right[r]
    requires Augmented(g, unseen, left, right, left', right', l)
    ensures Dead(g, right', dead) && Exhausted(g, left', dead, l + 1)
  {
  }

  lemma GrowDead(g: MatchMatrix, left: seq<int>, right: seq<int>, unseen: seq<bool>, seen: seq<bool>,
                 dead: set<int>, l: int)
    requires Dead(g, right, dead) && |left| == g.lhs && |seen| == |unseen| == g.rhs && 0 <= l < g.lhs
    requires (forall r :: 0 <= r < g.rhs ==> !unseen[r]) && Explored(g, right, unseen, seen, l, g.rhs)
    requires Exhausted(g, left, dead, l)
    ensures Dead(g, right, dead + Marked(seen)) && Exhausted(g, left, dead + Marked(seen), l + 1)
  {
  }

  class MaxBipartiteMatchState {
    const graph: MatchMatrix
    const left: array<int>
    const right: array<int>

    ghost predicate Valid()
      reads left, right
    {
      left != right && Linked(graph, left[..], right[..], UNUSED)
    }

    constructor (g: MatchMatrix)
      ensures graph == g && Valid() && fresh(left) && fresh(right)
      ensures forall l :: 0 <= l < g.lhs ==> left[l] == UNUSED
    {
      graph := g;
      left := new int[g.lhs](_ => UNUSED);
      right := new int[g.rhs](_ => UNUSED);
    }

    /** Depth-first search for an augmenting path from `ilhs`; the path is installed on the way back. */
    method TryAugment(ilhs: nat, seen: array<bool>, ghost dead: set<int>) returns (found: bool)
      requires Valid() && ilhs < graph.lhs && seen.Length == graph.rhs
      requires left[ilhs] != UNUSED ==> seen[left[ilhs]]
      requires Dead(graph, right[..], dead)
      modifies left, right, seen
      ensures !found ==> left[..] == old(left[..]) && right[..] == old(right[..])
      ensures !found ==> Explored(graph, right[..], old(seen[..]), seen[..], ilhs, graph.rhs)
      ensures found ==> Augmented(graph, old(seen[..]), old(left[..]), old(right[..]), left[..], right[..], ilhs)
      ensures found ==> old(left[ilhs]) !in dead && forall r <- dead :: right[r] == old(right[r])
      decreases Unseen(seen[..])
    {
      ghost var seen0, left0, right0 := seen[..], left[..], right[..];
      for irhs := 0 to graph.rhs
        invariant left[..] == left0 && right[..] == right0
        invariant Explored(graph, right0, seen0, seen[..], ilhs, irhs)
      {
        if seen[irhs] || !graph.HasEdge(ilhs, irhs) {
          continue;
        }
        ghost var seen1 := seen[..];
        seen[irhs] := true;
        assert seen[..] == seen1[irhs := true];
        assert irhs in Unseen(seen1) && irhs !in Unseen(seen[..]) && Unseen(seen1) <= Unseen(seen0);
        var free := right[irhs] == UNUSED;
        if free {
          LinkFree(graph, seen0, left0, right0, ilhs, irhs);
        } else {
          free := TryAugment(right[irhs], seen, dead);
          if free {
            LinkThrough(graph, seen0, seen1[irhs := true], left0, right0, left[..], right[..], ilhs, irhs);
          } else {
            ScanFurther(graph, right0, seen0, seen1, seen[..], ilhs, irhs);
          }
        }
        if free {
          ghost var left1, right1 := left[..], right[..];
          left[ilhs] := irhs;
          right[irhs] := ilhs;
          assert left[..] == left1[ilhs := irhs] && right[..] == right1[irhs := ilhs];
          return true;
        }
      }
      return false;
    }

    /** Searches from each left node in turn; left nodes that stay unmatched end up leading to dead nodes only. */
    method AugmentAll() returns (ghost dead: set<int>)
      requires Valid() && forall l :: 0 <= l < graph.lhs ==> left[l] == UNUSED
      modifies left, right
      ensures Valid() && Dead(graph, right[..], dead)
      ensures Exhausted(graph, left[..], dead, graph.lhs)
    {
      dead := {};
      for ilhs := 0 to graph.lhs
        invariant Valid() && Dead(graph, right[..], dead)
        invariant forall l :: ilhs <= l < graph.lhs ==> left[l] == UNUSED
        invariant Exhausted(graph, left[..], dead, ilhs)
      {
        assert left[ilhs] == UNUSED;  // the run-time check made before each search
        var seen := new bool[graph.rhs](_ => false);
        ghost var unseen, left0, right0 := seen[..], left[..], right[..];
        var found := TryAugment(ilhs, seen, dead);
        if found {
          KeepDead(graph, unseen, left0, right0, left[..], right[..], dead, ilhs);
        } else {
          GrowDead(graph, left[..], right[..], unseen, seen[..], dead, ilhs);
          dead := dead + Marked(seen[..]);
        }
      }
    }

    /** The edges of a maximum matching, in ascending order of the left node. */
    method Compute() returns (result: seq<(int, int)>)
      requires Valid() && forall l :: 0 <= l < graph.lhs ==> left[l] == UNUSED
      modifies left, right
      ensures Valid()
      ensures forall i, j :: 0 <= i < j < |result| ==> result[i].0 < result[j].0
      ensures IsMatching(graph, Elements(result)) && |Elements(result)| == |result|
      ensures forall m :: IsMatching(graph, m) ==> |m| <= |result|
    {
      ghost var dead := AugmentAll();
      result := EdgesOf(left[..]);
      LinkedIsMatching(graph, left[..], right[..]);
      forall m | IsMatching(graph, m) ensures |m| <= |result| {
        DeadBoundsMatchings(graph, left[..], right[..], dead, m);
      }
    }
  }

  /** The loop that reads the pairs off the finished left array. */
  method EdgesOf(left: seq<int>) returns (result: seq<(int, int)>)
    ensures forall i, j :: 0 <= i < j < |result| ==> result[i].0 < result[j].0
    ensures Elements(result) == MatchedEdges(left) && |Elements(result)| == |result|
  {
    hide Elements, MatchedEdges;
    NoEdges();
    result := [];
    for ilhs := 0 to |left|
      invariant Ascending(result, ilhs)
      invariant Elements(result) == MatchedEdges(left[..ilhs]) && |Elements(result)| == |result|
    {
      var irhs := left[ilhs];
      assert left[..ilhs + 1] == left[..ilhs] + [irhs];
      MatchedEdgesExtend(left[..ilhs], irhs);
      if irhs == UNUSED {
        continue;
      }
      ElementsExtend(result, ilhs, irhs);
      result := result + [(ilhs, irhs)];
    }
    assert left[..|left|] == left;
  }

  /** The pairs are in strictly ascending order of their left nodes, all of them below `upto`. */
  predicate Ascending(pairs: seq<(int, int)>, upto: int) {
    && (forall i :: 0 <= i < |pairs| ==> 0 <= pairs[i].0 < upto)
    && (forall i, j :: 0 <= i < j < |pairs| ==> pairs[i].0 < pairs[j].0)
  }

  lemma NoEdges()
    ensures Elements<(int, int)>([]) == MatchedEdges([]) == {}
  {}

  lemma ElementsExtend(pairs: seq<(int, int)>, l: int, r: int)
    requires Ascending(pairs, l)
    ensures Elements(pairs + [(l, r)]) == Elements(pairs) + {(l, r)} && (l, r) !in Elements(pairs)
  {}

  ghost function Elements<T>(s: seq<T>): set<T> {
    set x | x in s
  }

  ghost function MatchedEdges(left: seq<int>): set<(int, int)> {
    set l | 0 <= l < |left| && left[l] != UNUSED :: (l, left[l])
  }

  lemma MatchedEdgesExtend(left: seq<int>, r: int)
    ensures MatchedEdges(left + [r]) == MatchedEdges(left) + if r == UNUSED then {} else {(|left|, r)}
  {
    var more := left + [r];
    forall l | 0 <= l < |left| ensures more[l] == left[l] {}
    forall e <- MatchedEdges(left) ensures e in MatchedEdges(more) {
      assert more[e.0] == left[e.0];
    }
    if r != UNUSED {
      assert more[|left|] == r;
    }
  }

  lemma LinkedIsMatching(g: MatchMatrix, left: seq<int>, right: seq<int>)
    requires Linked(g, left, right, UNUSED)
    ensures IsMatching(g, MatchedEdges(left))
  {
    forall e <- MatchedEdges(left) ensures g.HasEdge(e.0, e.1) && left[e.0] == e.1 && right[e.1] == e.0 {
      assert left[e.0] != UNUSED;
    }
  }

  // ---------------------------------------------------------------- maximality

  lemma {:induction false} InjectionBound<A(!new), B>(a: set<A>, b: set<B>, f: A -> B)
    requires forall x <- a :: f(x) in b
    requires forall x <- a, y <- a :: f(x) == f(y) ==> x == y
    ensures |a| <= |b|
  {
    if a != {} {
      var x :| x in a;
      InjectionBound(a - {x}, b - {f(x)}, f);
    }
  }

  ghost function Range(n: nat): (all: set<int>)
    ensures |all| == n && forall r :: r in all <==> 0 <= r < n
  {
    if n == 0 then {} else Range(n - 1) + {n - 1}
  }

  /** Once every unmatched left node leads only to dead nodes, no matching is larger than the one held. */
  lemma DeadBoundsMatchings(g: MatchMatrix, left: seq<int>, right: seq<int>, dead: set<int>, m: set<(int, int)>)
    requires Linked(g, left, right, UNUSED) && Dead(g, right, dead) && IsMatching(g, m)
    requires Exhausted(g, left, dead, g.lhs)
    ensures |m| <= |MatchedEdges(left)|
  {
    // A competing edge into the dead set is charged to the edge held at its right end, any other to its left end.
    var charge := (e: (int, int)) =>
      if e.1 in dead && 0 <= e.1 < |right| then (right[e.1], e.1)
      else if 0 <= e.0 < |left| then (e.0, left[e.0]) else e;
    forall e <- m ensures charge(e) in MatchedEdges(left) && (charge(e).1 in dead <==> e.1 in dead) {
      assert g.HasEdge(e.0, e.1);
    }
    InjectionBound(m, MatchedEdges(left), charge);
  }

  /** A maximum matching of the graph. */
  method FindMaxBipartiteMatching(g: MatchMatrix) returns (result: seq<(int, int)>)
    ensures IsMatching(g, Elements(result)) && |Elements(result)| == |result|
    ensures forall m :: IsMatching(g, m) ==> |m| <= |result|
  {
    var state := new MaxBipartiteMatchState(g);
    result := state.Compute();
  }

  lemma MatchingFitsRight(g: MatchMatrix, m: set<(int, int)>)
    requires IsMatching(g, m)
    ensures |m| <= g.rhs
  {
    InjectionBound(m, Range(g.rhs), (e: (int, int)) => e.1);
  }

  ghost predicate UsesRight(m: set<(int, int)>, r: int) {
    exists l :: (l, r) in m
  }

  ghost function PartnerOf(m: set<(int, int)>, r: int): int
    requires UsesRight(m, r)
  {
    var l :| (l, r) in m; l
  }

  lemma FullMatchingUsesRight(g: MatchMatrix, m: set<(int, int)>, r: int)
    requires IsMatching(g, m) && |m| == g.rhs && 0 <= r < g.rhs
    ensures UsesRight(m, r)
  {
    if !UsesRight(m, r) {
      forall e <- m ensures e.1 != r {
        assert (e.0, e.1) in m;
      }
      InjectionBound(m, Range(g.rhs) - {r}, (e: (int, int)) => e.1);
    }
  }

  lemma PairingIsMatching(g: MatchMatrix, pick: seq<int>, m: set<(int, int)>)
    requires IsFullPairing(g, pick) && forall e <- m :: 0 <= e.1 < |pick| && e.0 == pick[e.1]
    ensures IsMatching(g, m)
  {}

  lemma PairingGivesMatching(g: MatchMatrix, pick: seq<int>) returns (m: set<(int, int)>)
    requires IsFullPairing(g, pick)
    ensures IsMatching(g, m) && |m| == g.rhs
  {
    var all := Range(g.rhs);
    m := set r | r in all :: (pick[r], r);
    PairingIsMatching(g, pick, m);
    InjectionBound(all, m, r => if 0 <= r < |pick| then (pick[r], r) else (0, 0));
    MatchingFitsRight(g, m);
  }

  lemma MatchingGivesPairing(g: MatchMatrix, m: set<(int, int)>) returns (pick: seq<int>)
    requires IsMatching(g, m) && |m| == g.rhs
    ensures IsFullPairing(g, pick)
  {
    forall r | 0 <= r < g.rhs ensures UsesRight(m, r) {
      FullMatchingUsesRight(g, m, r);
    }
    pick := seq(g.rhs, r requires UsesRight(m, r) && 0 <= r < g.rhs => PartnerOf(m, r));
    assert forall r :: 0 <= r < g.rhs ==> (pick[r], r) in m;
  }

  /** True exactly when every matcher can be given an element of its own. */
  method FindPairing(g: MatchMatrix) returns (result: bool)
    ensures result <==> exists pick :: IsFullPairing(g, pick)
  {
    var matches := FindMaxBipartiteMatching(g);
    result := |matches| == g.rhs;
    MatchingFitsRight(g, Elements(matches));
    if result {
      var pick := MatchingGivesPairing(g, Elements(matches));
    }
    if pick :| IsFullPairing(g, pick) {
      var m := PairingGivesMatching(g, pick);
    }
  }
}

/**
 The generator of the look-up of Unicode blocks: a small compiler from a list of blocks to nested tests on the code
 point.  What it emits is a list of lines, given a meaning here by an interpreter; the theorem is that on every code
 point the emitted function returns the block the point is in, or one next to it.
 */
module BlockTree {
  import opened Wrappers

  datatype Block = Block(name: string, start: nat, end: nat)

  /** In order, without overlap, none of them empty. */
  predicate Sorted(blocks: seq<Block>) {
    && (forall i | 0 <= i < |blocks| :: blocks[i].start <= blocks[i].end)
    && (forall i, j | 0 <= i < j < |blocks| :: blocks[i].end < blocks[j].start)
  }

  /** None empty, no two that overlap, in any order. */
  predicate Disjoint(blocks: seq<Block>) {
    && (forall i | 0 <= i < |blocks| :: blocks[i].start <= blocks[i].end)
    && (forall i, j | 0 <= i < j < |blocks| :: Apart(blocks[i], blocks[j]))
  }

  predicate Apart(a: Block, b: Block) {
    a.end < b.start || b.end < a.start
  }

  // ---------------------------------------------------------------- blocks in order

  /** Puts a block after those that begin no later. */
  function Insert(block: Block, blocks: seq<Block>): seq<Block> {
    if blocks == [] || block.start < blocks[0].start then [block] + blocks
    else [blocks[0]] + Insert(block, blocks[1..])
  }

  /** The stable sort by the start. */
  function SortByStart(blocks: seq<Block>): seq<Block> {
    if blocks == [] then [] else Insert(blocks[|blocks| - 1], SortByStart(blocks[..|blocks| - 1]))
  }

  lemma {:induction false} InsertAdds(block: Block, blocks: seq<Block>)
    ensures multiset(Insert(block, blocks)) == multiset(blocks) + multiset{block}
    ensures |Insert(block, blocks)| == |blocks| + 1
    decreases |blocks|
  {
    if blocks != [] {
      InsertAdds(block, blocks[1..]);
      assert blocks == [blocks[0]] + blocks[1..];
    }
  }

  lemma FirstThenSorted(block: Block, blocks: seq<Block>)
    requires Sorted(blocks) && block.start <= block.end
    requires blocks != [] ==> block.end < blocks[0].start
    ensures Sorted([block] + blocks)
  {}

  lemma {:induction false} InsertKeepsSorted(block: Block, blocks: seq<Block>)
    requires Sorted(blocks) && block.start <= block.end
    requires forall i | 0 <= i < |blocks| :: Apart(blocks[i], block)
    ensures Sorted(Insert(block, blocks))
    ensures Insert(block, blocks)[0] in {block} + if blocks == [] then {} else {blocks[0]}
    decreases |blocks|
  {
    if blocks == [] {
    } else if block.start < blocks[0].start {
      FirstThenSorted(block, blocks);
    } else {
      InsertKeepsSorted(block, blocks[1..]);
      FirstThenSorted(blocks[0], Insert(block, blocks[1..]));
    }
  }

  lemma {:induction false} SortPermutes(blocks: seq<Block>)
    ensures multiset(SortByStart(blocks)) == multiset(blocks) && |SortByStart(blocks)| == |blocks|
    decreases |blocks|
  {
    hide Insert;
    if blocks != [] {
      var n := |blocks| - 1;
      SortPermutes(blocks[..n]);
      InsertAdds(blocks[n], SortByStart(blocks[..n]));
      assert blocks == blocks[..n] + [blocks[n]];
    }
  }

  /** Blocks that do not overlap come out of the sort in order, the same ones. */
  lemma {:induction false} SortSorts(blocks: seq<Block>)
    requires Disjoint(blocks)
    ensures Sorted(SortByStart(blocks)) && multiset(SortByStart(blocks)) == multiset(blocks)
    ensures |SortByStart(blocks)| == |blocks|
    decreases |blocks|
  {
    hide Insert, Sorted;
    SortPermutes(blocks);
    if blocks == [] {
      NothingIsSorted();
    } else {
      var n := |blocks| - 1;
      var rest := SortByStart(blocks[..n]);
      SortSorts(blocks[..n]);
      forall i | 0 <= i < |rest| ensures Apart(rest[i], blocks[n]) {
        assert rest[i] in multiset(rest);
        assert rest[i] in blocks[..n];
      }
      InsertKeepsSorted(blocks[n], rest);
    }
  }

  lemma NothingIsSorted()
    ensures Sorted([])
  {}

  // ---------------------------------------------------------------- the emitted language

  datatype Test = AtMost(bound: nat) | Below(bound: nat)

  predicate Passes(t: Test, cp: nat) {
    match t
    case AtMost(bound) => cp <= bound
    case Below(bound) => cp < bound
  }

  /** `if (..) {`, `return ..;`, `}`, `} else {`, `} else if (..) {` */
  datatype Line = If(test: Test) | Return(block: Block) | ReturnUnknown | Close | CloseElse | CloseElseIf(test: Test)

  /** The lines from the one that closes the present branch on, which may continue with another branch. */
  function SkipBranch(lines: seq<Line>, depth: nat): (rest: seq<Line>)
    ensures |rest| <= |lines|
  {
    if lines == [] then []
    else match lines[0]
      case If(_) => SkipBranch(lines[1..], depth + 1)
      case Close => if depth == 0 then lines else SkipBranch(lines[1..], depth - 1)
      case CloseElse => if depth == 0 then lines else SkipBranch(lines[1..], depth)
      case CloseElseIf(_) => if depth == 0 then lines else SkipBranch(lines[1..], depth)
      case _ => SkipBranch(lines[1..], depth)
  }

  /** The lines after the whole statement whose present branch has come to its end. */
  function SkipBranches(lines: seq<Line>): (rest: seq<Line>)
    ensures |rest| <= |lines|
    decreases |lines|
  {
    var rest := SkipBranch(lines, 0);
    if rest == [] then [] else if rest[0].Close? then rest[1..] else SkipBranches(rest[1..])
  }

  datatype Answer = Found(block: Block) | Unknown | NoReturn

  /** What the lines return for a code point. */
  function Execute(lines: seq<Line>, cp: nat): Answer
    decreases |lines|, 1
  {
    if lines == [] then NoReturn
    else match lines[0]
      case Return(block) => Found(block)
      case ReturnUnknown => Unknown
      case If(test) => if Passes(test, cp) then Execute(lines[1..], cp) else Otherwise(SkipBranch(lines[1..], 0), cp)
      case Close => Execute(lines[1..], cp)
      case _ => Execute(SkipBranches(lines[1..]), cp)
  }

  /** What is returned after a test has failed, from the line that closes its branch on. */
  function Otherwise(lines: seq<Line>, cp: nat): Answer
    decreases |lines|, 0
  {
    if lines == [] then NoReturn
    else match lines[0]
      case CloseElseIf(test) =>
        if Passes(test, cp) then Execute(lines[1..], cp) else Otherwise(SkipBranch(lines[1..], 0), cp)
      case _ => Execute(lines[1..], cp)
  }

  // ---------------------------------------------------------------- the generator

  /** The branches of a chain of tests from block number `i` on. */
  function Branches(blocks: seq<Block>, i: nat): seq<Line>
    decreases |blocks| - i
  {
    if i >= |blocks| then [Close]
    else
      [if i + 1 == |blocks| then CloseElse else CloseElseIf(AtMost(blocks[i].end)), Return(blocks[i])]
      + Branches(blocks, i + 1)
  }

  function LinearLines(blocks: seq<Block>): seq<Line>
    requires blocks != []
  {
    [If(AtMost(blocks[0].end)), Return(blocks[0])] + Branches(blocks, 1)
  }

  /** Fails, by its assertion, on fewer than two blocks; the last line is rewritten as each branch is added. */
  method EmitLinearBlocks(blocks: seq<Block>) returns (lines: Option<seq<Line>>)
    ensures lines == if |blocks| >= 2 then Some(LinearLines(blocks)) else None
  {
    if !(|blocks| >= 2) {
      return None;
    }
    var out := [If(AtMost(blocks[0].end)), Return(blocks[0]), Close];
    var last := |blocks| - 1;
    for i := 1 to |blocks|
      invariant |out| >= 1 && out[|out| - 1] == Close
      invariant out[..|out| - 1] + Branches(blocks, i) == LinearLines(blocks)
    {
      ghost var before := out[..|out| - 1];
      out := out[|out| - 1 := if i == last then CloseElse else CloseElseIf(AtMost(blocks[i].end))];
      out := out + [Return(blocks[i]), Close];
      assert out[..|out| - 1] == before
          + [if i == last then CloseElse else CloseElseIf(AtMost(blocks[i].end)), Return(blocks[i])];
      assert out[..|out| - 1] + Branches(blocks, i + 1) == before + Branches(blocks, i);
    }
    assert out == out[..|out| - 1] + [Close];
    lines := Some(out);
  }

  /** The nested tests for some blocks; halves them down to chains of fewer than four. */
  function BlockLines(blocks: seq<Block>): Option<seq<Line>>
    decreases |blocks|
  {
    if |blocks| < 4 then
      if |blocks| >= 2 then Some(LinearLines(blocks)) else None
    else
      var half := |blocks| / 2;
      var first, second := BlockLines(blocks[..half]), BlockLines(blocks[half..]);
      if first.None? || second.None? then None
      else Some([If(Below(blocks[half].start))] + first.value + [CloseElse] + second.value + [Close])
  }

  method PrintBlocksRec(blocks: seq<Block>) returns (lines: Option<seq<Line>>)
    ensures lines == BlockLines(blocks)
    decreases |blocks|
  {
    if |blocks| < 4 {
      lines := EmitLinearBlocks(blocks);
      return;
    }
    var half := |blocks| / 2;
    var firstHalf, secondHalf := blocks[..half], blocks[half..];
    var out := [If(Below(secondHalf[0].start))];
    var first := PrintBlocksRec(firstHalf);
    if first.None? {
      return None;
    }
    out := out + first.value;
    out := out + [CloseElse];
    var second := PrintBlocksRec(secondHalf);
    if second.None? {
      return None;
    }
    out := out + second.value;
    out := out + [Close];
    lines := Some(out);
  }

  /** The whole function: sorts, then the four Latin blocks first.  It fails where a slice is empty or too short. */
  method GenerateGetBlock(blocks: seq<Block>) returns (lines: Option<seq<Line>>)
    ensures lines == GetBlock(SortByStart(blocks))
  {
    hide SortByStart;
    var ordered := SortByStart(blocks);
    var basicLatin := ordered[..if |ordered| < 4 then |ordered| else 4];
    var others := ordered[|basicLatin|..];
    if others == [] {
      return None;
    }
    var out := [If(Below(others[0].start))];
    var latin := PrintBlocksRec(basicLatin);
    if latin.None? {
      return None;
    }
    out := out + latin.value + [Close];
    var rest := PrintBlocksRec(others);
    if rest.None? {
      return None;
    }
    lines := Some(out + rest.value + [ReturnUnknown]);
  }

  function GetBlock(blocks: seq<Block>): Option<seq<Line>> {
    if |blocks| <= 4 then None
    else
      var latin, rest := BlockLines(blocks[..4]), BlockLines(blocks[4..]);
      if latin.None? || rest.None? then None
      else Some([If(Below(blocks[4].start))] + latin.value + [Close] + rest.value + [ReturnUnknown])
  }

  // ---------------------------------------------------------------- the assertion

  lemma {:induction false} NoAssertionFails(blocks: seq<Block>)
    ensures BlockLines(blocks).Some? <==> |blocks| >= 2
    decreases |blocks|
  {
    if |blocks| >= 4 {
      NoAssertionFails(blocks[..|blocks| / 2]);
      NoAssertionFails(blocks[|blocks| / 2..]);
    }
  }

  /** The generator succeeds exactly on six blocks or more. */
  lemma GeneratesIffSix(blocks: seq<Block>)
    ensures GetBlock(blocks).Some? <==> |blocks| >= 6
  {
    if |blocks| > 4 {
      NoAssertionFails(blocks[..4]);
      NoAssertionFails(blocks[4..]);
    }
  }

  // ---------------------------------------------------------------- what the lines return

  lemma {:induction false} SkipBranchesOfChain(blocks: seq<Block>, i: nat, rest: seq<Line>, depth: nat)
    ensures SkipBranch(Branches(blocks, i) + rest, depth + 1) == SkipBranch(rest, depth)
    decreases |blocks| - i
  {
    var lines := Branches(blocks, i) + rest;
    if i >= |blocks| {
      assert lines[1..] == rest;
    } else {
      SkipBranchesOfChain(blocks, i + 1, rest, depth);
      assert lines[1..][1..] == Branches(blocks, i + 1) + rest;
      assert lines[1] == Return(blocks[i]);
    }
  }

  /** A test between two halves of the blocks, with what follows it. */
  function TreeLines(bound: nat, first: seq<Line>, second: seq<Line>, rest: seq<Line>): seq<Line> {
    [If(Below(bound))] + (first + ([CloseElse] + (second + ([Close] + rest))))
  }

  lemma TreeAssoc(bound: nat, first: seq<Line>, second: seq<Line>, rest: seq<Line>)
    ensures [If(Below(bound))] + first + [CloseElse] + second + [Close] + rest == TreeLines(bound, first, second, rest)
  {
    var head := [If(Below(bound))];
  }

  lemma TreeShape(blocks: seq<Block>, rest: seq<Line>)
    requires |blocks| >= 4 && BlockLines(blocks).Some?
    ensures var half := |blocks| / 2;
      && BlockLines(blocks[..half]).Some? && BlockLines(blocks[half..]).Some?
      && BlockLines(blocks).value + rest ==
         TreeLines(blocks[half].start, BlockLines(blocks[..half]).value, BlockLines(blocks[half..]).value, rest)
  {
    hide TreeLines, LinearLines;
    var half := |blocks| / 2;
    TreeAssoc(blocks[half].start, BlockLines(blocks[..half]).value, BlockLines(blocks[half..]).value, rest);
  }

  lemma SkipElse(lines: seq<Line>, depth: nat)
    ensures SkipBranch([CloseElse] + lines, depth + 1) == SkipBranch(lines, depth + 1)
    ensures SkipBranch([Close] + lines, depth + 1) == SkipBranch(lines, depth)
  {
    assert ([CloseElse] + lines)[1..] == lines && ([Close] + lines)[1..] == lines;
  }

  lemma SkipIf(bound: nat, lines: seq<Line>, depth: nat)
    ensures SkipBranch([If(Below(bound))] + lines, depth) == SkipBranch(lines, depth + 1)
  {
    assert ([If(Below(bound))] + lines)[1..] == lines;
  }

  /** Emitted lines are skipped as a whole. */
  lemma {:induction false} SkipBlockLines(blocks: seq<Block>, rest: seq<Line>, depth: nat)
    requires |blocks| >= 2 && BlockLines(blocks).Some?
    ensures SkipBranch(BlockLines(blocks).value + rest, depth) == SkipBranch(rest, depth)
    decreases |blocks|
  {
    hide BlockLines, SkipBranch;
    if |blocks| < 4 {
      SkipLinear(blocks, rest, depth);
    } else {
      var half := |blocks| / 2;
      TreeShape(blocks, rest);
      var first, second := BlockLines(blocks[..half]).value, BlockLines(blocks[half..]).value;
      var afterFirst := second + ([Close] + rest);
      SkipIf(blocks[half].start, first + ([CloseElse] + afterFirst), depth);
      SkipBlockLines(blocks[..half], [CloseElse] + afterFirst, depth + 1);
      SkipElse(afterFirst, depth);
      SkipBlockLines(blocks[half..], [Close] + rest, depth + 1);
      SkipElse(rest, depth);
    }
  }

  lemma SkipLinear(blocks: seq<Block>, rest: seq<Line>, depth: nat)
    requires 2 <= |blocks| < 4
    ensures BlockLines(blocks).Some? && SkipBranch(BlockLines(blocks).value + rest, depth) == SkipBranch(rest, depth)
  {
    hide Branches;
    var lines := LinearLines(blocks) + rest;
    SkipBranchesOfChain(blocks, 1, rest, depth);
    assert lines[1..][1..] == Branches(blocks, 1) + rest;
    assert lines[0].If? && lines[1].Return?;
  }

  /** Block number `i` holds the code point or is next to it: the blocks before end below, those after begin above. */
  predicate Nearest(blocks: seq<Block>, cp: nat, i: nat) {
    && i < |blocks|
    && (i > 0 ==> blocks[i - 1].end < cp)
    && (i + 1 < |blocks| ==> cp < blocks[i + 1].start)
  }

  /** The head of a chain, and what its test skips to. */
  lemma ChainUnfolds(blocks: seq<Block>, i: nat, rest: seq<Line>)
    requires i < |blocks|
    ensures var lines, more := Branches(blocks, i) + rest, Branches(blocks, i + 1) + rest;
      && lines != []
      && lines[0] == (if i + 1 == |blocks| then CloseElse else CloseElseIf(AtMost(blocks[i].end)))
      && lines[1..] == [Return(blocks[i])] + more
      && SkipBranch(lines[1..], 0) == more
  {
    var head := if i + 1 == |blocks| then CloseElse else CloseElseIf(AtMost(blocks[i].end));
    assert Branches(blocks, i) == [head, Return(blocks[i])] + Branches(blocks, i + 1);
    hide SkipBranch, Branches;
    TwoAhead(head, Return(blocks[i]), Branches(blocks, i + 1), rest);
    SkipReturn(blocks[i], blocks, i + 1, rest);
  }

  lemma TwoAhead(a: Line, b: Line, lines: seq<Line>, rest: seq<Line>)
    ensures ([a, b] + lines + rest)[0] == a && ([a, b] + lines + rest)[1..] == [b] + (lines + rest)
  {}

  lemma ReturnReturns(block: Block, more: seq<Line>, cp: nat)
    ensures Execute([Return(block)] + more, cp) == Found(block)
  {}

  lemma {:induction false} ChainReturns(blocks: seq<Block>, i: nat, rest: seq<Line>, cp: nat) returns (found: nat)
    requires Sorted(blocks) && 1 <= i < |blocks| && blocks[i - 1].end < cp
    ensures Nearest(blocks, cp, found) && Otherwise(Branches(blocks, i) + rest, cp) == Found(blocks[found])
    decreases |blocks| - i
  {
    hide Branches, SkipBranch, Execute;
    ChainUnfolds(blocks, i, rest);
    ReturnReturns(blocks[i], Branches(blocks, i + 1) + rest, cp);
    if i + 1 == |blocks| || cp <= blocks[i].end {
      found := i;
    } else {
      found := ChainReturns(blocks, i + 1, rest, cp);
    }
  }

  lemma LinearReturns(blocks: seq<Block>, rest: seq<Line>, cp: nat) returns (found: nat)
    requires Sorted(blocks) && |blocks| >= 2
    ensures Nearest(blocks, cp, found) && Execute(LinearLines(blocks) + rest, cp) == Found(blocks[found])
  {
    hide SkipBranch, Otherwise, SkipBranches;
    var lines, more := LinearLines(blocks) + rest, Branches(blocks, 1) + rest;
    assert lines[1..] == [Return(blocks[0])] + more;
    ReturnReturns(blocks[0], more, cp);
    if cp <= blocks[0].end {
      found := 0;
    } else {
      found := ChainReturns(blocks, 1, rest, cp);
      SkipReturn(blocks[0], blocks, 1, rest);
    }
  }

  lemma SkipReturn(block: Block, blocks: seq<Block>, i: nat, rest: seq<Line>)
    ensures var more := Branches(blocks, i) + rest; SkipBranch([Return(block)] + more, 0) == more
  {
    var more := Branches(blocks, i) + rest;
    assert ([Return(block)] + more)[1..] == more;
    assert more[0] == Branches(blocks, i)[0];
    assert SkipBranch(more, 0) == more;
  }

  lemma SortedParts(blocks: seq<Block>, half: nat)
    requires Sorted(blocks) && half <= |blocks|
    ensures Sorted(blocks[..half]) && Sorted(blocks[half..])
  {}

  lemma NearestParts(blocks: seq<Block>, half: nat, cp: nat, found: nat)
    requires Sorted(blocks) && 0 < half < |blocks|
    ensures cp < blocks[half].start && Nearest(blocks[..half], cp, found) ==> Nearest(blocks, cp, found)
    ensures cp >= blocks[half].start && Nearest(blocks[half..], cp, found) ==> Nearest(blocks, cp, half + found)
  {}

  /** On every code point, emitted lines return a nearest block. */
  lemma {:induction false} LinesReturn(blocks: seq<Block>, rest: seq<Line>, cp: nat) returns (found: nat)
    requires Sorted(blocks) && |blocks| >= 2 && BlockLines(blocks).Some?
    ensures Nearest(blocks, cp, found) && Execute(BlockLines(blocks).value + rest, cp) == Found(blocks[found])
    decreases |blocks|
  {
    hide BlockLines, SkipBranch, SkipBranches, Execute, Sorted, LinearLines;
    if |blocks| < 4 {
      found := LinearReturns(blocks, rest, cp);
      FewAreLinear(blocks);
    } else {
      var half := |blocks| / 2;
      TreeShape(blocks, rest);
      var first, second := BlockLines(blocks[..half]).value, BlockLines(blocks[half..]).value;
      var afterFirst := second + ([Close] + rest);
      SkipBlockLines(blocks[..half], [CloseElse] + afterFirst, 0);
      TestTaken(blocks[half].start, first + ([CloseElse] + afterFirst), afterFirst, cp);
      SortedParts(blocks, half);
      if cp < blocks[half].start {
        found := LinesReturn(blocks[..half], [CloseElse] + afterFirst, cp);
        NearestParts(blocks, half, cp, found);
      } else {
        found := LinesReturn(blocks[half..], [Close] + rest, cp);
        NearestParts(blocks, half, cp, found);
        found := half + found;
      }
    }
  }

  lemma FewAreLinear(blocks: seq<Block>)
    requires 2 <= |blocks| < 4
    ensures BlockLines(blocks) == Some(LinearLines(blocks))
  {}

  /** A test leads to its branch, or to the other one. */
  lemma TestTaken(bound: nat, lines: seq<Line>, others: seq<Line>, cp: nat)
    requires SkipBranch(lines, 0) == SkipBranch([CloseElse] + others, 0)
    ensures Execute([If(Below(bound))] + lines, cp) == if cp < bound then Execute(lines, cp) else Execute(others, cp)
  {
    assert ([If(Below(bound))] + lines)[1..] == lines;
  }

  /**
   The generated function: for every sorted list of six blocks or more and every code point it returns a block next to
   the point, and the end of the function is never reached.
   */
  lemma GetBlockReturns(blocks: seq<Block>, cp: nat) returns (found: nat)
    requires Sorted(blocks) && |blocks| >= 6
    ensures GetBlock(blocks).Some? && Nearest(blocks, cp, found)
        && Execute(GetBlock(blocks).value, cp) == Found(blocks[found])
  {
    hide BlockLines, SkipBranch, SkipBranches;
    GeneratesIffSix(blocks);
    var latin, others := BlockLines(blocks[..4]).value, BlockLines(blocks[4..]).value;
    var lines := GetBlock(blocks).value;
    var rest := others + [ReturnUnknown];
    assert lines[0] == If(Below(blocks[4].start)) && lines[1..] == latin + ([Close] + rest);
    if cp < blocks[4].start {
      found := LinesReturn(blocks[..4], [Close] + rest, cp);
    } else {
      found := LinesReturn(blocks[4..], [ReturnUnknown], cp);
      SkipBlockLines(blocks[..4], [Close] + rest, 0);
      CloseReached(rest, cp);
      found := 4 + found;
    }
  }

  lemma CloseReached(lines: seq<Line>, cp: nat)
    ensures SkipBranch([Close] + lines, 0) == [Close] + lines
    ensures Otherwise([Close] + lines, cp) == Execute(lines, cp)
  {
    assert ([Close] + lines)[1..] == lines;
  }

  /** A code point inside a block gets that block, in whatever order the blocks were given. */
  lemma InsideIsFound(blocks: seq<Block>, cp: nat, block: Block)
    requires Disjoint(blocks) && |blocks| >= 6 && block in blocks && block.start <= cp <= block.end
    ensures var lines := GetBlock(SortByStart(blocks)); lines.Some? && Execute(lines.value, cp) == Found(block)
  {
    hide GetBlock, Execute, SortByStart;
    SortSorts(blocks);
    var ordered := SortByStart(blocks);
    assert block in multiset(ordered);
    var found := GetBlockReturns(ordered, cp);
    var i :| 0 <= i < |ordered| && ordered[i] == block;
  }

  /** The code point is outside the block, and no other block is between the two. */
  ghost predicate NextTo(blocks: seq<Block>, block: Block, cp: nat) {
    && block in blocks
    && (block.end < cp || cp < block.start)
    && forall b <- blocks | b != block ::
         && (block.end < cp ==> b.end < block.start || cp < b.start)
         && (cp < block.start ==> block.end < b.start || b.end < cp)
  }

  lemma NearestIsNextTo(blocks: seq<Block>, cp: nat, found: nat)
    requires Sorted(blocks) && Nearest(blocks, cp, found)
    requires blocks[found].end < cp || cp < blocks[found].start
    ensures NextTo(blocks, blocks[found], cp)
  {
    forall b <- blocks | b != blocks[found]
      ensures blocks[found].end < cp ==> b.end < blocks[found].start || cp < b.start
      ensures cp < blocks[found].start ==> blocks[found].end < b.start || b.end < cp
    {
      var k :| 0 <= k < |blocks| && blocks[k] == b;
      assert k > found + 1 ==> blocks[found + 1].end < b.start;
      assert k + 1 < found ==> b.end < blocks[found - 1].start;
    }
  }

  /** A code point in no block gets one next to it, in whatever order the blocks were given. */
  lemma GapGetsNeighbour(blocks: seq<Block>, cp: nat) returns (block: Block)
    requires Disjoint(blocks) && |blocks| >= 6
    requires forall b <- blocks :: cp < b.start || b.end < cp
    ensures var lines := GetBlock(SortByStart(blocks)); lines.Some? && Execute(lines.value, cp) == Found(block)
    ensures NextTo(blocks, block, cp)
  {
    hide GetBlock, Execute, SortByStart;
    SortSorts(blocks);
    var ordered := SortByStart(blocks);
    var found := GetBlockReturns(ordered, cp);
    block := ordered[found];
    forall b ensures b in ordered <==> b in blocks {
      assert b in multiset(ordered) <==> b in multiset(blocks);
    }
    NearestIsNextTo(ordered, cp, found);
  }
}

/**
 The tokenizer: it reads and rewrites one buffer through two cursors and reports runs of three or more letters.

 `LongRuns` says which runs those are, on code points; the iterator below works on bytes and is proved against it.
 Text that is no UTF-8 is read up to its first malformed byte, where the iterator fails.
 */
module Tokenizer {
  import opened Unicode

  // ---------------------------------------------------------------- runs of letters

  /** The code points from `start` up to and without `stop`. */
  datatype Run = Run(start: nat, stop: nat)

  /** Where the letters from position `k` on end. */
  function RunEnd(points: seq<Scalar>, others: nat -> bool, k: nat): (e: nat)
    requires k <= |points|
    ensures k <= e <= |points|
    ensures forall i | k <= i < e :: IsLetter(points[i], others)
    ensures e < |points| ==> !IsLetter(points[e], others)
    decreases |points| - k
  {
    if k < |points| && IsLetter(points[k], others) then RunEnd(points, others, k + 1) else k
  }

  /**
   The runs of three or more letters from position `k` on; one that reaches the end of the points counts only if they
   are the complete text.
   */
  function LongRuns(points: seq<Scalar>, others: nat -> bool, k: nat, complete: bool): seq<Run>
    decreases |points| - k
  {
    if k >= |points| then []
    else
      var e := RunEnd(points, others, k);
      (if e - k > 2 && (e < |points| || complete) then [Run(k, e)] else []) + LongRuns(points, others, e + 1, complete)
  }

  /** Three or more letters with no letter before and none after. */
  predicate IsLongRun(points: seq<Scalar>, others: nat -> bool, run: Run) {
    && run.start + 3 <= run.stop <= |points|
    && (forall i | run.start <= i < run.stop :: IsLetter(points[i], others))
    && (run.start > 0 ==> !IsLetter(points[run.start - 1], others))
    && (run.stop < |points| ==> !IsLetter(points[run.stop], others))
  }

  /** From a position where no run is cut: exactly the maximal runs of three or more letters. */
  lemma {:induction false} LongRunsAreMaximal(points: seq<Scalar>, others: nat -> bool, k: nat, run: Run)
    requires 0 < k <= |points| ==> !IsLetter(points[k - 1], others)
    ensures run in LongRuns(points, others, k, true) <==> IsLongRun(points, others, run) && run.start >= k
    decreases |points| - k
  {
    hide IsLetter;
    if k < |points| {
      var e := RunEnd(points, others, k);
      LongRunsAreMaximal(points, others, e + 1, run);
    } else {
      assert IsLongRun(points, others, run) ==> run.start < |points|;
    }
  }

  /** Runs of three or more points among the first `n`, from `k` on, with something between any two. */
  predicate InOrder(runs: seq<Run>, k: nat, n: nat) {
    && (forall i | 0 <= i < |runs| :: k <= runs[i].start && runs[i].start + 3 <= runs[i].stop <= n)
    && (forall i, j | 0 <= i < j < |runs| :: runs[i].stop < runs[j].start)
  }

  lemma {:induction false} LongRunsInOrder(points: seq<Scalar>, others: nat -> bool, k: nat, complete: bool)
    ensures InOrder(LongRuns(points, others, k, complete), k, |points|)
    decreases |points| - k
  {
    if k < |points| {
      var e := RunEnd(points, others, k);
      var rest := LongRuns(points, others, e + 1, complete);
      LongRunsInOrder(points, others, e + 1, complete);
    }
  }

  // ---------------------------------------------------------------- byte offsets

  function Offset(points: seq<Scalar>, k: nat): nat
    requires k <= |points|
  {
    |EncodeAll(points[..k])|
  }

  lemma OffsetNext(points: seq<Scalar>, k: nat)
    requires k < |points|
    ensures Offset(points, k + 1) == Offset(points, k) + Width(points[k])
  {
    assert points[..k + 1] == points[..k] + [points[k]];
    EncodeAllConcat(points[..k], [points[k]]);
    assert EncodeAll([points[k]]) == Encode(points[k]);
  }

  lemma {:induction false} OffsetGrows(points: seq<Scalar>, j: nat, k: nat)
    requires j <= k <= |points|
    ensures Offset(points, j) + (k - j) <= Offset(points, k)
    decreases k - j
  {
    if j < k {
      OffsetGrows(points, j, k - 1);
      OffsetNext(points, k - 1);
    }
  }

  datatype Span = Span(start: nat, end: nat)

  /**
   The byte span reported for a run: its start is exact, its end is the cursor after the separator that ended the run,
   less one byte unless the cursor is at the end of the text.
   */
  function Reported(points: seq<Scalar>, run: Run, complete: bool): Span
    requires run.start <= run.stop <= |points|
  {
    if run.stop == |points| then Span(Offset(points, run.start), Offset(points, run.stop))
    else if run.stop + 1 == |points| && complete then Span(Offset(points, run.start), Offset(points, run.stop + 1))
    else OffsetNext(points, run.stop); Span(Offset(points, run.start), Offset(points, run.stop + 1) - 1)
  }

  /**
   The reported end is that of the run exactly if the run ends the text, or a one-byte separator that is not last ends
   it.
   */
  lemma EndExactIff(points: seq<Scalar>, run: Run, complete: bool)
    requires run.start <= run.stop <= |points|
    ensures Reported(points, run, complete).end == Offset(points, run.stop) <==>
            run.stop == |points| || (Width(points[run.stop]) == 1 && !(run.stop + 1 == |points| && complete))
    ensures Reported(points, run, complete).end >= Offset(points, run.stop)
    ensures run.stop < |points| ==> Reported(points, run, complete).end <= Offset(points, run.stop + 1)
  {
    if run.stop < |points| {
      OffsetNext(points, run.stop);
    }
  }

  /** The spans reported for a text. */
  function Spans(points: seq<Scalar>, runs: seq<Run>, complete: bool): seq<Span>
    requires InOrder(runs, 0, |points|)
  {
    seq(|runs|, i requires 0 <= i < |runs| => Reported(points, runs[i], complete))
  }

  /** Reported spans start at their runs, lie within the text, and are in order and disjoint. */
  lemma SpansDisjoint(points: seq<Scalar>, runs: seq<Run>, complete: bool, i: nat)
    requires InOrder(runs, 0, |points|) && i < |runs|
    ensures var spans := Spans(points, runs, complete);
      && spans[i].start == Offset(points, runs[i].start)
      && spans[i].start + 3 <= spans[i].end <= Offset(points, |points|)
      && (i + 1 < |runs| ==> spans[i].end <= spans[i + 1].start)
  {
    hide Offset, Reported, Encode;
    var run := runs[i];
    EndExactIff(points, run, complete);
    OffsetGrows(points, run.start, run.stop);
    StartExact(points, run, complete);
    if run.stop < |points| {
      OffsetGrows(points, run.stop + 1, |points|);
    }
    if i + 1 < |runs| {
      StartExact(points, runs[i + 1], complete);
      OffsetGrows(points, run.stop + 1, runs[i + 1].start);
    }
  }

  lemma StartExact(points: seq<Scalar>, run: Run, complete: bool)
    requires run.start <= run.stop <= |points|
    ensures Reported(points, run, complete).start == Offset(points, run.start)
  {}

  // ---------------------------------------------------------------- the rewritten buffer

  /** The text with its first `k` code points normalised. */
  function Halfway(points: seq<Scalar>, k: nat): seq<Byte>
    requires k <= |points|
  {
    EncodeAll(NormalizeAll(points[..k])) + EncodeAll(points[k..])
  }

  /** At the cursor the untouched rest begins: after as many bytes as the normalised beginning takes. */
  lemma HalfwaySplits(points: seq<Scalar>, k: nat)
    requires k <= |points|
    ensures |EncodeAll(NormalizeAll(points[..k]))| == Offset(points, k) <= |Halfway(points, k)|
    ensures Halfway(points, k)[..Offset(points, k)] == EncodeAll(NormalizeAll(points[..k]))
    ensures Halfway(points, k)[Offset(points, k)..] == EncodeAll(points[k..])
    ensures |Halfway(points, k)| == Offset(points, |points|)
  {
    EncodedLengthKept(points[..k]);
    assert points == points[..k] + points[k..] == points[..|points|];
    EncodeAllConcat(points[..k], points[k..]);
  }

  /** Writing the normalised code point over the one at the cursor is one more step. */
  lemma HalfwayStep(points: seq<Scalar>, k: nat)
    requires k < |points|
    ensures var at, cp := Offset(points, k), NormalizePoint(points[k]);
      && at + Width(cp) <= |Halfway(points, k)|
      && Halfway(points, k + 1) == Halfway(points, k)[..at] + Encode(cp) + Halfway(points, k)[at + Width(cp)..]
  {
    hide Encode, Halfway, Offset, Normalize, Width;
    HalfwaySplits(points, k);
    HalfwaySplits(points, k + 1);
    OffsetNext(points, k);
    NormalizeKeeps(points[k], p => true);
    NextNormalized(points, k);
    var h, h', at := Halfway(points, k), Halfway(points, k + 1), Offset(points, k);
    EncodeFirst(points[k..]);
    assert points[k..][0] == points[k] && points[k..][1..] == points[k + 1..];
    assert h' == h'[..at + Width(points[k])] + h'[at + Width(points[k])..];
    assert h[at + Width(points[k])..] == h[at..][Width(points[k])..];
  }

  lemma EncodeFirst(points: seq<Scalar>)
    requires points != []
    ensures Width(points[0]) <= |EncodeAll(points)| && EncodeAll(points)[Width(points[0])..] == EncodeAll(points[1..])
  {}

  lemma NextNormalized(points: seq<Scalar>, k: nat)
    requires k < |points|
    ensures EncodeAll(NormalizeAll(points[..k + 1]))
        == EncodeAll(NormalizeAll(points[..k])) + Encode(NormalizePoint(points[k]))
  {
    hide Encode, Normalize;
    var cp := NormalizePoint(points[k]);
    assert NormalizeAll(points[..k + 1]) == NormalizeAll(points[..k]) + [cp];
    EncodeAllConcat(NormalizeAll(points[..k]), [cp]);
    assert EncodeAll([cp]) == Encode(cp);
  }

  /** What is decoded at the cursor. */
  lemma DecodeAt(points: seq<Scalar>, k: nat, tail: seq<Byte>)
    requires k <= |points| && Decode(tail).Malformed?
    ensures Offset(points, k) <= |Halfway(points, k)|
    ensures var bytes := (Halfway(points, k) + tail)[Offset(points, k)..];
      Decode(bytes) == if k < |points| then Point(points[k], Width(points[k])) else Malformed
  {
    hide Encode, Halfway, Offset, Normalize, Decode;
    HalfwaySplits(points, k);
    assert (Halfway(points, k) + tail)[Offset(points, k)..] == Halfway(points, k)[Offset(points, k)..] + tail;
    if k < |points| {
      assert points[k..][0] == points[k];
      DecodeEncode(points[k], EncodeAll(points[k..][1..]) + tail);
      assert EncodeAll(points[k..]) + tail == Encode(points[k]) + (EncodeAll(points[k..][1..]) + tail);
    } else {
      assert EncodeAll(points[k..]) + tail == tail;
    }
  }

  // ---------------------------------------------------------------- scanning for a run

  /**
   The scan that began at position `k` has come to `j`; the `size` letters before are all that matters of what it saw.
   */
  predicate Scanning(points: seq<Scalar>, others: nat -> bool, complete: bool, k: nat, start: nat, size: nat, j: nat) {
    && start + size == j <= |points|
    && (forall i | start <= i < j :: IsLetter(points[i], others))
    && LongRuns(points, others, k, complete) == LongRuns(points, others, start, complete)
  }

  lemma {:induction false} RunEndAfter(points: seq<Scalar>, others: nat -> bool, start: nat, j: nat)
    requires start <= j <= |points| && forall i | start <= i < j :: IsLetter(points[i], others)
    ensures RunEnd(points, others, start) == RunEnd(points, others, j)
    decreases j - start
  {
    if start < j {
      RunEndAfter(points, others, start + 1, j);
    }
  }

  /** At a separator: a long run has been found, or what has been seen can be forgotten. */
  lemma AtSeparator(points: seq<Scalar>, others: nat -> bool, complete: bool, k: nat, start: nat, size: nat, j: nat)
    requires Scanning(points, others, complete, k, start, size, j) && j < |points| && !IsLetter(points[j], others)
    ensures LongRuns(points, others, k, complete) ==
            (if size > 2 then [Run(start, j)] else []) + LongRuns(points, others, j + 1, complete)
    ensures size <= 2 ==> Scanning(points, others, complete, k, j + 1, 0, j + 1)
  {
    hide IsLetter;
    RunEndAfter(points, others, start, j);
  }

  lemma AtEnd(points: seq<Scalar>, others: nat -> bool, complete: bool, k: nat, start: nat, size: nat)
    requires Scanning(points, others, complete, k, start, size, |points|)
    ensures LongRuns(points, others, k, complete) == if size > 2 && complete then [Run(start, |points|)] else []
    ensures LongRuns(points, others, |points|, complete) == []
  {
    hide IsLetter;
    RunEndAfter(points, others, start, |points|);
    assert LongRuns(points, others, |points| + 1, complete) == [];
  }

  // ---------------------------------------------------------------- the iterator

  /** Writes an encoded code point over the bytes from a position on. */
  method Append(text: array<Byte>, at: nat, cp: Scalar)
    requires at + Width(cp) <= text.Length
    modifies text
    ensures text[..] == old(text[..])[..at] + Encode(cp) + old(text[..])[at + Width(cp)..]
  {
    hide Encode;
    var bytes := Encode(cp);
    for i := 0 to |bytes|
      invariant text[..] == old(text[..])[..at] + bytes[..i] + old(text[..])[at + i..]
    {
      text[at + i] := bytes[i];
    }
    assert bytes[..|bytes|] == bytes;
  }

  /** The cursor is at the end of the text just when all code points are read and nothing malformed is left. */
  lemma CursorAtEnd(points: seq<Scalar>, k: nat, tail: seq<Byte>)
    requires k <= |points|
    ensures Offset(points, k) <= |Halfway(points, k)|
    ensures Offset(points, k) == |Halfway(points, k) + tail| <==> k == |points| && tail == []
  {
    hide Halfway, Offset;
    HalfwaySplits(points, k);
    OffsetGrows(points, k, |points|);
  }

  /** Overwriting a stretch of the first part of two leaves the second as it was. */
  lemma OverwriteFirst(first: seq<Byte>, tail: seq<Byte>, at: nat, bytes: seq<Byte>)
    requires at + |bytes| <= |first|
    ensures (first + tail)[..at] + bytes + (first + tail)[at + |bytes|..]
        == first[..at] + bytes + first[at + |bytes|..] + tail
  {}

  datatype Result = Token(span: Span) | NoToken | Invalid

  class DestructiveTokenIterator {
    const text: array<Byte>
    const others: nat -> bool
    var inputIter: nat
    var outputIter: nat
    ghost const points: seq<Scalar>  // the code points the text had at first
    ghost const tail: seq<Byte>  // what followed them from the first malformed byte on
    ghost var read: nat  // how many code points have been read

    /** Both cursors are at the same place; before it the text is normalised, after it as it was. */
    ghost predicate Valid()
      reads this, text
    {
      && read <= |points| && Decode(tail).Malformed?
      && inputIter == outputIter == Offset(points, read)
      && text[..] == Halfway(points, read) + tail
    }

    constructor (text: array<Byte>, others: nat -> bool)
      ensures Valid() && this.text == text && this.others == others
      ensures points == Points(text[..]) && tail == Rest(text[..]) && read == 0
    {
      hide Decode, Encode, Points, Rest;
      this.text, this.others := text, others;
      inputIter, outputIter := 0, 0;
      points, tail, read := Points(text[..]), Rest(text[..]), 0;
      PointsAndRest(text[..]);
    }

    /** One turn of the loop: reads a code point, writes it back normalised, and tells whether it is a letter. */
    method Advance() returns (ok: bool, letter: bool)
      requires Valid() && inputIter != text.Length
      modifies this, text
      ensures Valid() && (ok <==> old(read) < |points|)
      ensures ok ==> read == old(read) + 1 && letter == IsLetter(points[old(read)], others)
      ensures !ok ==> read == old(read) && tail != []
    {
      hide Halfway, Decode, Encode, Offset;
      DecodeAt(points, read, tail);
      CursorAtEnd(points, read, tail);
      var d := Decode(text[..][inputIter..]);
      if d.Malformed? {
        return false, false;
      }
      HalfwayStep(points, read);
      OffsetNext(points, read);
      NormalizeKeeps(d.cp, others);
      inputIter := inputIter + d.width;
      var block := BlockOf(d.cp);
      var cp: Scalar := NormalizeIn(d.cp, block);
      ok, letter := true, IsLetterIn(cp, block, others);
      OverwriteFirst(Halfway(points, read), tail, outputIter, Encode(cp));
      Append(text, outputIter, cp);
      outputIter := outputIter + Width(cp);
      read := read + 1;
    }

    method Next() returns (r: Result)
      requires Valid()
      modifies this, text
      ensures Valid() && read >= old(read) && (r.Token? ==> read > old(read))
      ensures var complete := tail == [];
        var runs := LongRuns(points, others, old(read), complete);
        if runs == [] then
          r == (if complete then NoToken else Invalid) && read == |points|
              && LongRuns(points, others, read, complete) == []
        else
          && runs[0].start <= runs[0].stop <= |points|
          && r == Token(Reported(points, runs[0], complete))
          && LongRuns(points, others, read, complete) == runs[1..]
    {
      hide Halfway, Decode, Encode, LongRuns, IsLetter, Offset;
      ghost var complete, k, start: nat := tail == [], read, read;
      CursorAtEnd(points, read, tail);
      if inputIter != text.Length {
        var currentSize := 0;
        var currentStart := inputIter;
        while inputIter != text.Length
          invariant Valid() && k <= start <= |points| && k <= read && currentStart == Offset(points, start)
          invariant Scanning(points, others, complete, k, start, currentSize, read)
          decreases |points| - read
        {
          ghost var j := read;
          var ok, letter := Advance();
          if !ok {
            AtEnd(points, others, complete, k, start, currentSize);
            return Invalid;
          }
          if letter {
            currentSize := currentSize + 1;
          } else {
            AtSeparator(points, others, complete, k, start, currentSize, j);
            if currentSize > 2 {
              var end := inputIter;
              OffsetNext(points, j);
              CursorAtEnd(points, read, tail);
              if inputIter != text.Length {
                end := end - 1;
              }
              return Token(Span(currentStart, end));
            }
            currentSize := 0;
            currentStart, start := inputIter, read;
          }
        }
        CursorAtEnd(points, read, tail);
        AtEnd(points, others, complete, k, start, currentSize);
        if currentSize > 2 {
          return Token(Span(currentStart, inputIter));
        }
      } else {
        AtEnd(points, others, complete, k, start, 0);
      }
      return NoToken;
    }
  }

  // ---------------------------------------------------------------- a whole text

  /** The loop of the iterator's user: the spans of a text, up to its end or its first malformed byte. */
  method Tokens(text: array<Byte>, others: nat -> bool) returns (spans: seq<Span>, valid: bool)
    modifies text
    ensures valid <==> Rest(old(text[..])) == []
    ensures var points := Points(old(text[..]));
      && InOrder(LongRuns(points, others, 0, valid), 0, |points|)
      && spans == Spans(points, LongRuns(points, others, 0, valid), valid)
      && text[..] == EncodeAll(NormalizeAll(points)) + Rest(old(text[..]))
  {
    hide Points, Rest, LongRuns, Reported, Encode, Decode, Normalize;
    var it := new DestructiveTokenIterator(text, others);
    ghost var complete := it.tail == [];
    ghost var runs := LongRuns(it.points, others, 0, complete);
    LongRunsInOrder(it.points, others, 0, complete);
    spans, valid := [], false;
    var more := true;
    while more
      invariant it.Valid() && it.text == text && it.others == others && fresh(it)
      invariant it.points == Points(old(text[..])) && it.tail == Rest(old(text[..]))
      invariant |spans| <= |runs| && spans == Spans(it.points, runs, complete)[..|spans|]
      invariant LongRuns(it.points, others, it.read, complete) == runs[|spans|..]
      invariant !more ==> runs[|spans|..] == [] && it.read == |it.points| && valid == complete
      decreases more, |it.points| - it.read
    {
      var r := it.Next();
      match r {
        case Token(span) => spans := spans + [span];
        case NoToken => more, valid := false, true;
        case Invalid => more, valid := false, false;
      }
    }
    WholeText(it.points);
  }

  lemma WholeText(points: seq<Scalar>)
    ensures Halfway(points, |points|) == EncodeAll(NormalizeAll(points))
  {
    assert points[..|points|] == points && EncodeAll(points[|points|..]) == [];
  }

  lemma SameLetters(points: seq<Scalar>, others: nat -> bool, i: nat)
    requires i < |points|
    ensures IsLetter(NormalizeAll(points)[i], others) == IsLetter(points[i], others)
  {
    NormalizeKeeps(points[i], others);
  }

  lemma {:induction false} SameRunEnd(points: seq<Scalar>, others: nat -> bool, k: nat)
    requires k <= |points|
    ensures RunEnd(NormalizeAll(points), others, k) == RunEnd(points, others, k)
    decreases |points| - k
  {
    hide IsLetter, Normalize;
    if k < |points| {
      SameLetters(points, others, k);
      SameRunEnd(points, others, k + 1);
    }
  }

  lemma {:induction false} SameRuns(points: seq<Scalar>, others: nat -> bool, k: nat, complete: bool)
    ensures LongRuns(NormalizeAll(points), others, k, complete) == LongRuns(points, others, k, complete)
    decreases |points| - k
  {
    hide IsLetter, Normalize;
    if k < |points| {
      SameRunEnd(points, others, k);
      SameRuns(points, others, RunEnd(points, others, k) + 1, complete);
    }
  }

  lemma SameOffset(points: seq<Scalar>, k: nat)
    requires k <= |points|
    ensures Offset(NormalizeAll(points), k) == Offset(points, k)
  {
    EncodedLengthKept(points[..k]);
    assert NormalizeAll(points)[..k] == NormalizeAll(points[..k]);
  }

  lemma SameSpan(points: seq<Scalar>, run: Run, complete: bool)
    requires run.start <= run.stop <= |points|
    ensures Reported(NormalizeAll(points), run, complete) == Reported(points, run, complete)
  {
    hide Offset, NormalizePoint;
    SameOffset(points, run.start);
    SameOffset(points, run.stop);
    if run.stop < |points| {
      SameOffset(points, run.stop + 1);
    }
  }

  /** A second pass over a rewritten text changes nothing and reports the same spans. */
  lemma SecondPass(bytes: seq<Byte>, others: nat -> bool)
    requires Rest(bytes) == []
    ensures var points := Points(bytes);
      var again, runs := EncodeAll(NormalizeAll(points)), LongRuns(points, others, 0, true);
      && Rest(again) == [] && EncodeAll(NormalizeAll(Points(again))) == again
      && LongRuns(Points(again), others, 0, true) == runs
      && InOrder(runs, 0, |points|) && |Points(again)| == |points|
      && Spans(Points(again), runs, true) == Spans(points, runs, true)
  {
    hide Rest, Points, Encode, LongRuns, Reported, Normalize;
    var points := Points(bytes);
    var normal, runs := NormalizeAll(points), LongRuns(points, others, 0, true);
    PointsOfEncoded(normal);
    NormalizeAllTwice(points);
    SameRuns(points, others, 0, true);
    LongRunsInOrder(points, others, 0, true);
    forall i | 0 <= i < |runs| ensures Reported(normal, runs[i], true) == Reported(points, runs[i], true) {
      SameSpan(points, runs[i], true);
    }
  }

  /**
   Two texts that differ in the case of letters only come out as the same text, with the same tokens, so a word is
   counted as one however it is written.
   */
  lemma CaseDoesNotMatter(a: seq<Scalar>, b: seq<Scalar>, others: nat -> bool, complete: bool)
    requires SameButCase(a, b)
    ensures var runs := LongRuns(a, others, 0, complete);
      && EncodeAll(NormalizeAll(a)) == EncodeAll(NormalizeAll(b))
      && LongRuns(b, others, 0, complete) == runs && InOrder(runs, 0, |a|) && |a| == |b|
      && Spans(a, runs, complete) == Spans(b, runs, complete)
  {
    hide LongRuns, Reported, Normalize, SameButCase;
    NormalizedAlikeIff(a, b);
    var normal, runs := NormalizeAll(a), LongRuns(a, others, 0, complete);
    SameRuns(a, others, 0, complete);
    SameRuns(b, others, 0, complete);
    LongRunsInOrder(a, others, 0, complete);
    forall i | 0 <= i < |runs| ensures Reported(a, runs[i], complete) == Reported(b, runs[i], complete) {
      SameSpan(a, runs[i], complete);
      SameSpan(b, runs[i], complete);
    }
  }

  /** The reported end, in every case: exact, inside the separator, or behind a separator that ends the text. */
  lemma EndOf(points: seq<Scalar>, run: Run, complete: bool)
    requires run.start <= run.stop <= |points|
    ensures var end, exact := Reported(points, run, complete).end, Offset(points, run.stop);
      end == if run.stop == |points| then exact
             else if run.stop + 1 == |points| && complete then exact + Width(points[run.stop])
             else exact + Width(points[run.stop]) - 1
  {
    if run.stop < |points| {
      OffsetNext(points, run.stop);
    }
  }
}

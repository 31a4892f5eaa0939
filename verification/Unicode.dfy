/**
 Code points and their encoding in UTF-8 (section 3 of RFC 3629), and the normalisation and letter test of the
 tokenizer.  Only the Latin blocks are normalised; beyond them a predicate says which code points are letters.
 */
module Unicode {

  type Byte = b: int | 0 <= b < 256

  /** A code point that UTF-8 can encode: not a surrogate and not beyond the last one. */
  predicate IsScalar(cp: nat) {
    cp < 0xD800 || 0xE000 <= cp < 0x110000
  }

  type Scalar = cp: nat | IsScalar(cp)

  // ---------------------------------------------------------------- encoding

  function Width(cp: nat): nat {
    if cp < 0x80 then 1 else if cp < 0x800 then 2 else if cp < 0x10000 then 3 else 4
  }

  function Encode(cp: Scalar): (bytes: seq<Byte>)
    ensures |bytes| == Width(cp)
  {
    if cp < 0x80 then [cp]
    else if cp < 0x800 then [0xC0 + cp / 64, 0x80 + cp % 64]
    else if cp < 0x10000 then [0xE0 + cp / 4096, 0x80 + cp / 64 % 64, 0x80 + cp % 64]
    else
      assert IsScalar(cp);
      [0xF0 + cp / 262144, 0x80 + cp / 4096 % 64, 0x80 + cp / 64 % 64, 0x80 + cp % 64]
  }

  datatype Decoded = Malformed | Point(cp: Scalar, width: nat)

  predicate IsContinuation(b: Byte) {
    0x80 <= b < 0xC0
  }

  predicate Continue(bytes: seq<Byte>, count: nat) {
    count < |bytes| && forall i | 1 <= i <= count :: IsContinuation(bytes[i])
  }

  /** The point decoded, unless it is no scalar or has a shorter encoding. */
  function Checked(cp: nat, width: nat): Decoded {
    if IsScalar(cp) && Width(cp) == width then Point(cp, width) else Malformed
  }

  /** What a byte adds to the code point, over its marker bits. */
  function Payload(b: Byte, marker: int): int {
    b - marker
  }

  function Decode2(b0: Byte, b1: Byte): int {
    Payload(b0, 0xC0) * 64 + Payload(b1, 0x80)
  }

  function Decode3(b0: Byte, b1: Byte, b2: Byte): int {
    Payload(b0, 0xE0) * 4096 + Payload(b1, 0x80) * 64 + Payload(b2, 0x80)
  }

  function Decode4(b0: Byte, b1: Byte, b2: Byte, b3: Byte): int {
    Payload(b0, 0xF0) * 262144 + Payload(b1, 0x80) * 4096 + Payload(b2, 0x80) * 64 + Payload(b3, 0x80)
  }

  /** The first code point of some bytes. */
  function Decode(bytes: seq<Byte>): Decoded {
    if bytes == [] then Malformed
    else if bytes[0] < 0x80 then Point(bytes[0], 1)
    else if 0xC0 <= bytes[0] < 0xE0 && Continue(bytes, 1) then
      Checked(Decode2(bytes[0], bytes[1]), 2)
    else if 0xE0 <= bytes[0] < 0xF0 && Continue(bytes, 2) then
      Checked(Decode3(bytes[0], bytes[1], bytes[2]), 3)
    else if 0xF0 <= bytes[0] < 0xF8 && Continue(bytes, 3) then
      Checked(Decode4(bytes[0], bytes[1], bytes[2], bytes[3]), 4)
    else Malformed
  }

  lemma Digits(cp: nat)
    ensures cp / 64 / 64 == cp / 4096 && cp / 4096 / 64 == cp / 262144
    ensures cp == cp / 64 * 64 + cp % 64
    ensures cp / 64 == cp / 4096 * 64 + cp / 64 % 64
    ensures cp / 4096 == cp / 262144 * 64 + cp / 4096 % 64
  {}

  lemma Splits2(x: nat, y: nat)
    requires y < 64
    ensures (x * 64 + y) / 64 == x && (x * 64 + y) % 64 == y
  {}

  /** Two, three or four bytes with the right markers are the encoding of what they decode to. */
  lemma EncodeDigits(b0: Byte, b1: Byte, b2: Byte, b3: Byte)
    requires IsContinuation(b1) && IsContinuation(b2) && IsContinuation(b3)
    ensures 0xC0 <= b0 < 0xE0 ==> var cp := Decode2(b0, b1); cp >= 0 && b0 == 0xC0 + cp / 64 && b1 == 0x80 + cp % 64
    ensures 0xE0 <= b0 < 0xF0 ==>
              var cp := Decode3(b0, b1, b2);
                  cp >= 0 && b0 == 0xE0 + cp / 4096 && b1 == 0x80 + cp / 64 % 64 && b2 == 0x80 + cp % 64
    ensures 0xF0 <= b0 < 0xF8 ==>
              var cp := Decode4(b0, b1, b2, b3);
              cp >= 0 && b0 == 0xF0 + cp / 262144 && b1 == 0x80 + cp / 4096 % 64 && b2 == 0x80 + cp / 64 % 64
                  && b3 == 0x80 + cp % 64
  {
    if 0xC0 <= b0 < 0xE0 {
      Splits2(b0 - 0xC0, b1 - 0x80);
    } else if 0xE0 <= b0 < 0xF0 {
      var x := (b0 - 0xE0) * 64 + (b1 - 0x80);
      Splits2(b0 - 0xE0, b1 - 0x80);
      Splits2(x, b2 - 0x80);
      Digits(Decode3(b0, b1, b2));
    } else if 0xF0 <= b0 < 0xF8 {
      var x := (b0 - 0xF0) * 64 + (b1 - 0x80);
      Splits2(b0 - 0xF0, b1 - 0x80);
      Splits2(x, b2 - 0x80);
      Splits2(x * 64 + (b2 - 0x80), b3 - 0x80);
      Digits(Decode4(b0, b1, b2, b3));
    }
  }

  lemma DecodeDigits(cp: Scalar)
    ensures 0x80 <= cp < 0x800 ==> Decode2(0xC0 + cp / 64, 0x80 + cp % 64) == cp
    ensures 0x800 <= cp < 0x10000 ==> Decode3(0xE0 + cp / 4096, 0x80 + cp / 64 % 64, 0x80 + cp % 64) == cp
    ensures 0x10000 <= cp < 0x110000 ==>
              Decode4(0xF0 + cp / 262144, 0x80 + cp / 4096 % 64, 0x80 + cp / 64 % 64, 0x80 + cp % 64) == cp
  {
    assert IsScalar(cp);
    Digits(cp);
  }

  /** What is encoded is decoded, whatever follows. */
  lemma DecodeEncode(cp: Scalar, rest: seq<Byte>)
    ensures Decode(Encode(cp) + rest) == Point(cp, Width(cp))
  {
    hide Decode2, Decode3, Decode4;
    DecodeDigits(cp);
    assert IsScalar(cp);
    var bytes := Encode(cp) + rest;
    assert forall i | 0 <= i < Width(cp) :: bytes[i] == Encode(cp)[i];
    assert cp < 0x80 || Continue(bytes, Width(cp) - 1);
  }

  /** What is decoded was encoded: decoding fails exactly where no encoding begins. */
  lemma DecodeSound(bytes: seq<Byte>)
    requires Decode(bytes).Point?
    ensures var d := Decode(bytes); d.width == Width(d.cp) <= |bytes| && bytes[..d.width] == Encode(d.cp)
  {
    hide Decode2, Decode3, Decode4;
    var b1, b2, b3: Byte := 0x80, 0x80, 0x80;
    if bytes[0] >= 0xC0 {
      b1 := bytes[1];
    }
    if bytes[0] >= 0xE0 {
      b2 := bytes[2];
    }
    if bytes[0] >= 0xF0 {
      b3 := bytes[3];
    }
    EncodeDigits(bytes[0], b1, b2, b3);
  }

  function EncodeAll(points: seq<Scalar>): seq<Byte> {
    if points == [] then [] else Encode(points[0]) + EncodeAll(points[1..])
  }

  lemma {:induction false} EncodeAllConcat(a: seq<Scalar>, b: seq<Scalar>)
    ensures EncodeAll(a + b) == EncodeAll(a) + EncodeAll(b)
    decreases |a|
  {
    hide Encode;
    if a == [] {
      assert a + b == b;
    } else {
      assert (a + b)[1..] == a[1..] + b;
      EncodeAllConcat(a[1..], b);
    }
  }

  /** The code points of a text up to its end or its first malformed byte, and what is left there. */
  function Points(bytes: seq<Byte>): (points: seq<Scalar>)
    decreases |bytes|
  {
    var d := Decode(bytes);
    if d.Malformed? then []
    else
      DecodeSound(bytes);
      [d.cp] + Points(bytes[d.width..])
  }

  function Rest(bytes: seq<Byte>): (rest: seq<Byte>)
    ensures Decode(rest).Malformed?
    decreases |bytes|
  {
    var d := Decode(bytes);
    if d.Malformed? then bytes
    else
      DecodeSound(bytes);
      Rest(bytes[d.width..])
  }

  lemma {:induction false} PointsAndRest(bytes: seq<Byte>)
    ensures bytes == EncodeAll(Points(bytes)) + Rest(bytes)
    decreases |bytes|
  {
    hide Decode, Encode;
    var d := Decode(bytes);
    if d.Point? {
      DecodeSound(bytes);
      PointsAndRest(bytes[d.width..]);
      assert bytes == bytes[..d.width] + bytes[d.width..];
    }
  }

  /** Text that is the encoding of some code points is decoded to them, with nothing left. */
  lemma {:induction false} PointsOfEncoded(points: seq<Scalar>)
    ensures Points(EncodeAll(points)) == points && Rest(EncodeAll(points)) == []
    decreases |points|
  {
    hide Decode, Encode;
    if points == [] {
      NothingToDecode();
    } else {
      DecodeEncode(points[0], EncodeAll(points[1..]));
      PointsOfEncoded(points[1..]);
      var bytes := EncodeAll(points);
      assert bytes[Width(points[0])..] == EncodeAll(points[1..]);
    }
  }

  lemma NothingToDecode()
    ensures Decode([]) == Malformed
  {}

  // ---------------------------------------------------------------- normalisation

  datatype Block = BasicLatin | Latin1Supplement | LatinExtendedA | LatinExtendedB | Other

  function BlockOf(cp: nat): Block {
    if cp <= 127 then BasicLatin
    else if cp < 256 then Latin1Supplement
    else if cp <= 383 then LatinExtendedA
    else if cp < 592 then LatinExtendedB
    else Other
  }

  function NormalizeIn(cp: nat, block: Block): nat {
    match block
    case BasicLatin => if 65 <= cp <= 90 then cp + 32 else cp
    case Latin1Supplement => if 192 <= cp <= 214 || 216 <= cp <= 221 then cp + 32 else cp
    case LatinExtendedA => if cp == 383 then cp else if cp < 311 && cp % 2 == 0 then cp + 1 else cp
    case _ => cp
  }

  function Normalize(cp: nat): nat {
    NormalizeIn(cp, BlockOf(cp))
  }

  /** The letter test of a code point in its block; beyond the Latin blocks `others` decides. */
  predicate IsLetterIn(cp: nat, block: Block, others: nat -> bool) {
    match block
    case BasicLatin => !(cp <= 64) && !(90 < cp <= 96) && !(cp > 122)
    case Latin1Supplement => !(cp <= 191) && cp != 215 && cp != 247
    case LatinExtendedA => true
    case LatinExtendedB => true
    case Other => others(cp)
  }

  /**
   What the tokenizer asks: whether the normalised code point is a letter of the block of the code point before
   normalisation.
   */
  predicate IsLetter(cp: nat, others: nat -> bool) {
    IsLetterIn(Normalize(cp), BlockOf(cp), others)
  }

  /** Normalisation keeps block, encoded length and letters, and does nothing more the second time. */
  lemma NormalizeKeeps(cp: Scalar, others: nat -> bool)
    ensures IsScalar(Normalize(cp)) && Width(Normalize(cp)) == Width(cp)
    ensures BlockOf(Normalize(cp)) == BlockOf(cp)
    ensures Normalize(Normalize(cp)) == Normalize(cp)
    ensures IsLetter(Normalize(cp), others) == IsLetter(cp, others) == IsLetterIn(cp, BlockOf(cp), others)
  {}

  function NormalizeAll(points: seq<Scalar>): (result: seq<Scalar>)
    ensures |result| == |points|
  {
    seq(|points|, i requires 0 <= i < |points| => NormalizePoint(points[i]))
  }

  function NormalizePoint(cp: Scalar): Scalar {
    NormalizeKeeps(cp, p => true);
    Normalize(cp)
  }

  /** The length of an encoded text does not depend on whether it is normalised. */
  lemma {:induction false} EncodedLengthKept(points: seq<Scalar>)
    ensures |EncodeAll(NormalizeAll(points))| == |EncodeAll(points)|
    decreases |points|
  {
    hide Encode, Normalize;
    if points != [] {
      NormalizeKeeps(points[0], p => true);
      EncodedLengthKept(points[1..]);
      assert NormalizeAll(points)[1..] == NormalizeAll(points[1..]);
    }
  }

  lemma NormalizeAllTwice(points: seq<Scalar>)
    ensures NormalizeAll(NormalizeAll(points)) == NormalizeAll(points)
  {
    forall i | 0 <= i < |points| ensures Normalize(Normalize(points[i])) == Normalize(points[i]) {
      NormalizeKeeps(points[i], p => true);
    }
  }

  // ---------------------------------------------------------------- what normalisation is for

  /** The capital letters of the normalised blocks: A to Z, the accented ones, and the even ones of Latin Extended-A. */
  predicate IsCapital(cp: nat) {
    65 <= cp <= 90 || 192 <= cp <= 214 || 216 <= cp <= 221 || (256 <= cp < 311 && cp % 2 == 0)
  }

  /** A capital letter goes to its small letter, and every other code point stays as it is. */
  lemma CapitalsGoSmall(cp: Scalar)
    ensures 65 <= cp <= 90 || 192 <= cp <= 214 || 216 <= cp <= 221 ==> Normalize(cp) == cp + 32
    ensures 256 <= cp < 311 && cp % 2 == 0 ==> Normalize(cp) == cp + 1
    ensures !(65 <= cp <= 90 || 192 <= cp <= 214 || 216 <= cp <= 221 || (256 <= cp < 311 && cp % 2 == 0)) ==>
              Normalize(cp) == cp
  {}

  /** So no capital letter is left in a normalised text, and nothing else has changed. */
  lemma NoCapitalLeft(points: seq<Scalar>, i: nat)
    requires i < |points|
    ensures var cp := NormalizeAll(points)[i];
      && !(65 <= cp <= 90 || 192 <= cp <= 214 || 216 <= cp <= 221 || (256 <= cp < 311 && cp % 2 == 0))
      && (cp == points[i] <==> !IsCapital(points[i]))
      && (IsCapital(points[i]) ==> CasePair(points[i], cp))
  {}

  /** A capital letter and its small letter. */
  predicate CasePair(a: nat, b: nat) {
    || ((65 <= a <= 90 || 192 <= a <= 214 || 216 <= a <= 221) && b == a + 32)
    || (256 <= a < 311 && a % 2 == 0 && b == a + 1)
  }

  predicate SameButCase(a: seq<Scalar>, b: seq<Scalar>) {
    |a| == |b| && forall i | 0 <= i < |a| :: a[i] == b[i] || CasePair(a[i], b[i]) || CasePair(b[i], a[i])
  }

  /** Two texts are normalised to the same one if and only if they differ in the case of letters only. */
  lemma NormalizedAlikeIff(a: seq<Scalar>, b: seq<Scalar>)
    ensures NormalizeAll(a) == NormalizeAll(b) <==> SameButCase(a, b)
  {
    if |a| == |b| {
      forall i | 0 <= i < |a|
        ensures NormalizeAll(a)[i] == NormalizeAll(b)[i] <==>
                a[i] == b[i] || CasePair(a[i], b[i]) || CasePair(b[i], a[i])
      {
        NormalizedPointsAlikeIff(a[i], b[i]);
      }
      if SameButCase(a, b) {
        assert NormalizeAll(a) == NormalizeAll(b);
      }
    }
  }

  lemma NormalizedPointsAlikeIff(a: Scalar, b: Scalar)
    ensures Normalize(a) == Normalize(b) <==> a == b || CasePair(a, b) || CasePair(b, a)
  {
    CapitalsGoSmall(a);
    CapitalsGoSmall(b);
    hide Normalize;
  }

  /** What counts as a letter in the Latin blocks, and that `others` decides beyond them. */
  lemma LatinLetters(cp: nat, others: nat -> bool)
    ensures cp < 128 ==> (IsLetter(cp, others) <==> 65 <= cp <= 90 || 97 <= cp <= 122)
    ensures 128 <= cp < 256 ==> (IsLetter(cp, others) <==> cp >= 192 && cp != 215 && cp != 247)
    ensures 256 <= cp < 592 ==> IsLetter(cp, others)
    ensures cp >= 592 ==> (IsLetter(cp, others) <==> others(cp))
  {}

  /**
   The table of section 3 of RFC 3629, read as the value of the bytes: the lead byte tells the length, each byte after
   it carries six bits, and the range of the code point is that of its length.
   */
  lemma EncodesAsInRfc3629(cp: Scalar)
    ensures var b: seq<int> := Encode(cp);
      && (cp <= 0x7F ==> b == [cp])
      && (0x80 <= cp <= 0x7FF ==>
            && |b| == 2 && 0xC0 <= b[0] < 0xE0 && 0x80 <= b[1] < 0xC0
            && cp == (b[0] - 0xC0) * 64 + (b[1] - 0x80))
      && (0x800 <= cp <= 0xFFFF ==>
            && |b| == 3 && 0xE0 <= b[0] < 0xF0 && 0x80 <= b[1] < 0xC0 && 0x80 <= b[2] < 0xC0
            && cp == (b[0] - 0xE0) * 4096 + (b[1] - 0x80) * 64 + (b[2] - 0x80))
      && (0x10000 <= cp ==>
            && |b| == 4 && 0xF0 <= b[0] < 0xF8 && 0x80 <= b[1] < 0xC0 && 0x80 <= b[2] < 0xC0 && 0x80 <= b[3] < 0xC0
            && cp == (b[0] - 0xF0) * 262144 + (b[1] - 0x80) * 4096 + (b[2] - 0x80) * 64 + (b[3] - 0x80))
    ensures !(0xD800 <= cp < 0xE000) && cp <= 0x10FFFF
  {
    assert IsScalar(cp);
    Digits(cp);
  }
}

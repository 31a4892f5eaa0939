/**
 Word scores: the cosine similarity of word vectors, the accumulator that adds documents up to a centroid, and the one
 that turns words into a document's scores.

 Scores are real numbers, and a magnitude is known by its square, so that no root has to be taken.
 */
module Scoring {

  type Vector = map<string, real>

  datatype ScoredWord = ScoredWord(word: string, score: real)

  /** The score of a word, 0 for a word not in the vector. */
  function At(v: Vector, word: string): real {
    if word in v then v[word] else 0.0
  }

  // ---------------------------------------------------------------- sums over words

  /** The sum over a set of words, in any order: see `SumPick`. */
  ghost function Sum(f: string -> real, words: set<string>): real {
    if words == {} then 0.0
    else
      var w :| w in words;
      f(w) + Sum(f, words - {w})
  }

  lemma {:induction false} SumPick(f: string -> real, words: set<string>, w: string)
    requires w in words
    ensures Sum(f, words) == f(w) + Sum(f, words - {w})
    decreases |words|
  {
    var first :| first in words && Sum(f, words) == f(first) + Sum(f, words - {first});
    if first != w {
      SumPick(f, words - {first}, w);
      SumPick(f, words - {w}, first);
      assert words - {first} - {w} == words - {w} - {first};
    }
  }

  lemma {:induction false} SumSame(f: string -> real, g: string -> real, words: set<string>)
    requires forall w <- words :: f(w) == g(w)
    ensures Sum(f, words) == Sum(g, words)
    decreases |words|
  {
    if w :| w in words {
      SumPick(f, words, w);
      SumPick(g, words, w);
      SumSame(f, g, words - {w});
    }
  }

  /** Words whose term is 0 do not matter. */
  lemma {:induction false} SumExtends(f: string -> real, words: set<string>, more: set<string>)
    requires words <= more && forall w <- more - words :: f(w) == 0.0
    ensures Sum(f, more) == Sum(f, words)
    decreases |more - words|
  {
    if w :| w in more - words {
      SumPick(f, more, w);
      assert more - {w} - words == (more - words) - {w};
      SumExtends(f, words, more - {w});
    } else {
      assert forall w <- more :: w in words;
      assert more == words;
    }
  }

  lemma {:induction false} SumNonNegative(f: string -> real, words: set<string>)
    requires forall w <- words :: f(w) >= 0.0
    ensures Sum(f, words) >= 0.0
    ensures Sum(f, words) == 0.0 <==> forall w <- words :: f(w) == 0.0
    decreases |words|
  {
    if w :| w in words {
      SumPick(f, words, w);
      SumNonNegative(f, words - {w});
    }
  }

  // ---------------------------------------------------------------- dot products

  /** Multiplication, by a name that can be hidden. */
  function Times(x: real, y: real): real {
    x * y
  }

  function Term(v: Vector, w: Vector): string -> real {
    word => Times(At(v, word), At(w, word))
  }

  ghost function Dot(v: Vector, w: Vector): real {
    Sum(Term(v, w), v.Keys + w.Keys)
  }

  ghost function Square(v: Vector): real {
    Dot(v, v)
  }

  lemma DotOverEither(v: Vector, w: Vector)
    ensures Dot(v, w) == Sum(Term(v, w), v.Keys) == Sum(Term(v, w), w.Keys)
  {
    SumExtends(Term(v, w), v.Keys, v.Keys + w.Keys);
    SumExtends(Term(v, w), w.Keys, v.Keys + w.Keys);
  }

  lemma DotSymmetric(v: Vector, w: Vector)
    ensures Dot(v, w) == Dot(w, v)
  {
    SumSame(Term(v, w), Term(w, v), v.Keys + w.Keys);
    assert v.Keys + w.Keys == w.Keys + v.Keys;
  }

  lemma SquareGrows(x: real, y: real)
    requires x > y >= 0.0
    ensures x * x > y * y
  {
    ProductPositive(x - y, x + y);
    assert x * x - y * y == (x - y) * (x + y);
  }

  lemma ProductPositive(x: real, y: real)
    requires x > 0.0 && y > 0.0
    ensures x * y > 0.0
  {}

  lemma SquareMonotone(x: real, y: real)
    requires y >= 0.0 && x * x <= y * y
    ensures x <= y
  {
    if x > y {
      SquareGrows(x, y);
    }
  }

  lemma ProductNonNegative(x: real, y: real)
    requires (x >= 0.0 && y >= 0.0) || x == y
    ensures x * y >= 0.0
  {}

  /** `d` may be the dot product of vectors whose squares are `a` and `b`. */
  predicate Bounded(d: real, a: real, b: real) {
    a >= 0.0 && b >= 0.0 && d * d <= a * b
  }

  /** One more coordinate in the inequality of Cauchy and Schwarz. */
  lemma BoundedStep(d: real, a: real, b: real, x: real, y: real)
    requires Bounded(d, a, b)
    ensures Bounded(Times(x, y) + d, Times(x, x) + a, Times(y, y) + b)
  {
    ProductNonNegative(x, x);
    ProductNonNegative(y, y);
    ProductNonNegative(a, y * y);
    ProductNonNegative(b, x * x);
    CrossTerm(d, a, b, x, y);
  }

  lemma CrossTerm(d: real, a: real, b: real, x: real, y: real)
    requires a >= 0.0 && b >= 0.0 && d * d <= a * b
    requires a * (y * y) >= 0.0 && b * (x * x) >= 0.0
    ensures 2.0 * (d * (x * y)) <= a * (y * y) + b * (x * x)
  {
    var p, q, r := a * (y * y), b * (x * x), x * y;
    ProductNonNegative(r, r);
    ProductNonNegative(r * r, a * b - d * d);
    ProductNonNegative(p - q, p - q);
    assert (d * r) * (d * r) == (r * r) * (d * d);
    assert p * q == (r * r) * (a * b);
    assert (r * r) * (a * b - d * d) == (r * r) * (a * b) - (r * r) * (d * d);
    assert (p + q) * (p + q) == 4.0 * (p * q) + (p - q) * (p - q);
    SquareMonotone(2.0 * (d * r), p + q);
  }

  lemma SumOfNone(f: string -> real)
    ensures Sum(f, {}) == 0.0
  {}

  lemma BoundedWith(v: Vector, w: Vector, words: set<string>, word: string)
    requires word in words
    requires Bounded(Sum(Term(v, w), words - {word}), Sum(Term(v, v), words - {word}), Sum(Term(w, w), words - {word}))
    ensures Bounded(Sum(Term(v, w), words), Sum(Term(v, v), words), Sum(Term(w, w), words))
  {
    hide Bounded, Times, Sum, At;
    var rest := words - {word};
    SumPick(Term(v, w), words, word);
    SumPick(Term(v, v), words, word);
    SumPick(Term(w, w), words, word);
    BoundedStep(Sum(Term(v, w), rest), Sum(Term(v, v), rest), Sum(Term(w, w), rest), At(v, word), At(w, word));
  }

  lemma {:induction false} CauchySchwarzOver(v: Vector, w: Vector, words: set<string>)
    ensures Bounded(Sum(Term(v, w), words), Sum(Term(v, v), words), Sum(Term(w, w), words))
    decreases |words|
  {
    hide Bounded, Sum, Term;
    if words == {} {
      SumOfNone(Term(v, w));
      SumOfNone(Term(v, v));
      SumOfNone(Term(w, w));
      NoneBounded();
    } else {
      var word :| word in words;
      CauchySchwarzOver(v, w, words - {word});
      BoundedWith(v, w, words, word);
    }
  }

  lemma NoneBounded()
    ensures Bounded(0.0, 0.0, 0.0)
  {}

  lemma SquareOver(v: Vector, words: set<string>)
    requires v.Keys <= words
    ensures Sum(Term(v, v), words) == Square(v)
  {
    SumExtends(Term(v, v), v.Keys, words);
    assert v.Keys + v.Keys == v.Keys;
  }

  lemma CauchySchwarz(v: Vector, w: Vector)
    ensures Dot(v, w) * Dot(v, w) <= Square(v) * Square(w)
  {
    var words := v.Keys + w.Keys;
    CauchySchwarzOver(v, w, words);
    SquareOver(v, words);
    SquareOver(w, words);
  }

  // ---------------------------------------------------------------- similarity

  predicate NonNegative(v: Vector) {
    forall w <- v :: v[w] >= 0.0
  }

  /** The magnitude is the root of the sum of squares. */
  ghost predicate Magnitude(m: real, v: Vector) {
    m > 0.0 && m * m == Square(v)
  }

  lemma QuotientBounds(d: real, p: real)
    requires p > 0.0 && -p <= d <= p
    ensures -1.0 <= d / p <= 1.0
    ensures d >= 0.0 <==> d / p >= 0.0
    ensures d == 0.0 <==> d / p == 0.0
  {
    assert p / p == 1.0 && -p / p == -1.0 && 0.0 / p == 0.0;
  }

  lemma DotBounded(v: Vector, w: Vector, m: real, n: real)
    requires Magnitude(m, v) && Magnitude(n, w)
    ensures m * n > 0.0 && -(m * n) <= Dot(v, w) <= m * n
  {
    ProductPositive(m, n);
    CauchySchwarz(v, w);
    var d := Dot(v, w);
    assert (-d) * (-d) == d * d;
    SquareMonotone(d, m * n);
    SquareMonotone(-d, m * n);
  }

  /** Vectors with non-negative scores and no word scored in both. */
  predicate Unrelated(v: Vector, w: Vector) {
    forall word <- v.Keys + w.Keys :: At(v, word) == 0.0 || At(w, word) == 0.0
  }

  lemma DotNonNegative(v: Vector, w: Vector)
    requires NonNegative(v) && NonNegative(w)
    ensures Dot(v, w) >= 0.0 && (Dot(v, w) == 0.0 <==> Unrelated(v, w))
  {
    forall word ensures Term(v, w)(word) >= 0.0
        && (Term(v, w)(word) == 0.0 <==> At(v, word) == 0.0 || At(w, word) == 0.0)
    {
      ProductNonNegative(At(v, word), At(w, word));
      if At(v, word) > 0.0 && At(w, word) > 0.0 {
        ProductPositive(At(v, word), At(w, word));
      }
    }
    SumNonNegative(Term(v, w), v.Keys + w.Keys);
  }

  /** Similarity lies between 0 and 1, is 0 just for vectors that score no word in common, and is 1 of equal vectors. */
  lemma SimilarityInUnit(v: Vector, w: Vector, m: real, n: real)
    requires NonNegative(v) && NonNegative(w) && Magnitude(m, v) && Magnitude(n, w)
    ensures m * n > 0.0 && 0.0 <= Dot(v, w) / (m * n) <= 1.0
    ensures Dot(v, w) / (m * n) == 0.0 <==> Unrelated(v, w)
    ensures v == w ==> Dot(v, w) / (m * n) == 1.0
  {
    DotBounded(v, w, m, n);
    DotNonNegative(v, w);
    hide Dot;
    QuotientBounds(Dot(v, w), m * n);
    if v == w {
      SquareMonotone(m, n);
      SquareMonotone(n, m);
    }
  }

  /** What a division in floating point can give, rounding aside: by zero it gives no number. */
  datatype Double = Number(value: real) | Infinity(positive: bool) | NotANumber

  function Divide(x: real, y: real): Double {
    if y != 0.0 then Number(x / y) else if x == 0.0 then NotANumber else Infinity(x > 0.0)
  }

  /** The magnitude as it is computed: 0 of a vector without a score. */
  ghost predicate Root(m: real, v: Vector) {
    m >= 0.0 && m * m == Square(v)
  }

  ghost predicate Blank(v: Vector) {
    forall word <- v :: v[word] == 0.0
  }

  lemma SquareZeroIffBlank(v: Vector)
    ensures Square(v) == 0.0 <==> Blank(v)
    ensures Square(v) >= 0.0
  {
    hide Sum;
    forall word ensures Term(v, v)(word) >= 0.0 && (Term(v, v)(word) == 0.0 <==> At(v, word) == 0.0) {
      SquareIsZeroIff(At(v, word));
    }
    SumNonNegative(Term(v, v), v.Keys + v.Keys);
  }

  lemma RootZeroIff(m: real, s: real)
    requires m >= 0.0 && m * m == s
    ensures m == 0.0 <==> s == 0.0
  {
    SquareIsZeroIff(m);
  }

  lemma ZeroSquare(d: real)
    requires d * d <= 0.0
    ensures d == 0.0
  {
    SquareIsZeroIff(d);
  }

  /** With true magnitudes a score is a number exactly if neither vector is blank, and it is never infinite. */
  lemma ScoreIsNumberIff(v: Vector, w: Vector, m: real, n: real)
    requires Root(m, v) && Root(n, w)
    ensures Divide(Dot(v, w), Times(m, n)).Number? <==> !Blank(v) && !Blank(w)
    ensures !Divide(Dot(v, w), Times(m, n)).Infinity?
  {
    hide Dot, Square, Blank;
    SquareZeroIffBlank(v);
    SquareZeroIffBlank(w);
    RootZeroIff(m, Square(v));
    RootZeroIff(n, Square(w));
    if m == 0.0 || n == 0.0 {
      CauchySchwarz(v, w);
      ZeroSquare(Dot(v, w));
    } else {
      ProductPositive(m, n);
    }
  }

  lemma TimesAdds(c: real, x: real, y: real)
    ensures Times(c, x + y) == Times(c, x) + Times(c, y) && Times(c, 0.0) == 0.0
  {}

  /** A combination of three sums is the sum of the combinations. */
  lemma {:induction false} SumCombines(f: string -> real, words: set<string>, a: real, g: string -> real, b: real,
      h: string -> real, c: real, k: string -> real)
    requires forall w <- words :: f(w) == Times(a, g(w)) + Times(b, h(w)) + Times(c, k(w))
    ensures Sum(f, words) == Times(a, Sum(g, words)) + Times(b, Sum(h, words)) + Times(c, Sum(k, words))
    decreases |words|
  {
    hide Times, Sum;
    if words == {} {
      SumOfNone(f);
      SumOfNone(g);
      SumOfNone(h);
      SumOfNone(k);
      TimesAdds(a, 0.0, 0.0);
      TimesAdds(b, 0.0, 0.0);
      TimesAdds(c, 0.0, 0.0);
    } else {
      var w :| w in words;
      var rest := words - {w};
      SumCombines(f, rest, a, g, b, h, c, k);
      SumPick(f, words, w);
      SumPick(g, words, w);
      SumPick(h, words, w);
      SumPick(k, words, w);
      TimesAdds(a, g(w), Sum(g, rest));
      TimesAdds(b, h(w), Sum(h, rest));
      TimesAdds(c, k(w), Sum(k, rest));
    }
  }

  /** How far two vectors are, at a word, from pointing the same way. */
  function Gap(v: Vector, w: Vector, m: real, n: real): string -> real {
    word => Times(Times(n, At(v, word)) - Times(m, At(w, word)), Times(n, At(v, word)) - Times(m, At(w, word)))
  }

  lemma GapExpands(x: real, y: real, m: real, n: real)
    ensures Times(Times(n, x) - Times(m, y), Times(n, x) - Times(m, y)) ==
            Times(n * n, Times(x, x)) + Times(-2.0 * (m * n), Times(x, y)) + Times(m * m, Times(y, y))
  {
    var p, q := n * x, m * y;
    assert (p - q) * (p - q) == p * p - 2.0 * (p * q) + q * q;
    assert p * q == (m * n) * (x * y);
  }

  lemma GapSum(v: Vector, w: Vector, m: real, n: real, d: real)
    requires Magnitude(m, v) && Magnitude(n, w) && d == Dot(v, w)
    ensures Sum(Gap(v, w, m, n), v.Keys + w.Keys) == 2.0 * ((m * n) * (m * n - d))
  {
    var words := v.Keys + w.Keys;
    forall word <- words
      ensures Gap(v, w, m, n)(word) == Times(n * n, Term(v, v)(word)) + Times(-2.0 * (m * n), Term(v, w)(word))
                                       + Times(m * m, Term(w, w)(word)) {
      GapExpands(At(v, word), At(w, word), m, n);
    }
    SumCombines(Gap(v, w, m, n), words, n * n, Term(v, v), -2.0 * (m * n), Term(v, w), m * m, Term(w, w));
    SquareOver(v, words);
    SquareOver(w, words);
    hide Sum, Dot, Square;
    GapTotal(m, n, d);
  }

  lemma GapTotal(m: real, n: real, d: real)
    ensures Times(n * n, m * m) + Times(-2.0 * (m * n), d) + Times(m * m, n * n) == 2.0 * ((m * n) * (m * n - d))
  {
    assert (m * n) * (m * n - d) == (m * n) * (m * n) - (m * n) * d;
  }

  /** The vectors are equal up to the ratio of their magnitudes. */
  predicate Proportional(v: Vector, w: Vector, m: real, n: real) {
    forall word <- v.Keys + w.Keys :: Times(n, At(v, word)) == Times(m, At(w, word))
  }

  lemma GapIsZeroIff(v: Vector, w: Vector, m: real, n: real)
    ensures Sum(Gap(v, w, m, n), v.Keys + w.Keys) == 0.0 <==> Proportional(v, w, m, n)
  {
    forall word
      ensures Gap(v, w, m, n)(word) >= 0.0
      ensures Gap(v, w, m, n)(word) == 0.0 <==> Times(n, At(v, word)) == Times(m, At(w, word)) {
      SquareIsZeroIff(Times(n, At(v, word)) - Times(m, At(w, word)));
    }
    hide Times, Sum;
    SumNonNegative(Gap(v, w, m, n), v.Keys + w.Keys);
  }

  lemma SquareIsZeroIff(x: real)
    ensures Times(x, x) >= 0.0 && (Times(x, x) == 0.0 <==> x == 0.0)
  {
    hide Times;
    if x == 0.0 {
      TimesAdds(x, 0.0, 0.0);
    } else {
      SameSignProduct(x, x);
    }
  }

  lemma SameSignProduct(x: real, y: real)
    requires (x > 0.0 && y > 0.0) || (x < 0.0 && y < 0.0)
    ensures Times(x, y) > 0.0
  {}

  /** Similarity is 1 exactly for proportional vectors. */
  lemma FullSimilarity(v: Vector, w: Vector, m: real, n: real)
    requires Magnitude(m, v) && Magnitude(n, w)
    ensures m * n > 0.0 && (Dot(v, w) / (m * n) == 1.0 <==> Proportional(v, w, m, n))
  {
    var d, p, gap := Dot(v, w), m * n, Sum(Gap(v, w, m, n), v.Keys + w.Keys);
    DotBounded(v, w, m, n);
    GapSum(v, w, m, n, d);
    assert gap == 0.0 <==> Proportional(v, w, m, n) by {
      GapIsZeroIff(v, w, m, n);
    }
    hide *;
    FullQuotient(d, p, gap);
  }

  lemma FullQuotient(d: real, p: real, gap: real)
    requires p > 0.0 && d <= p && gap == 2.0 * (p * (p - d))
    ensures d / p == 1.0 <==> gap == 0.0
  {
    assert p / p == 1.0;
    if d < p {
      ProductPositive(p, p - d);
    }
  }

  lemma DivideLaw(x: real, y: real)
    ensures y != 0.0 ==> Divide(x, y).Number? && Divide(x, y).value * y == x
    ensures y == 0.0 && x == 0.0 ==> Divide(x, y) == NotANumber
    ensures y == 0.0 && x != 0.0 ==> Divide(x, y) == Infinity(x > 0.0)
  {
    if y != 0.0 {
      QuotientTimes(x, y);
    }
  }

  lemma QuotientTimes(x: real, y: real)
    requires y != 0.0
    ensures x / y * y == x
  {}

  /** The score is the cosine: what the dot product is of the product of the magnitudes; it does not matter who asks. */
  lemma ScoreIsCosine(v: Vector, w: Vector, m: real, n: real)
    requires Magnitude(m, v) && Magnitude(n, w)
    ensures var score := Divide(Dot(v, w), Times(m, n));
      && score.Number? && score.value * (m * n) == Dot(v, w) && -1.0 <= score.value <= 1.0
      && score == Divide(Dot(w, v), Times(n, m))
  {
    hide Dot, Divide, Times, Magnitude;
    DotBounded(v, w, m, n);
    DotSymmetric(v, w);
    CosineOf(Dot(v, w), m, n);
  }

  lemma CosineOf(d: real, m: real, n: real)
    requires m * n > 0.0 && -(m * n) <= d <= m * n
    ensures var score := Divide(d, Times(m, n));
      && score == Number(d / (m * n)) && score.value * (m * n) == d && -1.0 <= score.value <= 1.0
      && score == Divide(d, Times(n, m))
  {
    TimesIs(m, n);
    hide Times;
    QuotientBounds(d, m * n);
    QuotientTimes(d, m * n);
  }

  lemma TimesIs(m: real, n: real)
    ensures Times(m, n) == m * n == Times(n, m)
  {}

  /** Between 0 and 1 for non-negative scores, 0 exactly with no word in common, 1 exactly of proportional vectors. */
  lemma ScoreInUnit(v: Vector, w: Vector, m: real, n: real)
    requires Magnitude(m, v) && Magnitude(n, w)
    ensures var score := Divide(Dot(v, w), Times(m, n));
      && score.Number?
      && (score.value == 1.0 <==> forall word <- v.Keys + w.Keys :: n * At(v, word) == m * At(w, word))
      && (NonNegative(v) && NonNegative(w) ==>
            && 0.0 <= score.value <= 1.0
            && (score.value == 0.0 <==> forall word :: word !in v || word !in w || v[word] == 0.0 || w[word] == 0.0))
  {
    hide Dot, Divide, Times, Magnitude, Proportional, Unrelated;
    DotBounded(v, w, m, n);
    CosineOf(Dot(v, w), m, n);
    FullSimilarity(v, w, m, n);
    ProportionalIs(v, w, m, n);
    if NonNegative(v) && NonNegative(w) {
      SimilarityInUnit(v, w, m, n);
      UnrelatedIs(v, w);
    }
  }

  lemma ProportionalIs(v: Vector, w: Vector, m: real, n: real)
    ensures Proportional(v, w, m, n) <==> forall word <- v.Keys + w.Keys :: n * At(v, word) == m * At(w, word)
  {}

  lemma UnrelatedIs(v: Vector, w: Vector)
    ensures Unrelated(v, w) <==> forall word :: word !in v || word !in w || v[word] == 0.0 || w[word] == 0.0
  {
    if Unrelated(v, w) {
      forall word | word in v && word in w ensures v[word] == 0.0 || w[word] == 0.0 {
        assert word in v.Keys + w.Keys && At(v, word) == v[word] && At(w, word) == w[word];
      }
    }
  }

  /** A dot product is built up word by word: these two say what it is of any two vectors. */
  lemma DotOfNone(w: Vector)
    ensures Dot(map[], w) == 0.0
  {
    hide Sum;
    var v: Vector := map[];
    assert v.Keys == {};
    DotOverEither(v, w);
    SumOfNone(Term(v, w));
  }

  lemma DotAdds(v: Vector, w: Vector, word: string, x: real)
    requires word !in v
    ensures Dot(v[word := x], w) == Dot(v, w) + x * if word in w then w[word] else 0.0
  {
    hide Sum;
    var v' := v[word := x];
    DotOverEither(v, w);
    DotOverEither(v', w);
    SumPick(Term(v', w), v'.Keys, word);
    assert v'.Keys - {word} == v.Keys;
    SumSame(Term(v', w), Term(v, w), v.Keys);
  }

  // ---------------------------------------------------------------- documents

  type Document = seq<ScoredWord>

  /** A word's score added to those before. */
  function AddWord(scores: Vector, elem: ScoredWord): Vector {
    scores[elem.word := At(scores, elem.word) + elem.score]
  }

  function AddWords(scores: Vector, doc: Document): Vector
    decreases |doc|
  {
    if doc == [] then scores else AddWords(AddWord(scores, doc[0]), doc[1..])
  }

  /** All a document's scores for one word. */
  function Total(doc: Document, word: string): real {
    if doc == [] then 0.0 else (if doc[0].word == word then doc[0].score else 0.0) + Total(doc[1..], word)
  }

  function Words(doc: Document): set<string> {
    set elem <- doc :: elem.word
  }

  lemma {:induction false} AddWordsAt(scores: Vector, doc: Document, word: string)
    ensures At(AddWords(scores, doc), word) == At(scores, word) + Total(doc, word)
    ensures word in AddWords(scores, doc) <==> word in scores || word in Words(doc)
    decreases |doc|
  {
    if doc != [] {
      AddWordsAt(AddWord(scores, doc[0]), doc[1..], word);
      assert Words(doc) == {doc[0].word} + Words(doc[1..]);
    }
  }

  lemma AddWordsCommute(scores: Vector, a: Document, b: Document)
    ensures AddWords(AddWords(scores, a), b) == AddWords(AddWords(scores, b), a)
  {
    forall word ensures (word in AddWords(AddWords(scores, a), b) <==> word in AddWords(AddWords(scores, b), a))
                        && At(AddWords(AddWords(scores, a), b), word) == At(AddWords(AddWords(scores, b), a), word)
    {
      AddWordsAt(scores, a, word);
      AddWordsAt(scores, b, word);
      AddWordsAt(AddWords(scores, a), b, word);
      AddWordsAt(AddWords(scores, b), a, word);
    }
  }

  function AddDocuments(scores: Vector, docs: seq<Document>): Vector
    decreases |docs|
  {
    if docs == [] then scores else AddDocuments(AddWords(scores, docs[0]), docs[1..])
  }

  /** Adding the document at position `i` first makes no difference. */
  lemma {:induction false} AddEarlier(scores: Vector, docs: seq<Document>, i: nat)
    requires i < |docs|
    ensures AddDocuments(scores, docs) == AddDocuments(AddWords(scores, docs[i]), docs[..i] + docs[i + 1..])
    decreases i
  {
    var rest := docs[..i] + docs[i + 1..];
    if i == 0 {
      assert rest == docs[1..];
    } else {
      AddEarlier(AddWords(scores, docs[0]), docs[1..], i - 1);
      AddWordsCommute(scores, docs[0], docs[i]);
      assert rest[0] == docs[0] && rest[1..] == docs[1..][..i - 1] + docs[1..][i..];
    }
  }

  lemma WithoutOne(docs: seq<Document>, i: nat)
    requires i < |docs|
    ensures multiset(docs[..i] + docs[i + 1..]) == multiset(docs) - multiset{docs[i]}
  {
    assert docs == docs[..i] + [docs[i]] + docs[i + 1..];
  }

  lemma FindFirst(docs: seq<Document>, others: seq<Document>) returns (i: nat)
    requires docs != [] && multiset(docs) == multiset(others)
    ensures i < |others| && others[i] == docs[0] && multiset(docs[1..]) == multiset(others[..i] + others[i + 1..])
  {
    assert docs[0] in multiset(docs);
    assert docs[0] in others;
    i :| i < |others| && others[i] == docs[0];
    WithoutOne(others, i);
    assert docs == [docs[0]] + docs[1..];
  }

  /** The accumulated scores do not depend on the order of the documents. */
  lemma {:induction false} OrderIndependent(scores: Vector, docs: seq<Document>, others: seq<Document>)
    requires multiset(docs) == multiset(others)
    ensures AddDocuments(scores, docs) == AddDocuments(scores, others)
    decreases |docs|
  {
    if docs == [] {
      assert |multiset(others)| == 0;
    } else {
      var i := FindFirst(docs, others);
      AddEarlier(scores, others, i);
      OrderIndependent(AddWords(scores, docs[0]), docs[1..], others[..i] + others[i + 1..]);
    }
  }

  /** The dot product with a document's scores as they come, repeated words included. */
  function DotAlong(v: Vector, doc: Document): real {
    if doc == [] then 0.0 else Times(doc[0].score, At(v, doc[0].word)) + DotAlong(v, doc[1..])
  }

  lemma DotWithWord(v: Vector, scores: Vector, elem: ScoredWord)
    ensures Dot(v, AddWord(scores, elem)) == Dot(v, scores) + Times(elem.score, At(v, elem.word))
  {
    var more := AddWord(scores, elem);
    DotOverEither(v, scores);
    DotOverEither(v, more);
    hide Dot, Sum;
    var rest := v.Keys - {elem.word};
    SumSame(Term(v, scores), Term(v, more), rest);
    if elem.word in v {
      SumPick(Term(v, scores), v.Keys, elem.word);
      SumPick(Term(v, more), v.Keys, elem.word);
    } else {
      assert rest == v.Keys;
    }
  }

  /** Scoring a document along its list is the dot product with the vector of its words' totals. */
  lemma {:induction false} DotAlongIsDot(v: Vector, scores: Vector, doc: Document)
    ensures Dot(v, AddWords(scores, doc)) == Dot(v, scores) + DotAlong(v, doc)
    decreases |doc|
  {
    hide Dot, Times;
    if doc != [] {
      DotWithWord(v, scores, doc[0]);
      DotAlongIsDot(v, AddWord(scores, doc[0]), doc[1..]);
    }
  }

  lemma DocumentDot(v: Vector, doc: Document)
    ensures DotAlong(v, doc) == Dot(v, AddWords(map[], doc))
  {
    var none: Vector := map[];
    DotAlongIsDot(v, none, doc);
    DotOverEither(v, none);
    SumOfNone(Term(v, none));
  }

  // ---------------------------------------------------------------- the classes

  class WordVector {
    var scores: Vector
    var magnitude: real
    var documentWeight: real

    constructor (scores: Vector, magnitude: real, documentWeight: real)
      ensures this.scores == scores && this.magnitude == magnitude && this.documentWeight == documentWeight
    {
      this.scores, this.magnitude, this.documentWeight := scores, magnitude, documentWeight;
    }

    /** The loop over the other's scores, which come in no particular order. */
    method Score(otherScores: Vector, otherMagnitude: real) returns (score: Double)
      ensures score == Divide(Dot(scores, otherScores), Times(magnitude, otherMagnitude))
    {
      hide Sum, Dot, Divide;
      var dotProd := 0.0;
      var rest := otherScores.Keys;
      while rest != {}
        invariant rest <= otherScores.Keys
        invariant dotProd + Sum(Term(scores, otherScores), rest) == Sum(Term(scores, otherScores), otherScores.Keys)
        decreases |rest|
      {
        var word :| word in rest;
        SumPick(Term(scores, otherScores), rest, word);
        rest := rest - {word};
        if word in scores {
          dotProd := dotProd + otherScores[word] * scores[word];
        }
      }
      SumOfNone(Term(scores, otherScores));
      DotOverEither(scores, otherScores);
      score := Divide(dotProd, Times(magnitude, otherMagnitude));
    }

    method ScoreVector(other: WordVector) returns (score: Double)
      ensures score == Divide(Dot(scores, other.scores), Times(magnitude, other.magnitude))
    {
      hide Divide, Dot, Times;
      score := Score(other.scores, other.magnitude);
    }

    /** The loop over a document's words; a word that comes twice counts twice. */
    method ScoreDocument(doc: Document, docMagnitude: real) returns (score: Double)
      ensures score == Divide(Dot(scores, AddWords(map[], doc)), Times(magnitude, docMagnitude))
    {
      hide Divide, Dot;
      var dotProd := 0.0;
      for i := 0 to |doc|
        invariant dotProd + DotAlong(scores, doc[i..]) == DotAlong(scores, doc)
      {
        assert doc[i..][1..] == doc[i + 1..];
        if doc[i].word in scores {
          dotProd := dotProd + doc[i].score * scores[doc[i].word];
        }
      }
      DocumentDot(scores, doc);
      score := Divide(dotProd, Times(magnitude, docMagnitude));
    }
  }

  /** The loop over the scores of a vector, which come in no particular order. */
  method SumOfSquares(scores: Vector) returns (sum: real)
    ensures sum == Square(scores)
  {
    SquareOver(scores, scores.Keys);
    hide Sum, Square, Times;
    sum := 0.0;
    var rest := scores.Keys;
    while rest != {}
      invariant rest <= scores.Keys
      invariant sum + Sum(Term(scores, scores), rest) == Square(scores)
      decreases |rest|
    {
      var word :| word in rest;
      SumPick(Term(scores, scores), rest, word);
      rest := rest - {word};
      sum := sum + Times(scores[word], scores[word]);
    }
    SumOfNone(Term(scores, scores));
  }

  /**
   The count and the scores are those of the documents, and the magnitude is that of the scores unless it is stale.
   */
  ghost predicate AddsUp(docs: seq<Document>, documentCount: nat, scores: Vector, magnitudeSquared: real,
      staleMagnitude: bool) {
    && documentCount == |docs|
    && scores == AddDocuments(map[], docs)
    && (!staleMagnitude ==> magnitudeSquared == Square(scores))
  }

  /** Adds documents up; the squared magnitude is computed on demand and kept until the next document. */
  class DocumentAccumulator {
    var documentCount: nat
    var scores: Vector
    var magnitudeSquared: real
    var staleMagnitude: bool
    ghost var docs: seq<Document>  // the documents added
    ghost var moved: bool  // the scores have been moved out

    ghost predicate Valid()
      reads this
    {
      !moved ==> AddsUp(docs, documentCount, scores, magnitudeSquared, staleMagnitude)
    }

    constructor ()
      ensures Valid() && docs == [] && !moved
    {
      documentCount, scores, magnitudeSquared, staleMagnitude := 0, map[], 0.0, true;
      docs, moved := [], false;
    }

    method AddDocument(doc: Document)
      requires Valid() && !moved
      modifies this
      ensures Valid() && !moved && docs == old(docs) + [doc]
    {
      staleMagnitude := true;
      documentCount := documentCount + 1;
      ghost var before := scores;
      for i := 0 to |doc|
        invariant AddWords(scores, doc[i..]) == AddWords(before, doc)
        invariant staleMagnitude && documentCount == |docs| + 1 && docs == old(docs) && !moved
      {
        assert doc[i..][1..] == doc[i + 1..];
        var key := doc[i].word;
        if key !in scores {
          scores := scores[key := doc[i].score];
        } else {
          scores := scores[key := scores[key] + doc[i].score];
        }
      }
      AddLast(map[], docs, doc);
      docs := docs + [doc];
    }

    /** The cached value, if there is one, is what a new computation would give. */
    method GetMagnitudeSquared() returns (squared: real)
      requires Valid() && !moved
      modifies this
      ensures Valid() && !moved && docs == old(docs) && scores == old(scores)
      ensures squared == Square(scores)
    {
      if staleMagnitude {
        var sum := SumOfSquares(scores);
        magnitudeSquared := sum;
        staleMagnitude := false;
      }
      squared := magnitudeSquared;
    }

    /** Moves the scores out; what stays behind is unspecified. */
    method GetScores() returns (taken: Vector)
      requires Valid() && !moved
      modifies this
      ensures taken == AddDocuments(map[], docs) && docs == old(docs)
      ensures Valid() && moved
    {
      taken := scores;
      scores, moved := *, true;
    }

    method GetCount() returns (count: nat)
      requires Valid() && !moved
      ensures count == |docs|
    {
      count := documentCount;
    }
  }

  lemma {:induction false} AddLast(scores: Vector, docs: seq<Document>, doc: Document)
    ensures AddDocuments(scores, docs + [doc]) == AddWords(AddDocuments(scores, docs), doc)
    decreases |docs|
  {
    if docs == [] {
      assert (docs + [doc])[1..] == [];
    } else {
      AddLast(AddWords(scores, docs[0]), docs[1..], doc);
      assert (docs + [doc])[1..] == docs[1..] + [doc];
    }
  }

  lemma {:induction false} AddWordsLast(scores: Vector, doc: Document, elem: ScoredWord)
    ensures AddWords(scores, doc + [elem]) == AddWord(AddWords(scores, doc), elem)
    decreases |doc|
  {
    if doc == [] {
      assert (doc + [elem])[1..] == [];
    } else {
      AddWordsLast(AddWord(scores, doc[0]), doc[1..], elem);
      assert (doc + [elem])[1..] == doc[1..] + [elem];
    }
  }

  /**
   The sum of documents is built up word by word: one more word at the end of the last document adds its score to that
   word's and changes nothing else, and an empty document changes nothing.
   */
  lemma AccumulatesWordByWord(scores: Vector, docs: seq<Document>, doc: Document, word: string, x: real)
    ensures AddDocuments(scores, []) == scores
    ensures AddDocuments(scores, docs + [[]]) == AddDocuments(scores, docs)
    ensures var before := AddDocuments(scores, docs + [doc]);
      AddDocuments(scores, docs + [doc + [ScoredWord(word, x)]])
        == before[word := (if word in before then before[word] else 0.0) + x]
  {
    AddLast(scores, docs, []);
    AddLast(scores, docs, doc);
    AddLast(scores, docs, doc + [ScoredWord(word, x)]);
    AddWordsLast(AddDocuments(scores, docs), doc, ScoredWord(word, x));
  }

  // ---------------------------------------------------------------- scores of a new document

  /** The sum of the scores of a list. */
  function SumScores(elems: Document): real {
    if elems == [] then 0.0 else SumScores(elems[..|elems| - 1]) + elems[|elems| - 1].score
  }

  function SumSquares(elems: Document): real {
    if elems == [] then 0.0
    else
      SumSquares(elems[..|elems| - 1]) + Times(elems[|elems| - 1].score, elems[|elems| - 1].score)
  }

  /** One more for the element at position `i` is one more for the sum. */
  lemma {:induction false} SumScoresBump(elems: Document, i: nat, score: real)
    requires i < |elems|
    ensures SumScores(elems[i := elems[i].(score := score)]) == SumScores(elems) + score - elems[i].score
    decreases |elems|
  {
    var more, last := elems[i := elems[i].(score := score)], |elems| - 1;
    if i == last {
      assert more[..last] == elems[..last];
    } else {
      SumScoresBump(elems[..last], i, score);
      assert more[..last] == elems[..last][i := elems[i].(score := score)];
    }
  }

  lemma {:induction false} SumScoresScaled(elems: Document, scaled: Document, total: real)
    requires |scaled| == |elems| && total != 0.0
    requires forall i | 0 <= i < |elems| :: scaled[i].score == Quotient(elems[i].score, total)
    ensures SumScores(scaled) == Quotient(SumScores(elems), total)
    decreases |elems|
  {
    if elems != [] {
      SumScoresScaled(elems[..|elems| - 1], scaled[..|elems| - 1], total);
    }
  }

  /** The list counts the words: each is in it once, where the index says, with the number of times it was added. */
  ghost predicate Tally(words: seq<string>, elems: Document, index: map<string, nat>) {
    && SumScores(elems) == |words| as real
    && (forall w :: w in index <==> w in words)
    && (forall w <- index :: index[w] < |elems| && elems[index[w]].word == w)
    && (forall i | 0 <= i < |elems| :: Listed(words, elems[i], index, i))
  }

  ghost predicate Listed(words: seq<string>, elem: ScoredWord, index: map<string, nat>, i: nat) {
    elem.word in index && index[elem.word] == i && elem.score == multiset(words)[elem.word] as real
  }

  lemma TallyFirst(words: seq<string>, elems: Document, index: map<string, nat>, word: string)
    requires Tally(words, elems, index) && word !in index
    ensures Tally(words + [word], elems + [ScoredWord(word, 1.0)], index[word := |elems|])
  {
    var more := elems + [ScoredWord(word, 1.0)];
    assert more[..|elems|] == elems;
    assert multiset(words)[word] == 0;
    forall i | 0 <= i < |more| ensures Listed(words + [word], more[i], index[word := |elems|], i) {
      assert i < |elems| ==> Listed(words, elems[i], index, i);
    }
  }

  lemma TallyAgain(words: seq<string>, elems: Document, index: map<string, nat>, word: string)
    requires Tally(words, elems, index) && word in index
    ensures var i := index[word];
      Tally(words + [word], elems[i := elems[i].(score := elems[i].score + 1.0)], index)
  {
    var at := index[word];
    SumScoresBump(elems, at, elems[at].score + 1.0);
    var more := elems[at := elems[at].(score := elems[at].score + 1.0)];
    forall i | 0 <= i < |more| ensures Listed(words + [word], more[i], index, i) {
      assert Listed(words, elems[i], index, i);
    }
  }

  /** Division, by a name that can be hidden. */
  function Quotient(x: real, y: real): real
    requires y != 0.0
  {
    x / y
  }

  /** The list with every score divided by the total. */
  function Normalized(elems: Document, total: real): Document
    requires elems != [] ==> total != 0.0
  {
    seq(|elems|, i requires 0 <= i < |elems| => ScoredWord(elems[i].word, Quotient(elems[i].score, total)))
  }

  /** Every word added is listed once, with its share of all words, and the shares add up to 1. */
  ghost predicate Shares(words: seq<string>, elems: Document) {
    && (forall w <- words :: exists i | 0 <= i < |elems| :: elems[i].word == w)
    && (forall i, j | 0 <= i < j < |elems| :: elems[i].word != elems[j].word)
    && (forall i | 0 <= i < |elems| ::
          elems[i].word in words && elems[i].score == Quotient(multiset(words)[elems[i].word] as real, |words| as real))
    && (words != [] ==> SumScores(elems) == 1.0)
  }

  lemma TallyGivesShares(words: seq<string>, elems: Document, index: map<string, nat>)
    requires Tally(words, elems, index)
    ensures elems != [] ==> words != []
    ensures Shares(words, Normalized(elems, |words| as real))
  {
    if elems != [] {
      assert Listed(words, elems[0], index, 0);
    }
    hide Quotient;
    var shares := Normalized(elems, |words| as real);
    forall w <- words ensures exists i | 0 <= i < |shares| :: shares[i].word == w {
      assert shares[index[w]].word == w;
    }
    forall i, j | 0 <= i < j < |shares| ensures shares[i].word != shares[j].word {
      assert Listed(words, elems[i], index, i) && Listed(words, elems[j], index, j);
    }
    forall i | 0 <= i < |shares|
      ensures shares[i].word in words
          && shares[i].score == Quotient(multiset(words)[shares[i].word] as real, |words| as real) {
      assert Listed(words, elems[i], index, i);
    }
    if words != [] {
      SumScoresScaled(elems, shares, |words| as real);
      QuotientOfItself(|words| as real);
    }
  }

  lemma QuotientOfItself(x: real)
    requires x != 0.0
    ensures Quotient(x, x) == 1.0
  {}

  class WordAccumulator {
    var totalWords: nat
    var magnitudeSquared: real
    var scoredWords: Document
    var wordsByStr: map<string, nat>
    ghost var words: seq<string>  // the words added

    /** What holds until `Build`. */
    ghost predicate Counting()
      reads this
    {
      totalWords == |words| && Tally(words, scoredWords, wordsByStr)
    }

    constructor ()
      ensures Counting() && words == []
    {
      totalWords, magnitudeSquared, scoredWords, wordsByStr := 0, 0.0, [], map[];
      words := [];
    }

    method Add(word: string)
      requires Counting()
      modifies this
      ensures Counting() && words == old(words) + [word]
    {
      totalWords := totalWords + 1;
      if word !in wordsByStr {
        TallyFirst(words, scoredWords, wordsByStr, word);
        scoredWords := scoredWords + [ScoredWord(word, 1.0)];
        wordsByStr := wordsByStr[word := |scoredWords| - 1];
      } else {
        TallyAgain(words, scoredWords, wordsByStr, word);
        var i := wordsByStr[word];
        scoredWords := scoredWords[i := scoredWords[i].(score := scoredWords[i].score + 1.0)];
      }
      words := words + [word];
      hide Tally;
    }

    method Build()
      requires Counting()
      modifies this
      ensures words == old(words) && Shares(words, scoredWords) && magnitudeSquared == SumSquares(scoredWords)
    {
      hide Tally, Shares, Quotient, Times, SumSquares;
      TallyGivesShares(words, scoredWords, wordsByStr);
      var total := totalWords as real;
      ghost var counted, shares := scoredWords, Normalized(scoredWords, total);
      magnitudeSquared := 0.0;
      NoSquares();
      for i := 0 to |scoredWords|
        invariant words == old(words) && |scoredWords| == |counted|
        invariant forall k | 0 <= k < |counted| :: scoredWords[k] == if k < i then shares[k] else counted[k]
        invariant magnitudeSquared == SumSquares(shares[..i])
      {
        var normalized := Quotient(scoredWords[i].score, total);
        scoredWords := scoredWords[i := scoredWords[i].(score := normalized)];
        magnitudeSquared := magnitudeSquared + Times(normalized, normalized);
        NextSquare(shares, i);
      }
      assert scoredWords == shares == shares[..|scoredWords|];
    }
  }

  lemma NoSquares()
    ensures SumSquares([]) == 0.0
  {}

  lemma NextSquare(elems: Document, i: nat)
    requires i < |elems|
    ensures SumSquares(elems[..i + 1]) == SumSquares(elems[..i]) + Times(elems[i].score, elems[i].score)
  {
    assert elems[..i + 1][..i] == elems[..i];
  }
}

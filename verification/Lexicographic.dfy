/** Lexicographic order on strings. */
module Lexicographic {

  /** `a` precedes `b`, and `d` is the first position where they part. */
  predicate PartsAt(a: string, b: string, d: nat) {
    && d <= |a| && d < |b| && (forall k :: 0 <= k < d ==> a[k] == b[k])
    && (d == |a| || a[d] < b[d])
  }

  ghost predicate Before(a: string, b: string) {
    exists d: nat :: PartsAt(a, b, d)
  }

  lemma BeforeTransitive(a: string, b: string, c: string)
    requires Before(a, b) && Before(b, c)
    ensures Before(a, c)
  {
    var d: nat :| PartsAt(a, b, d);
    var e: nat :| PartsAt(b, c, e);
    assert PartsAt(a, c, if d < e then d else e);
  }

  lemma BeforeIrreflexive(a: string, b: string)
    requires Before(a, b)
    ensures a != b && !(b <= a)
  {
    var d: nat :| PartsAt(a, b, d);
  }

  lemma BeforeTotal(a: string, b: string)
    ensures a == b || Before(a, b) || Before(b, a)
  {
    if a != b {
      if !(a <= b) && !(b <= a) {
        var d := FirstDifference(a, b);
        assert PartsAt(a, b, d) || PartsAt(b, a, d);
      } else if a <= b {
        assert PartsAt(a, b, |a|);
      } else {
        assert PartsAt(b, a, |b|);
      }
    }
  }

  lemma {:induction false} FirstDifference(a: string, b: string) returns (d: nat)
    requires !(a <= b) && !(b <= a)
    ensures d < |a| && d < |b| && a[d] != b[d] && a[..d] == b[..d]
  {
    d := 0;
    while a[d] == b[d]
      invariant d < |a| && d < |b| && a[..d] == b[..d]
      decreases |a| - d
    {
      assert a[..d + 1] == b[..d + 1];
      d := d + 1;
    }
  }

  lemma BeforeNotItself(a: string)
    ensures !Before(a, a)
  {
    if Before(a, a) {
      BeforeIrreflexive(a, a);
    }
  }

  lemma BeforeAsymmetric(a: string, b: string)
    requires Before(a, b)
    ensures !Before(b, a)
  {
    if Before(b, a) {
      BeforeTransitive(a, b, a);
      BeforeNotItself(a);
    }
  }

  /** A common beginning does not matter. */
  lemma BeforeWithPrefix(p: string, a: string, b: string)
    ensures Before(p + a, p + b) <==> Before(a, b)
  {
    if Before(a, b) {
      var d: nat :| PartsAt(a, b, d);
      assert PartsAt(p + a, p + b, |p| + d);
    }
    if Before(p + a, p + b) {
      var d: nat :| PartsAt(p + a, p + b, d);
      assert d >= |p|;
      forall k | 0 <= k < d - |p| ensures a[k] == b[k] {
        assert (p + a)[|p| + k] == (p + b)[|p| + k];
      }
      assert PartsAt(a, b, d - |p|);
    }
  }

  /** The order, decided symbol by symbol. */
  predicate Less(a: string, b: string)
    ensures Less(a, b) <==> Before(a, b)
  {
    LessStep(a, b);
    |b| > 0 && (|a| == 0 || a[0] < b[0] || (a[0] == b[0] && Less(a[1..], b[1..])))
  }

  lemma LessStep(a: string, b: string)
    ensures Before(a, b) <==> |b| > 0 && (|a| == 0 || a[0] < b[0] || (a[0] == b[0] && Before(a[1..], b[1..])))
  {
    if |b| > 0 {
      if |a| == 0 || a[0] < b[0] {
        assert PartsAt(a, b, 0);
      } else if a[0] == b[0] {
        assert a == [a[0]] + a[1..] && b == [b[0]] + b[1..];
        BeforeWithPrefix([a[0]], a[1..], b[1..]);
      }
    }
  }
}

/**
 * The orderings the Ricart-Agrawala peer relies on: Python's `<` on `str`
 * (code-point lexicographic order, a proper prefix before its extensions)
 * and Python's comparison of `(timestamp, name)` tuples.
 */
module LexOrder {

  /** Python's `a < b` on strings. */
  predicate Less(a: string, b: string)
    decreases |a|
  {
    |b| > 0 && (|a| == 0 || a[0] < b[0] || (a[0] == b[0] && Less(a[1..], b[1..])))
  }

  lemma {:induction false} LessIrreflexive(a: string)
    ensures !Less(a, a)
    decreases |a|
  {
    if |a| > 0 {
      LessIrreflexive(a[1..]);
    }
  }

  lemma {:induction false} LessTransitive(a: string, b: string, c: string)
    requires Less(a, b) && Less(b, c)
    ensures Less(a, c)
    decreases |a|
  {
    if |a| > 0 && a[0] == b[0] && b[0] == c[0] {
      LessTransitive(a[1..], b[1..], c[1..]);
    }
  }

  /** Two different strings are always ordered one way or the other. */
  lemma {:induction false} LessTotal(a: string, b: string)
    requires a != b
    ensures Less(a, b) || Less(b, a)
    decreases |a|
  {
    if |a| > 0 && |b| > 0 && a[0] == b[0] {
      assert a == [a[0]] + a[1..] && b == [b[0]] + b[1..];
      LessTotal(a[1..], b[1..]);
    }
  }

  lemma LessAsymmetric(a: string, b: string)
    requires Less(a, b)
    ensures !Less(b, a)
  {
    if Less(b, a) {
      LessTransitive(a, b, a);
      LessIrreflexive(a);
    }
  }

  /**
   * Python's `(t1, n1) < (t2, n2)`: timestamps first, the name breaks a tie.
   * A peer's claim `(request_timestamp, name)` has priority over every claim
   * it is ClaimLess than.
   */
  predicate ClaimLess(t1: int, n1: string, t2: int, n2: string)
  {
    t1 < t2 || (t1 == t2 && Less(n1, n2))
  }

  /**
   * Of two different claims exactly one precedes the other: the order on
   * `(timestamp, name)` pairs is a strict total order.
   */
  lemma ClaimOrderTotal(t1: int, n1: string, t2: int, n2: string)
    requires (t1, n1) != (t2, n2)
    ensures ClaimLess(t1, n1, t2, n2) != ClaimLess(t2, n2, t1, n1)
  {
    if t1 == t2 {
      LessTotal(n1, n2);
      if Less(n1, n2) {
        LessAsymmetric(n1, n2);
      }
    }
  }

  lemma ClaimLessTransitive(t1: int, n1: string, t2: int, n2: string, t3: int, n3: string)
    requires ClaimLess(t1, n1, t2, n2) && ClaimLess(t2, n2, t3, n3)
    ensures ClaimLess(t1, n1, t3, n3)
  {
    if t1 == t2 == t3 {
      LessTransitive(n1, n2, n3);
    }
  }

  lemma ClaimLessIrreflexive(t: int, n: string)
    ensures !ClaimLess(t, n, t, n)
  {
    LessIrreflexive(n);
  }
}

/**
 Small facts about exact real arithmetic that the classifier's proofs use:
 scaling by a positive factor, cancelling it, and whole numbers.
 */
module RealFacts {

  /** A real number with no fractional part. */
  predicate IsWhole(x: real)
  {
    x == x.Floor as real
  }

  lemma MulMonotone(a: real, b: real, m: real)
    requires a <= b && m >= 0.0
    ensures a * m <= b * m
  {
  }

  lemma MulStrict(a: real, b: real, m: real)
    requires a < b && m > 0.0
    ensures a * m < b * m
  {
  }

  lemma Cancel(x: real, m: real, l: real)
    requires m > 0.0 && x * m == l
    ensures x == l / m
  {
  }

  lemma DivideAtLeastOne(v: real, t: real)
    requires t > 0.0 && v >= t
    ensures v / t >= 1.0
  {
  }

  /** Dividing a value by `t` while multiplying its unit length by `t` keeps the product. */
  lemma ScaleStep(v: real, m: real, t: real)
    requires t > 0.0
    ensures (v / t) * (m * t) == v * m
  {
  }

  /** A whole number divided by a positive whole number is whole exactly when it divides evenly. */
  lemma WholeQuotient(n: nat, f: nat)
    requires f >= 1
    ensures IsWhole(n as real / f as real) <==> n % f == 0
  {
    var q, r := n / f, n % f;
    var x := n as real / f as real;
    assert n == q * f + r;
    assert n as real == q as real * f as real + r as real;
    assert x == q as real + r as real / f as real;
    assert 0.0 <= r as real / f as real < 1.0;
    assert x.Floor == q;
  }
}

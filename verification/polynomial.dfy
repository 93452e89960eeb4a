/** Polynomials as coefficient lists, index 0 being the constant term, and
    their exact (unreduced) value at a point. An empty list is the zero
    polynomial. This is the reference the evaluator is proved against. */
module Polynomial {
  import opened Field

  /** x raised to the n-th power. */
  function Pow(x: nat, n: nat): (p: nat) {
    if n == 0 then 1 else x * Pow(x, n - 1)
  }

  /** The value of the polynomial `c` at `x`: the sum of c[i] * x^i over all
      indices, built by adding the highest-degree term to the value of the
      lower-degree prefix. */
  function PolyValue(c: seq<Scalar>, x: nat): (v: nat) {
    if |c| == 0 then 0
    else PolyValue(c[..|c| - 1], x) + c[|c| - 1] * Pow(x, |c| - 1)
  }

  /** Horner's rule for the reference value: peeling off the constant term
      leaves x times the value of the shifted coefficient list. */
  lemma {:induction false} PolyValueHorner(c: seq<Scalar>, x: nat)
    requires |c| >= 1
    ensures PolyValue(c, x) == c[0] + x * PolyValue(c[1..], x)
    decreases |c|
  {
    var n := |c| - 1;
    if n == 0 {
      assert c[..0] == [] && c[1..] == [];
    } else {
      var d := c[..n];
      var t := c[1..];
      assert d[0] == c[0];
      assert d[1..] == t[..n - 1];
      assert t[n - 1] == c[n];
      PolyValueHorner(d, x);
      var a := PolyValue(t[..n - 1], x);
      var p := Pow(x, n - 1);
      assert PolyValue(d, x) == c[0] + x * a;
      assert PolyValue(t, x) == a + c[n] * p;
      assert Pow(x, n) == x * p;
      assert PolyValue(c, x) == PolyValue(d, x) + c[n] * Pow(x, n);
      DistributeStep(x, a, c[n], p);
    }
  }

  /** Multiplying the value of a list extended by a top term `b*p` by `x`. */
  lemma DistributeStep(x: nat, a: nat, b: nat, p: nat)
    ensures x * (a + b * p) == x * a + b * (x * p)
  {
    assert x * (b * p) == b * (x * p);
  }

  /** At zero every term but the constant vanishes. */
  lemma {:induction false} PolyValueAtZero(c: seq<Scalar>)
    requires |c| >= 1
    ensures PolyValue(c, 0) == c[0]
  {
    PolyValueHorner(c, 0);
  }

  /** The quadratic c0 + c1*x + c2*x^2, written term by term. */
  lemma {:induction false} PolyValueQuadratic(c0: Scalar, c1: Scalar, c2: Scalar, x: nat)
    ensures PolyValue([c0, c1, c2], x) == c0 + c1 * x + c2 * x * x
  {
    var c := [c0, c1, c2];
    assert c[..2] == [c0, c1];
    assert c[..2][..1] == [c0];
    assert c[..2][..1][..0] == [];
    assert PolyValue([c0], x) == c0;
    assert PolyValue([c0, c1], x) == c0 + c1 * x;
    assert Pow(x, 2) == x * x;
  }
}

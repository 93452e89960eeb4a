/** Scalars of the BLS12-381 scalar field, as the evaluator sees them.

A scalar (`Big`, the library's `Fr`) is modelled by the natural number it
represents. The arithmetic helpers the evaluator calls are modelled only by
their meaning modulo the field order `R`; every proof about them uses no
more of `R` than `R > 0`.
 */
module Field {

  /** The order r of the BLS12-381 scalar field (a prime). */
  const R: nat := 0x73ed_a753_299d_7d48_3339_d808_09a1_d805_53bd_a402_fffe_5bfe_ffff_ffff_0000_0001

  type Scalar = nat

  /** The field's additive identity. */
  const Zero: Scalar := 0

  /** A scalar in canonical (fully reduced) form. */
  predicate IsCanonical(a: Scalar) {
    a < R
  }

  /** Every coefficient of `s` is in canonical form. */
  predicate AllCanonical(s: seq<Scalar>) {
    forall i :: 0 <= i < |s| ==> IsCanonical(s[i])
  }

  /** `mulModBig`: the product reduced modulo R. */
  function MulMod(a: Scalar, b: Scalar): (p: Scalar)
    ensures IsCanonical(p)
    ensures (a * b - p) % R == 0
  {
    (a * b) % R
  }

  /** `addModBig`: the sum reduced modulo R. */
  function AddMod(a: Scalar, b: Scalar): (s: Scalar)
    ensures IsCanonical(s)
    ensures (a + b - s) % R == 0
  {
    (a + b) % R
  }

  // ---------------------------------------------------------------------
  // Modular arithmetic facts, for an arbitrary positive modulus.

  /** A nonzero multiple of a positive m is at least m away from zero. */
  lemma MultipleBounds(d: int, m: int)
    requires m > 0
    ensures d >= 1 ==> d * m >= m
    ensures d <= -1 ==> d * m <= -m
  {
    if d >= 1 {
      assert (d - 1) * m >= 0;
    } else if d <= -1 {
      assert (-d - 1) * m >= 0;
    }
  }

  /** Euclidean remainder is determined by any decomposition n == q*m + s with 0 <= s < m. */
  lemma ModUnique(n: int, q: int, s: int, m: int)
    requires m > 0
    requires 0 <= s < m
    requires n == q * m + s
    ensures n % m == s
  {
    var d := q - n / m;
    assert d * m == n % m - s by {
      assert n == (n / m) * m + n % m;
    }
    MultipleBounds(d, m);
  }

  /** Adding a multiple of the modulus does not change the remainder. */
  lemma ModAddMultiple(k: int, t: int, m: int)
    requires m > 0
    ensures (k * m + t) % m == t % m
  {
    assert t == (t / m) * m + t % m;
    assert k * m + t == (k + t / m) * m + t % m;
    ModUnique(k * m + t, k + t / m, t % m, m);
  }

  /** Congruent left factors give congruent products. */
  lemma MulModCongruent(h: int, p: int, x: int, m: int)
    requires m > 0
    requires h % m == p % m
    ensures (h * x) % m == (p * x) % m
  {
    var s := h % m;
    assert h == (h / m) * m + s;
    assert p == (p / m) * m + s;
    assert h * x == ((h / m) * x) * m + s * x;
    assert p * x == ((p / m) * x) * m + s * x;
    ModAddMultiple((h / m) * x, s * x, m);
    ModAddMultiple((p / m) * x, s * x, m);
  }

  /** Reducing one summand first does not change the reduced sum. */
  lemma AddModReduceLeft(u: int, a: int, m: int)
    requires m > 0
    ensures (u % m + a) % m == (u + a) % m
  {
    assert u == (u / m) * m + u % m;
    ModAddMultiple(u / m, u % m + a, m);
  }

  /** A canonical residue is its own remainder. */
  lemma ModOfSmall(a: int, m: int)
    requires m > 0
    requires 0 <= a < m
    ensures a % m == a
  {
    ModUnique(a, 0, a, m);
  }

  /** One Horner step computed with reduced operations agrees, modulo m, with
      the unreduced step `a + x*p` whenever the accumulator is congruent to `p`. */
  lemma HornerStepMod(h: int, p: int, x: int, a: int, m: int)
    requires m > 0
    requires h % m == p % m
    ensures ((h * x) % m + a) % m == (a + x * p) % m
  {
    MulModCongruent(h, p, x, m);
    AddModReduceLeft(h * x, a, m);
    AddModReduceLeft(p * x, a, m);
    assert p * x + a == a + x * p;
  }
}

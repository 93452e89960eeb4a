/** The polynomial evaluator of the kilic BLS12-381 backend:
    `EvalPolyAtUnoptimized` and its wrapper `EvalPolyAt`.

    Coefficients are scalars ordered from the constant term upwards. The
    evaluator has two shortcuts (an empty list gives zero; the point zero
    gives the constant coefficient as it is) and otherwise runs Horner's
    rule downwards from the leading coefficient with reduced
    multiplications and additions. */
module KateEval {
  import opened Field
  import opened Polynomial

  /** What the Horner loop leaves in its accumulator for a nonempty list:
      the lone coefficient, untouched, when there is only one; otherwise the
      polynomial's value reduced modulo R. */
  function HornerValue(c: seq<Scalar>, x: Scalar): (v: Scalar)
    requires |c| >= 1
    ensures v % R == PolyValue(c, x) % R
    ensures |c| >= 2 ==> IsCanonical(v)
  {
    if |c| == 1 then
      assert c[..0] == [];
      c[0]
    else
      PolyValue(c, x) % R
  }

  /** The value the evaluator promises for `coeffs` at `x`: zero for the
      empty list, the constant coefficient at the point zero, and the Horner
      result otherwise. */
  function EvalSpec(coeffs: seq<Scalar>, x: Scalar): (v: Scalar)
    ensures v % R == PolyValue(coeffs, x) % R
    ensures AllCanonical(coeffs) ==> IsCanonical(v) && v == PolyValue(coeffs, x) % R
  {
    if |coeffs| == 0 then
      Zero
    else if x == 0 then
      (PolyValueAtZero(coeffs);
       ModCanonical(coeffs[0], PolyValue(coeffs, x));
       coeffs[0])
    else
      (ModCanonical(HornerValue(coeffs, x), PolyValue(coeffs, x));
       HornerValue(coeffs, x))
  }

  /** A canonical residue congruent to p is p reduced. */
  lemma ModCanonical(v: nat, p: nat)
    requires v % R == p % R
    ensures IsCanonical(v) ==> v == p % R
  {
    if IsCanonical(v) {
      ModOfSmall(v, R);
    }
  }

  /** One iteration of the loop body (`mulModBig` then `addModBig` with the
      next lower coefficient) turns the accumulator for `c[1..]` into the
      accumulator for `c`. */
  lemma HornerValueStep(c: seq<Scalar>, x: Scalar)
    requires |c| >= 2
    ensures HornerValue(c, x) == AddMod(MulMod(HornerValue(c[1..], x), x), c[0])
  {
    PolyValueHorner(c, x);
    HornerStepMod(HornerValue(c[1..], x), PolyValue(c[1..], x), x, c[0], R);
  }

  /** The Horner loop on a nonempty list: the accumulator starts at the
      leading coefficient and each lower index costs one multiplication and
      one addition. */
  method Horner(coeffs: seq<Scalar>, x: Scalar) returns (last: Scalar, muls: nat, adds: nat)
    requires |coeffs| >= 1
    ensures last == HornerValue(coeffs, x)
    ensures |coeffs| >= 2 ==> last == PolyValue(coeffs, x) % R
    ensures muls == |coeffs| - 1 && adds == |coeffs| - 1
  {
    last := coeffs[|coeffs| - 1];
    muls, adds := 0, 0;
    // k is one past the source's loop index i, which runs from len-2 down to 0
    var k: nat := |coeffs| - 1;
    while k > 0
      invariant k <= |coeffs| - 1
      invariant last == HornerValue(coeffs[k..], x)
      invariant muls == |coeffs| - 1 - k && adds == muls
    {
      var i := k - 1;
      var tmp := MulMod(last, x);
      muls := muls + 1;
      HornerValueStep(coeffs[i..], x);
      assert coeffs[i..][1..] == coeffs[k..];
      last := AddMod(tmp, coeffs[i]);
      adds := adds + 1;
      k := i;
    }
    assert coeffs[0..] == coeffs;
  }

  /** `EvalPolyAtUnoptimized`, returning the value written to `dst` together
      with the number of field multiplications and additions performed. */
  method EvalPolyAtUnoptimized(coeffs: seq<Scalar>, x: Scalar) returns (dst: Scalar, muls: nat, adds: nat)
    ensures dst == EvalSpec(coeffs, x)
    ensures |coeffs| == 0 ==> dst == Zero
    ensures |coeffs| >= 1 && x == 0 ==> dst == coeffs[0]
    ensures |coeffs| == 1 ==> dst == coeffs[0]
    ensures |coeffs| >= 2 && x != 0 ==> dst == PolyValue(coeffs, x) % R
    ensures dst % R == PolyValue(coeffs, x) % R
    ensures AllCanonical(coeffs) ==> IsCanonical(dst) && dst == PolyValue(coeffs, x) % R
    ensures muls == adds
    ensures muls == (if |coeffs| == 0 || x == 0 then 0 else |coeffs| - 1)
    ensures muls <= |coeffs|
  {
    if |coeffs| == 0 {
      return Zero, 0, 0;
    }
    if x == 0 {
      return coeffs[0], 0, 0;
    }
    dst, muls, adds := Horner(coeffs, x);
  }

  /** `EvalPolyAt`: the kilic backend has no optimised evaluator, so this is
      exactly `EvalPolyAtUnoptimized`. */
  method EvalPolyAt(p: seq<Scalar>, x: Scalar) returns (dst: Scalar)
    ensures dst == EvalSpec(p, x)
    ensures dst % R == PolyValue(p, x) % R
  {
    var muls, adds;
    dst, muls, adds := EvalPolyAtUnoptimized(p, x);
  }

  /** Skipping the zero shortcut would not change the result for a canonical
      constant coefficient: the loop run at the point zero reduces to
      coeffs[0] modulo R, and (beyond a single coefficient) equals coeffs[0]
      exactly when coeffs[0] is canonical. */
  lemma ZeroShortcutAgrees(coeffs: seq<Scalar>)
    requires |coeffs| >= 1
    ensures HornerValue(coeffs, 0) % R == coeffs[0] % R
    ensures IsCanonical(coeffs[0]) ==> HornerValue(coeffs, 0) == EvalSpec(coeffs, 0)
    ensures |coeffs| >= 2 ==> (HornerValue(coeffs, 0) == coeffs[0] <==> IsCanonical(coeffs[0]))
  {
    PolyValueAtZero(coeffs);
    if IsCanonical(coeffs[0]) {
      ModOfSmall(coeffs[0], R);
    }
  }

  /** The quadratic c0 + c1*x + c2*x^2 with canonical coefficients: the
      evaluator returns its value reduced modulo R, for any point x. */
  lemma EvalQuadratic(c0: Scalar, c1: Scalar, c2: Scalar, x: Scalar)
    requires IsCanonical(c0) && IsCanonical(c1) && IsCanonical(c2)
    ensures EvalSpec([c0, c1, c2], x) == (c0 + c1 * x + c2 * x * x) % R
  {
    PolyValueQuadratic(c0, c1, c2, x);
    assert AllCanonical([c0, c1, c2]);
  }
}

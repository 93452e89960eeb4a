# Polynomial evaluation over the BLS12-381 scalar field (go-kate, kilic backend)

This project models the polynomial evaluator of go-kate's kilic BLS12-381
backend: `EvalPolyAtUnoptimized` and its wrapper `EvalPolyAt`. A polynomial
is a list of scalar-field coefficients, index 0 being the constant term. The
evaluator writes zero for an empty list. It writes `coeffs[0]` unchanged when
the point `x` is zero. Otherwise it runs Horner's rule from the leading
coefficient downwards, doing one reduced multiplication (`mulModBig`) and one
reduced addition (`addModBig`) per lower coefficient.

The modules:

- `Field` (`field.dfy`): scalars as naturals, the field order `R` (the
  BLS12-381 scalar order
  0x73eda753299d7d483339d80809a1d80553bda402fffe5bfeffffffff00000001),
  `mulModBig`/`addModBig` as `(a*b) % R` and `(a+b) % R`, and the modular
  arithmetic facts the proofs need. Those facts use only `R > 0`; primality
  is never needed.
- `Polynomial` (`polynomial.dfy`): the reference value Σ c[i]·x^i, computed
  without any reduction and independently of Horner's rule, and Horner's
  identity for it.
- `KateEval` (`kate_eval.dfy`): the loop (`Horner`), the evaluator with
  its two shortcuts, the wrapper, and the facts tying them to the reference.

Go's destination pointers become return values. `EvalPolyAtUnoptimized` and
`Horner` also return how many field multiplications and additions they
performed, so that the operation count can be stated.

`equalZero(x)` is modelled as the literal test `x == 0` on the represented
number, which is what a limb-wise zero check of `Fr` does. For a canonical
`x` this is the same as "x is the field's zero". A non-canonical multiple of
`R` takes the Horner path, and the model still proves that path correct.

## Model

| member | source | states |
|---|---|---|
| Field.MulMod | bls_kilic.go:147 | `mulModBig`: the result is the canonical residue congruent to a·b modulo r |
| Field.AddMod | bls_kilic.go:148 | `addModBig`: the result is the canonical residue congruent to a+b modulo r |
| Polynomial.PolyValueHorner | bls_kilic.go:141-149 | the sum Σ c[i]·x^i equals c[0] + x·(the sum of the shifted list); this is the identity Horner's method relies on |
| Polynomial.PolyValueAtZero | bls_kilic.go:137-140 | at the point zero every term but the constant vanishes, so the polynomial's value is exactly coeffs[0] |
| KateEval.HornerValue | bls_kilic.go:143-150 | the loop's final accumulator is congruent to Σ c[i]·x^i modulo r, and it is a canonical residue once at least one step has run |
| KateEval.HornerValueStep | bls_kilic.go:146-149 | one iteration (reduced multiply by x, then reduced add of coeffs[i]) turns the accumulator for coeffs[i+1..] into the accumulator for coeffs[i..]; this is the loop invariant "last = Σ_{j≥i} coeffs[j]·x^(j−i) mod r" carried one index down |
| KateEval.Horner | bls_kilic.go:141-150 | starting from the leading coefficient, the downward loop ends with Σ c[i]·x^i mod r (the lone coefficient, unreduced, for a one-element list), after exactly len−1 multiplications and len−1 additions |
| KateEval.EvalSpec | bls_kilic.go:132-151 | the promised result is congruent to Σ c[i]·x^i modulo r for every input; if all coefficients are canonical it is the canonical residue Σ c[i]·x^i mod r |
| KateEval.EvalPolyAtUnoptimized | bls_kilic.go:132-151 | an empty list gives zero for any x; x = 0 gives coeffs[0] with no arithmetic; a single coefficient is returned as it is for any x; otherwise the result is Σ c[i]·x^i mod r; the result is always congruent to the polynomial's value and is canonical when the coefficients are; multiplications equal additions, number len−1 on the Horner path and 0 on a shortcut, and never exceed len |
| KateEval.EvalPolyAt | bls_kilic.go:153-156 | the wrapper returns exactly the value the unoptimised evaluator's contract determines, which is congruent to the polynomial's value |
| KateEval.ZeroShortcutAgrees | bls_kilic.go:137-149 | running the loop at x = 0 instead of taking the shortcut gives coeffs[0] modulo r, and the same value as the shortcut when coeffs[0] is canonical; with two or more coefficients the two agree exactly if and only if coeffs[0] is canonical |
| KateEval.EvalQuadratic | bls_kilic.go:141-150 | for canonical c0, c1, c2 and any x, evaluating [c0, c1, c2] gives (c0 + c1·x + c2·x²) mod r, the term-by-term value |

## Left out

- Group wrappers `ClearG1/G2`, `CopyG1/G2`, `mulG1/G2`, `addG1/G2`, `subG1/G2`, `negG1/G2`, `equalG1/G2` (bls_kilic.go:38-113): each is one call into the external curve library, so there is no local behaviour to model.
- `LinCombG1` (bls_kilic.go:115-130): the multi-scalar multiplication is the library's `MultiExp`, which is not part of this model; its only local logic is a length-mismatch panic in front of that opaque call.
- `PairingsVerify` (bls_kilic.go:159-164): the pairing product and its check are done entirely by the library's pairing engine.
- `strG1`/`strG2` (bls_kilic.go:58-64, 99-105): they depend on the library's uncompressed point encoding and on decimal big-integer formatting.
- `debugG1s` (bls_kilic.go:166-172): it only prints diagnostics.
- `initG1G2` and the package-level globals (bls_kilic.go:13-32): one-time process initialisation from the library.
- `norm`, `mulModBig`, `addModBig`, `equalZero` and `CopyBigNum`: their implementations are not part of this model. They are modelled only by their meaning: reduction modulo r, literal zero test, value copy.
- The primality of r: it is not proved and is not needed by any proof here.
- The fixed-width limb representation of `Fr`: scalars are unbounded naturals. Reduced operations always return values below r, so no wrap-around can occur on the paths modelled.

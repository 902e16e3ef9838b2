# KZG commitments over a radix-2 evaluation domain

A Dafny model of the exact prime-field core of a KZG polynomial-commitment
library.

- **Scalar field** (`field.dfy`, module `Field`). Integers modulo the BLS12-381 scalar modulus `R`, with:
  - the 2-adicity `S = 32`;
  - the multiplicative generator 7;
  - the field's fixed primitive 2^32-th root of unity `ROOT`;
  - `invert()` as an `Option`, computed by extended Euclid;
  - multiplication written as repeated field addition and proved equal to the reduced product (a·b) mod R.
- **Dense polynomials** (`polynomial.dfy`, module `Polynomials`). A coefficient vector together with an explicit `degree`.
  - The only hard invariant is that `coeffs[degree]` exists.
  - Entries stored past `degree` are allowed and several operations see them.
  - The model covers:
    - the constructors;
    - `compute_degree` and `shrink_degree`;
    - Horner `eval`;
    - the custom `==`;
    - `+`, scalar `*`, `-` and the schoolbook `*`;
    - the incremental (Newton-form) `lagrange_interpolation`.
- **Discrete Fourier transform** (`dft.dfy`, module `Dft`). The mathematics the domain relies on:
  - the transform as the values at the powers of a root;
  - the recursive radix-2 decomposition;
  - the orthogonality of the powers of a primitive root;
  - the inversion law.
- **Evaluation domain** (`ft.dfy`, module `Ft`). `EvaluationDomain` is a class. Its coefficient buffer is an `array` that `fft`, `ifft` and `mul_assign` update in place. Also modelled:
  - `compute_omega`, `new` and `from_coeffs`;
  - `serial_fft`: its `bitreverse`, the swap loop and the three nested butterfly loops, each as an imperative method proved against a specification function.
- **KZG prover and verifier** (`kzg.dfy`, module `Kzg`). Modelled in the exponent representation:
  - a G1 or G2 element is its discrete logarithm, the generators are 1, scalar multiplication is field multiplication and the pairing is the product of the logarithms;
  - the model covers `setup`, `commit`, `create_witness` (with the synthetic-division loop), `verify_poly` and `verify_eval`.

What is proved:

- `fft` computes the discrete Fourier transform whenever omega is a primitive 2^exp-th root. `ifft` after `fft`, and `fft` after `ifft`, both give the vector back.
- Multiplying through the domain gives the schoolbook product.
- The bit-reversal step is an involutive permutation.
- On distinct points, `lagrange_interpolation` as written does not panic exactly when every diff before the last is nonzero, and then it passes through every sample.
- Commitments are evaluations at the secret.
- The synthetic division satisfies `p(X) = q(X)(X - x) + p(x)`.
- An honest opening verifies, and every other claimed value is rejected.

## Model

| member | source | states |
|---|---|---|
| `Field.Inverse` | node/src/kzg/ft.rs:71-73 | `invert()`: when it returns c, a·c = 1; when it returns none (the `unwrap` panic), no c has a·c = 1 |
| `Field.InverseUnique` | node/src/kzg/ft.rs:71-73 | exhibiting any c with a·c = 1 determines `invert(a)` to be c |
| `Field.RootIsPrimitive` | node/src/kzg/ft.rs:60 | `root_of_unity()` has order exactly 2^S: its 2^(S-1)-th power is -1 |
| `Field.RootPowerIsPrimitive` | node/src/kzg/ft.rs:59-60 | `root_of_unity()^(2^(S-exp))` is a primitive 2^exp-th root for every exp ≤ S |
| `Field.PrimitiveRootPeriod` | node/src/kzg/ft.rs:59-60 | a primitive 2^l-th root raised to 2^l is 1 |
| `Field.MulIsProduct` | node/src/kzg/polynomial.rs:120 | scalar multiplication, as in `res *= x`, is the integer product reduced mod R |
| `Field.InverseFromProduct` | node/src/kzg/ft.rs:71-73 | a c with a·c ≡ 1 mod R makes `invert(a)` return c |
| `Field.InverseOfFactors` | node/src/kzg/polynomial.rs:139 | `invert()` of a product succeeds only when it succeeds on both factors |
| `Field.PowerInvertible` | node/src/kzg/ft.rs:73 | when c inverts a, `invert(a^e)` returns c^e |
| `Field.SquaresIsSquaresMod` | node/src/kzg/ft.rs:60 | squaring k times in the field agrees with squaring k times on reduced integers |
| `Field.RootSquares` | node/src/kzg/ft.rs:60 | `root_of_unity()` squared 31 times is R - 1 |
| `Polynomials.NumCoeffs` | node/src/kzg/polynomial.rs:94-96 | `num_coeffs` is degree + 1, at least 1 and, on a valid polynomial, within the stored vector |
| `Polynomials.Lead` | node/src/kzg/polynomial.rs:90-92 | `lead` is the last coefficient that counts, and 0 for an `is_zero` polynomial |
| `Polynomials.IsZero` | node/src/kzg/polynomial.rs:29-31 | `is_zero` holds exactly when the only coefficient that counts is 0 |
| `Polynomials.SliceCoeffs` | node/src/kzg/polynomial.rs:107-109 | `slice_coeffs` has `num_coeffs` entries, each the stored coefficient at that index |
| `Polynomials.Degree` | node/src/kzg/polynomial.rs:72-83 | the degree found from `ub` is ≤ ub, every coefficient between it and ub is 0, and it is nonzero only at a nonzero coefficient (index 0 is never examined) |
| `Polynomials.ComputeDegree` | node/src/kzg/polynomial.rs:72-83 | the count-down loop returns that degree, with the same three facts |
| `Polynomials.New` | node/src/kzg/polynomial.rs:61-65 | `new` keeps the vector, takes the degree of all of it, and satisfies the invariant with only zeros above the degree |
| `Polynomials.NewValue` | node/src/kzg/polynomial.rs:61-65 | the polynomial `new` builds evaluates like its whole coefficient vector |
| `Polynomials.Shrunk` | node/src/kzg/polynomial.rs:85-88 | `shrink_degree` keeps the invariant |
| `Polynomials.ShrinkDegree` | node/src/kzg/polynomial.rs:85-88 | the method leaves exactly the shrunk polynomial |
| `Polynomials.ShrunkProperties` | node/src/kzg/polynomial.rs:85-88 | shrinking never raises the degree, leaves the vector untouched, makes the leading coefficient nonzero unless the degree reaches 0, is idempotent and keeps the value |
| `Polynomials.NewZero` | node/src/kzg/polynomial.rs:33-38 | `new_zero` is valid and `is_zero` |
| `Polynomials.FromScalar` | node/src/kzg/polynomial.rs:40-45 | `from_scalar(k)` has degree 0 and the value k everywhere |
| `Polynomials.NewMonicOfDegree` | node/src/kzg/polynomial.rs:47-52 | degree d, every stored coefficient 1, lead 1 |
| `Polynomials.NewZeroWithSize` | node/src/kzg/polynomial.rs:54-59 | degree 0 with cap zeros; the invariant holds exactly when cap ≥ 1 |
| `Polynomials.NewFromCoeffs` | node/src/kzg/polynomial.rs:67-70 | the vector and degree are taken as given; the invariant holds exactly when degree < length |
| `Polynomials.IsZeroMeansVanishes` | node/src/kzg/polynomial.rs:29-31 | an `is_zero` polynomial vanishes everywhere, and for degree 0, `is_zero` holds exactly when the value is 0 |
| `Polynomials.Horner` | node/src/kzg/polynomial.rs:115-124 | the nested form c[0] + x·(c[1] + x·(…)) that `eval` accumulates; at x = 0 it is c[0] |
| `Polynomials.Value` | node/src/kzg/polynomial.rs:115-124 | `eval(x)` is Horner on `slice_coeffs`; it is coeffs[0] at x = 0 and for degree 0 |
| `Polynomials.ValueIsPowerSum` | node/src/kzg/polynomial.rs:115-124 | `eval(x)` is the sum of coeffs[i]·x^i over i ≤ degree |
| `Polynomials.ValueIgnoresJunk` | node/src/kzg/polynomial.rs:115-124 | stored entries past the degree do not affect `eval` |
| `Polynomials.Eval` | node/src/kzg/polynomial.rs:115-124 | the Horner loop from `coeffs[degree]` down computes that value |
| `Polynomials.EvalExample` | node/src/kzg/polynomial.rs:221-239 | `new([34,0,7,4,0,1])` has degree 5 and the values 34, 46 and 3834 at 0, 1 and 5 |
| `Polynomials.Equal` | node/src/kzg/polynomial.rs:13-24 | `==` compares degrees and the common prefix of the stored vectors; on valid polynomials it implies equal `slice_coeffs` |
| `Polynomials.EqualMeansSameValue` | node/src/kzg/polynomial.rs:13-24 | polynomials that are `==` have the same value everywhere |
| `Polynomials.JunkBreaksEquality` | node/src/kzg/polynomial.rs:13-24 | two polynomials with the same value everywhere can be unequal because of junk past the degree |
| `Polynomials.EqualNotTransitive` | node/src/kzg/polynomial.rs:13-26 | because `zip` stops at the shorter vector, `==` is not transitive |
| `Polynomials.SameCoeffsIsEquivalence` | node/src/kzg/polynomial.rs:13-26 | comparing degree and `slice_coeffs` is an equivalence that implies equal values and coincides with `==` on junk-free polynomials |
| `Polynomials.Sum` | node/src/kzg/polynomial.rs:150-166 | `a + b` is built on b when b's degree is strictly larger and on a otherwise: it has that operand's degree and length, unshrunk |
| `Polynomials.AddPoly` | node/src/kzg/polynomial.rs:150-166 | the in-place addition loop yields that sum |
| `Polynomials.SumValue` | node/src/kzg/polynomial.rs:150-166 | the value of a + b is the sum of the values |
| `Polynomials.Scaled` | node/src/kzg/polynomial.rs:168-179 | `p * &k` is exactly `new_zero()` for k = 0, and otherwise keeps the degree and multiplies every stored entry by k |
| `Polynomials.MulScalar` | node/src/kzg/polynomial.rs:168-179 | the `iter_mut` scaling loop yields that polynomial |
| `Polynomials.ScaledValue` | node/src/kzg/polynomial.rs:168-179 | scaling by k multiplies the value by k |
| `Polynomials.Resize` | node/src/kzg/polynomial.rs:187 | `Vec::resize(n, 0)` truncates or pads with zeros to n entries |
| `Polynomials.Widened` | node/src/kzg/polynomial.rs:185-193 | before the shrink, `a - b` has b's degree when b has more coefficients, and a's otherwise, with room for all of b |
| `Polynomials.Difference` | node/src/kzg/polynomial.rs:181-198 | `a - b` is shrunk: degree at most the larger degree, with a nonzero leading coefficient unless the degree is 0 |
| `Polynomials.SubPoly` | node/src/kzg/polynomial.rs:181-198 | the resize, subtraction loop and shrink yield that difference |
| `Polynomials.DifferenceValue` | node/src/kzg/polynomial.rs:181-198 | the value of a - b is the difference of the values when a holds no junk below b's degree |
| `Polynomials.DifferenceSelf` | node/src/kzg/polynomial.rs:181-198 | a - a has degree 0 and value 0 |
| `Polynomials.DifferenceExposesJunk` | node/src/kzg/polynomial.rs:185-193 | junk of a below b's degree becomes coefficients of a - b and breaks the value law |
| `Polynomials.Product` | node/src/kzg/polynomial.rs:200-214 | `a * b` has degree da + db and exactly da + db + 1 stored coefficients, unshrunk |
| `Polynomials.ConvPrefix` | node/src/kzg/polynomial.rs:204-209 | after rows 0..i of the double loop, entry k holds the sum of a[r]·b[k-r] over the rows r < i |
| `Polynomials.MulPoly` | node/src/kzg/polynomial.rs:200-214 | the double accumulation loop yields that product |
| `Polynomials.ConvPrefixValue` | node/src/kzg/polynomial.rs:204-209 | after i rows the accumulated vector evaluates to (a[..i])(x)·b(x) |
| `Polynomials.ProductValue` | node/src/kzg/polynomial.rs:200-214 | the value of a * b is the product of the values |
| `Polynomials.Linear` | node/src/kzg/polynomial.rs:132 | `new_from_coeffs(vec![-x, 1], 1)` has degree 1 and the value t - x at t |
| `Polynomials.LagrangeStep` | node/src/kzg/polynomial.rs:136-145 | one iteration of the loop panics exactly when `base(x)` has no inverse, and otherwise keeps both polynomials valid |
| `Polynomials.LagrangeFrom` | node/src/kzg/polynomial.rs:136-146 | the loop's result, when it does not panic, is valid |
| `Polynomials.Lagrange` | node/src/kzg/polynomial.rs:126-147 | `lagrange_interpolation`, when it does not panic, returns a valid polynomial |
| `Polynomials.LagrangeInterpolation` | node/src/kzg/polynomial.rs:126-147 | the loop that reassigns `poly` and `base` computes that result |
| `Polynomials.NewtonUpdate` | node/src/kzg/polynomial.rs:137-141 | adding base scaled by (y - poly(x))/base(x) makes poly right at x and keeps it right on the points where base vanishes |
| `Polynomials.TimesLinearVanishes` | node/src/kzg/polynomial.rs:143-144 | multiplying base by X - x keeps its zeros and adds x |
| `Polynomials.LagrangeStepInterpolates` | node/src/kzg/polynomial.rs:134-145 | an iteration that does not panic keeps the invariants: poly matches the processed samples and base vanishes on their points |
| `Polynomials.LagrangeFromInterpolates` | node/src/kzg/polynomial.rs:136-146 | from a state that keeps the invariants, a loop that does not panic ends with a polynomial through all samples |
| `Polynomials.LagrangeInterpolates` | node/src/kzg/polynomial.rs:126-147 | whenever `lagrange_interpolation` does not panic, `eval(xs[i]) = ys[i]` for every i |
| `Polynomials.NextBaseValue` | node/src/kzg/polynomial.rs:139-144 | after an iteration as written, base at t is base(t)·diff·(t - x) |
| `Polynomials.LagrangeFromSucceeds` | node/src/kzg/polynomial.rs:136-146 | on distinct points, from a base invertible at the remaining points, the loop as written succeeds exactly when every diff before the last is invertible |
| `Polynomials.LagrangeSucceeds` | node/src/kzg/polynomial.rs:126-147 | on distinct points `lagrange_interpolation` does not panic exactly when every diff before the last is invertible, and then `eval(xs[i]) = ys[i]` for every i |
| `Polynomials.LagrangeTwoSamples` | node/src/kzg/polynomial.rs:126-147 | on two distinct points the loop as written never panics and passes through both samples |
| `Polynomials.LagrangeOnThreeSamples` | node/src/kzg/polynomial.rs:126-147 | on [1, 2, 3] with values [5, 6, 5] the loop as written succeeds and passes through every sample |
| `Polynomials.LagrangePanicsOnCollinearSamples` | node/src/kzg/polynomial.rs:139-144 | on the distinct points [1, 2, 3] with values [5, 5, 5], the loop as written panics |
| `Polynomials.CollinearFirstStep` | node/src/kzg/polynomial.rs:139-144 | at x = 2 the difference is 0, so `base * &diff` collapses to `new_zero()` |
| `Polynomials.CollinearSecondStep` | node/src/kzg/polynomial.rs:139 | the collapsed base vanishes at x = 3, so its value cannot be inverted |
| `Polynomials.LagrangeStepFixed` | node/src/kzg/polynomial.rs:136-145 | the corrected iteration keeps base unscaled, and it fails exactly when `base(x)` has no inverse |
| `Polynomials.LagrangeFromFixed` | node/src/kzg/polynomial.rs:136-146 | the corrected loop's result is valid |
| `Polynomials.LagrangeFixed` | node/src/kzg/polynomial.rs:126-147 | the corrected interpolation returns a valid polynomial when it succeeds |
| `Polynomials.LagrangeStepFixedInterpolates` | node/src/kzg/polynomial.rs:134-145 | on distinct points a corrected iteration succeeds, keeps the invariants, and keeps base invertible at the remaining points |
| `Polynomials.LagrangeFromFixedInterpolates` | node/src/kzg/polynomial.rs:136-146 | on distinct points the corrected loop succeeds and passes through every sample |
| `Polynomials.LagrangeFixedInterpolates` | node/src/kzg/polynomial.rs:126-147 | on distinct points the corrected interpolation never fails and `eval(xs[i]) = ys[i]` for every i |
| `Polynomials.LagrangeFixedOnCollinearSamples` | node/src/kzg/polynomial.rs:126-147 | the corrected interpolation handles [1, 2, 3] with values [5, 5, 5] |
| `Dft.TransformIsSum` | node/src/kzg/ft.rs:143-164 | entry k of the transform by w is the sum over j of x[j]·w^(j·k) |
| `Dft.TransformScale` | node/src/kzg/ft.rs:100-105 | scaling the input by c scales the transform by c |
| `Dft.MergeOfHalves` | node/src/kzg/ft.rs:150-158 | when w^h = -1, merging the transforms of the even and odd halves by w² with the twiddles w^j gives the transform by w |
| `Dft.RecFftIsTransform` | node/src/kzg/ft.rs:143-164 | for a primitive 2^l-th root, the radix-2 recursion the stages compute is the transform |
| `Dft.HalvesTransformed` | node/src/kzg/ft.rs:147-158 | for a primitive 2^l-th root w, the even and odd halves have 2^(l-1) entries and the recursion by w² on each is its transform |
| `Dft.OuterAsColumns` | node/src/kzg/ft.rs:98-106 | the transform by w read at t, as a double sum of x[i]·(w^i t)^k, summed column by column |
| `Dft.Orthogonality` | node/src/kzg/ft.rs:98-106 | summed over a period, the powers of w^i v^j give 2^l when i = j and 0 otherwise |
| `Dft.TransformInverse` | node/src/kzg/ft.rs:98-106 | transforming by a primitive root and then by its inverse multiplies every entry by 2^l |
| `Dft.InverseIsPrimitive` | node/src/kzg/ft.rs:71 | `omegainv` is a primitive root of the same order as omega |
| `Ft.BitRev` | node/src/kzg/ft.rs:124-131 | reversing the l low bits of k gives a number below 2^l |
| `Ft.Bitreverse` | node/src/kzg/ft.rs:124-131 | the shift loop computes the reversal of the l low bits |
| `Ft.BitRevInvolution` | node/src/kzg/ft.rs:124-131 | for k < 2^l, reversing twice gives k back |
| `Ft.BitRevInvolutionAll` | node/src/kzg/ft.rs:124-131 | reversal is an involution on all of 0 ..< 2^l |
| `Ft.Permuted` | node/src/kzg/ft.rs:136-141 | the permuted vector holds at every k the entry at bitreverse(k) |
| `Ft.PermutedSplit` | node/src/kzg/ft.rs:136-141 | bit-reversing a vector puts the bit-reversed even entries first and the odd entries last |
| `Ft.BitReversePermute` | node/src/kzg/ft.rs:133-141 | the swap loop leaves `a'[k] = a[bitreverse(k)]` for every k, and the same multiset of entries |
| `Ft.IterFftOfPermuted` | node/src/kzg/ft.rs:136-164 | the stages applied to the bit-reversed input compute the recursive radix-2 transform |
| `Ft.Butterflies` | node/src/kzg/ft.rs:149-158 | the j loop turns a[k..k+2m] into the merge of its halves with the twiddles w_m^j and leaves the rest alone |
| `Ft.Stage` | node/src/kzg/ft.rs:147-161 | the `while k < n` loop merges every block of 2m entries |
| `Ft.StageSizes` | node/src/kzg/ft.rs:145 | at stage s, n / (2m) is 2^(log_n - s - 1), and n is a whole number of blocks of 2m |
| `Ft.SerialFft` | node/src/kzg/ft.rs:123-165 | for `|a| = 2^log_n`, the permutation followed by the log_n stages with `w_m = omega^(n/(2m))` computes the radix-2 transform of the input, for every omega |
| `Ft.DomainUnique` | node/src/kzg/ft.rs:42-57 | the smallest power-of-two domain holding d points is unique |
| `Ft.ComputeOmega` | node/src/kzg/ft.rs:42-63 | fails with `PolynomialDegreeTooLarge` exactly when d > 2^(S-1); otherwise returns the smallest m = 2^exp ≥ d (so d ≤ 1 gives m = 1), with exp < S and omega = ROOT^(2^(S-exp)), a primitive 2^exp-th root |
| `Ft.GeneratorInvertible` | node/src/kzg/ft.rs:72 | the inverse of the multiplicative generator exists and is the constant `geninv` holds |
| `Ft.SizeInvertible` | node/src/kzg/ft.rs:73 | the field image of a domain size 2^e is invertible, with inverse (1/2)^e |
| `Ft.TwoInvertible` | node/src/kzg/ft.rs:73 | (R + 1)/2, the constant `TWO_INV`, times 2 is 1, so the size 2 of the smallest proper domain is invertible |
| `Ft.PrimitiveInvertible` | node/src/kzg/ft.rs:71 | a primitive 2^l-th root is invertible, with inverse w^(2^l - 1) |
| `Ft.Pointwise` | node/src/kzg/ft.rs:109-115 | entry i of the pointwise product is u[i]·v[i] |
| `Ft.ScaleInPlace` | node/src/kzg/ft.rs:100-105 | the scaling loop of `ifft` multiplies every entry by `minv` |
| `Ft.EvaluationDomain.New` | node/src/kzg/ft.rs:65-75 | `new` stores the vector, d, exp and omega, and the inverses of omega, of the generator and of d |
| `Ft.EvaluationDomain.FromCoeffs` | node/src/kzg/ft.rs:77-92 | fails with `PolynomialDegreeTooLarge` exactly when |v| > 2^(S-1); otherwise returns a fresh valid domain of the smallest size m holding v, whose buffer is v padded with zeros, with d = m, omega = ROOT^(2^(S-exp)), omega·omegainv = 1 and m·minv = 1 |
| `Ft.EvaluationDomain.PadAndBuild` | node/src/kzg/ft.rs:80-92 | the success path of `from_coeffs`: the zero-padded vector with all the inverses |
| `Ft.EvaluationDomain.Fft` | node/src/kzg/ft.rs:94-96 | `fft` replaces the buffer by its radix-2 transform by omega, which on a valid domain is the transform |
| `Ft.EvaluationDomain.Ifft` | node/src/kzg/ft.rs:98-106 | `ifft` replaces the buffer by its transform by omegainv scaled by minv |
| `Ft.EvaluationDomain.MulAssign` | node/src/kzg/ft.rs:109-115 | same lengths required; the buffer becomes the pointwise product with other's buffer, and other's buffer is unchanged unless it is the same array |
| `Ft.EvaluationDomain.ToPolynomial` | node/src/kzg/ft.rs:22-26 | `Polynomial::from(domain)` is `new` on the buffer: it evaluates like the whole buffer |
| `Ft.ScaleCancel` | node/src/kzg/ft.rs:98-106 | scaling by c and then by its inverse gives the vector back |
| `Ft.DomainRoundTrip` | node/src/kzg/ft.rs:94-106 | on a domain's vectors, `ifft` after `fft` and `fft` after `ifft` both give the vector back exactly |
| `Ft.FftComposition` | node/src/kzg/ft.rs:197-223 | for every vector that fits a domain, `ifft` then `fft`, and then `fft` then `ifft`, each leave the zero-padded vector |
| `Ft.PaddedCoeffs` | node/src/kzg/ft.rs:80-81 | the coefficients up to the degree, zero-padded to n entries |
| `Ft.PaddedValue` | node/src/kzg/ft.rs:80-81 | zero padding keeps the value |
| `Ft.FftMultiplication` | node/src/kzg/ft.rs:172-195 | padding both operands to 2^l > da + db entries, transforming, multiplying pointwise and transforming back gives the padded schoolbook product |
| `Ft.DomainProduct` | node/src/kzg/ft.rs:172-195 | `from_coeffs`, `fft` on both, `mul_assign` and `ifft` on operands padded to da + db + 1 entries fail exactly when that exceeds 2^(S-1), and otherwise give the schoolbook product, zero-padded |
| `Kzg.PowersOf` | node/src/kzg/mod.rs:49-62 | the running-`curr` loop fills the n entries with 1, s, s², …, s^(n-1) |
| `Kzg.Setup` | node/src/kzg/mod.rs:45-65 | with n ≥ 1 (gs[0] is read), gs and hs both have n entries with gs[i] = hs[i] = s^i |
| `Kzg.Msm` | node/src/kzg/mod.rs:92 | the multi-scalar multiplication sums scalars[i]·bases[i]; all-zero scalars give the identity |
| `Kzg.MsmOfPowers` | node/src/kzg/mod.rs:92 | the multi-scalar multiplication against 1, s, s², … is the power sum at s |
| `Kzg.Commit` | node/src/kzg/mod.rs:82-95 | the MSM over exactly `num_coeffs` bases and `slice_coeffs`; over parameters from s it is the value of p at the secret |
| `Kzg.VerifyPoly` | node/src/kzg/mod.rs:128-141 | `verify_poly(c, p)` holds exactly when c is `commit(p)`, and over parameters from s exactly when c is p's value at s |
| `Kzg.Synthetic` | node/src/kzg/mod.rs:106-113 | the quotient has one coefficient fewer than the dividend |
| `Kzg.Quotient` | node/src/kzg/mod.rs:103-107 | the quotient has degree one less than p, is not shrunk, and stores exactly `degree` coefficients |
| `Kzg.SyntheticDivides` | node/src/kzg/mod.rs:106-113 | c(t) = q(t)·(t - x) + c(x) for the synthetic quotient q |
| `Kzg.QuotientIdentity` | node/src/kzg/mod.rs:106-113 | p(X) = q(X)·(X - x) + p(x) |
| `Kzg.Divide` | node/src/kzg/mod.rs:106-113 | the reverse loop setting q[i-1] = r[i] and r[i-1] += x·r[i] leaves that quotient, and r[0] = p(x) |
| `Kzg.CreateWitness` | node/src/kzg/mod.rs:97-120 | for degree ≥ 1, the witness is the commitment to the quotient in both branches, and is the same for every claimed y |
| `Kzg.ConstantCommit` | node/src/kzg/mod.rs:115-119 | gs[0]·q[0] is the commitment to a constant quotient |
| `Kzg.VerifyEval` | node/src/kzg/mod.rs:143-160 | the pairing check e(w, hs[1] - x·hs[0]) = e(c - y·gs[0], hs[0]); with the generators at index 0 it is w·(hs[1] - x) = c - y |
| `Kzg.VerifyEvalMeaning` | node/src/kzg/mod.rs:143-160 | over a setup from s, `verify_eval` accepts exactly when w·(s - x) = c - y |
| `Kzg.EvalCompleteness` | node/src/kzg/mod.rs:299-303 | the commitment, the true value `eval(x)` and the witness `create_witness` returns always verify |
| `Kzg.WrongValueRejected` | node/src/kzg/mod.rs:305-306 | against the same commitment and witness, every y different from p(x) is rejected |

## Left out

- Field: the core uses two scalar fields. `mod.rs` uses the BN254 one and `polynomial.rs`/`ft.rs` use the BLS12-381 one. The model uses the BLS12-381 modulus throughout. No lemma in `kzg.dfy` computes with the value of R, and the field laws it relies on (commutativity, associativity, distributivity, inverses) hold for every prime modulus, so its results carry over to the BN254 field. The constants ROOT, GENERATOR_INV and TWO_INV, and the lemmas that compute with them (`Field.RootSquares`, `Field.RootIsPrimitive` and through it `Ft.ComputeOmega`, `Ft.EvaluationDomain.FromCoeffs` and the domain round trips, `Ft.GeneratorInvertible`, `Ft.TwoInvertible`, `Polynomials.SmallPointsDistinct`), are specific to the BLS12-381 R.
- Field: the primality of R is not proved. Where the source relies on "nonzero means invertible", the model states the invertibility it needs. For interpolation, that means the pairwise differences of the points.
- Field: Montgomery representation, `pow_vartime` limbs and the curve arithmetic are not modelled.
- Kzg: group elements, MSM and the pairing are in the exponent model. Projective/affine conversions are not modelled.
- Kzg: computational binding is not modelled. `verify_poly` rejects another polynomial only when its value at s differs.
- Kzg: `KZGProver` and `KZGVerifier` only hold a reference to `KZGParams`, so their methods take the parameters as an argument.
- Polynomials: the seven-point case of `test_interpolation` (polynomial.rs:253-265) is not computed: its diffs are field quotients of 255-bit values. `Polynomials.LagrangeSucceeds` states when such a run succeeds, and `Polynomials.LagrangeOnThreeSamples` is a smaller computed instance.
- Kzg: the RNG-driven tests (`random_polynomial`, `random_field_elem_neq`) are covered by the all-inputs lemmas instead.
- Kzg.Commit, Kzg.VerifyPoly and Kzg.CreateWitness require `num_coeffs ≤ |gs|`. That is the slice bound whose violation panics. `Kzg.VerifyEval` requires `|hs| ≥ 2` and `|gs| ≥ 1` for the same reason.
- Kzg.CreateWitness: the subtraction of y from `dividend` is modelled, but `dividend` is never read again, so y does not reach the result. Degree 0 is excluded because `degree - 1` underflows.
- Ft: `best_fft` is modelled as the `serial_fft` it calls.
- Ft: the `u32` arithmetic of `serial_fft` and `bitreverse` is not modelled bit by bit. Instead `Ft.SerialFft`, `Ft.BitReversePermute` and `Ft.Bitreverse` require log_n < 32, under which no shift or product overflows.
- Ft: `Fft` and `Ifft` require the buffer length to be 2^exp with exp < 32. That is the `assert_eq!(n, 1 << log_n)` of `serial_fft`.
- Ft: the slice views `as_ref`/`as_mut` are not modelled.
- Ft.EvaluationDomain.New: requires omega and d to be invertible, so it excludes the two `invert().unwrap()` panics of `new` (for example d = 0 or omega = 0), because a constructor cannot return an error. `new` has no caller in the source; `from_coeffs` builds its domain directly, and there both inverses exist (`Ft.PrimitiveInvertible`, `Ft.SizeInvertible`).
- Ft: `geninv` is carried and proved to be the inverse of 7, but nothing uses it, as in the source.
- Ft: `Polynomial::fft_mul` is not defined in the source. `Ft.DomainProduct` restates the `polynomial_arith` test's claim using the domain operations on operands padded to da + db + 1 entries.
- Ft: the loops of `serial_fft` are split into the methods `Ft.BitReversePermute`, `Ft.Butterflies` and `Ft.Stage`. The loop of `ifft` is `Ft.ScaleInPlace`, and the success path of `from_coeffs` is `Ft.EvaluationDomain.PadAndBuild`.
- Polynomials: polynomials are values, so `shrink_degree` and the operators that consume `self` return the new polynomial.
- Polynomials.Difference: states the degree bound and the shrink but not the coefficients. Those follow from `Polynomials.Widened` and `Polynomials.DifferenceValue`.
- Polynomials: `coeffs()` (truncate and return) and `iter_coeffs` are not modelled separately. They expose what `Polynomials.SliceCoeffs` describes.
- The benches and `node/src/bin/melon.rs` (setup plumbing, serialisation and file output) are not part of this model.

## Findings

| source | as written | input that shows it | evidently intended | confidence | as-written member | corrected member |
|---|---|---|---|---|---|---|
| node/src/kzg/polynomial.rs:139-144 | `base` is scaled by `diff` before it is multiplied by X - x, so a zero `diff` turns it into the zero polynomial and the next `invert().unwrap()` panics | xs = [1, 2, 3], ys = [5, 5, 5] | Newton interpolation: only the copy added to `poly` is scaled, so `base` stays (X - x0)…(X - x_{i-1}) and interpolation succeeds on any distinct points | not executed | `Polynomials.LagrangePanicsOnCollinearSamples` | `Polynomials.LagrangeFixedInterpolates` |
| node/src/kzg/polynomial.rs:13-26 | `==` zips the stored vectors, which stops at the shorter one, yet `Eq` is implemented | a = (degree 0, [1]), b = (degree 0, [1, 2]), c = (degree 0, [1, 3]): a == b and a == c but b != c | compare the coefficients that count (`slice_coeffs`), which is an equivalence | not executed | `Polynomials.EqualNotTransitive` | `Polynomials.SameCoeffsIsEquivalence` |

/**
 * KZG polynomial commitments in the exponent representation: a group
 * element k * G is represented by its discrete logarithm k, so that scalar
 * multiplication is field multiplication, the group law is field addition
 * and the pairing e(a * G1, b * G2) is a * b.
 */
module Kzg {
  import opened Field
  import opened Polynomials

  /** The library's error enum. */
  datatype KZGError = NoPolynomial | PointNotOnPolynomial | BatchOpeningZeroRemainder | PolynomialDegreeTooLarge

  datatype Result<T> = Ok(value: T) | Err(error: KZGError)

  // ---------------------------------------------------------------------
  // Parameters (`setup`)
  // ---------------------------------------------------------------------

  /**
   * `KZGParams`: gs in G1 and hs in G2, each as the discrete logarithm of the
   * element. The provers and verifiers only hold a reference to these.
   */
  datatype Params = Params(gs: seq<Scalar>, hs: seq<Scalar>)

  /** The discrete logarithm of the fixed generators of G1 and G2. */
  const GEN: Scalar := 1

  /** Parameters generated from the secret s: both vectors are 1, s, s^2, ... */
  ghost predicate FromSecret(params: Params, s: Scalar)
  {
    |params.gs| == |params.hs| >= 1 &&
    forall i :: 0 <= i < |params.gs| ==> params.gs[i] == Pow(s, i) && params.hs[i] == Pow(s, i)
  }

  /**
   * One of the two loops of `setup`: n copies of the generator, then every
   * entry after the first replaced by s times the entry before it.
   */
  method PowersOf(s: Scalar, n: nat) returns (v: seq<Scalar>)
    requires n >= 1
    ensures |v| == n && forall i :: 0 <= i < n ==> v[i] == Pow(s, i)
  {
    v := seq(n, _ => GEN);
    var curr := v[0];
    var i := 1;
    while i < n
      invariant 1 <= i <= n && |v| == n && curr == Pow(s, i - 1)
      invariant forall j :: 0 <= j < i ==> v[j] == Pow(s, j)
    {
      MulComm(curr, s);
      v := v[i := Mul(curr, s)];
      curr := v[i];
      i := i + 1;
    }
  }

  /** `setup`: reads gs[0], so at least one entry is needed. */
  method Setup(s: Scalar, n: nat) returns (params: Params)
    requires n >= 1
    ensures FromSecret(params, s) && |params.gs| == n
  {
    var gs := PowersOf(s, n);
    var hs := PowersOf(s, n);
    params := Params(gs, hs);
  }

  // ---------------------------------------------------------------------
  // Commitments
  // ---------------------------------------------------------------------

  /**
   * The multi-scalar multiplication: the sum of scalars[i] times bases[i].
   * All-zero scalars give the identity element.
   */
  function Msm(bases: seq<Scalar>, scalars: seq<Scalar>): (r: Scalar)
    requires |bases| == |scalars|
    ensures (forall i :: 0 <= i < |scalars| ==> scalars[i] == 0) ==> r == 0
    decreases |bases|
  {
    if |bases| == 0 then 0
    else
      MulZero(bases[|bases| - 1]);
      Add(Msm(bases[..|bases| - 1], scalars[..|scalars| - 1]), Mul(scalars[|scalars| - 1], bases[|bases| - 1]))
  }

  /** Over the powers of s the multi-scalar multiplication is the power sum at s. */
  lemma {:induction false} MsmOfPowers(bases: seq<Scalar>, c: seq<Scalar>, s: Scalar)
    requires |bases| == |c| && forall i :: 0 <= i < |bases| ==> bases[i] == Pow(s, i)
    ensures Msm(bases, c) == PowerSum(c, s)
    decreases |c|
  {
    if |c| > 0 {
      MsmOfPowers(bases[..|bases| - 1], c[..|c| - 1], s);
    }
  }

  /**
   * `commit`: the first num_coeffs entries of gs against the stored
   * coefficients up to the degree. Over parameters from s it is the value
   * of p at the secret.
   */
  function Commit(params: Params, p: Polynomial): (c: Scalar)
    requires Valid(p) && NumCoeffs(p) <= |params.gs|
    ensures forall s :: FromSecret(params, s) ==> c == Value(p, s)
  {
    var c := Msm(params.gs[..NumCoeffs(p)], SliceCoeffs(p));
    assert forall s | FromSecret(params, s) :: c == Value(p, s) by {
      forall s | FromSecret(params, s)
        ensures c == Value(p, s)
      {
        MsmOfPowers(params.gs[..NumCoeffs(p)], SliceCoeffs(p), s);
        ValueIsPowerSum(p, s);
      }
    }
    c
  }

  /**
   * `verify_poly`: recompute the commitment and compare. It accepts exactly
   * `commit(p)`, which over parameters from s is the value of p at s.
   */
  function VerifyPoly(params: Params, commitment: Scalar, p: Polynomial): (ok: bool)
    requires Valid(p) && NumCoeffs(p) <= |params.gs|
    ensures ok <==> commitment == Commit(params, p)
    ensures forall s :: FromSecret(params, s) ==> (ok <==> commitment == Value(p, s))
  {
    Msm(params.gs[..NumCoeffs(p)], SliceCoeffs(p)) == commitment
  }

  // ---------------------------------------------------------------------
  // Opening proofs (`create_witness`, `verify_eval`)
  // ---------------------------------------------------------------------

  /** The coefficients of (c(X) - c(x)) / (X - x): entry k is the Horner value of c[k+1..] at x. */
  function Synthetic(c: seq<Scalar>, x: Scalar): (q: seq<Scalar>)
    requires |c| >= 1
    ensures |q| == |c| - 1
  {
    seq(|c| - 1, k requires 0 <= k < |c| - 1 => Horner(c[k + 1..], x))
  }

  /** The quotient `create_witness` builds: degree one less than p, not shrunk. */
  function Quotient(p: Polynomial, x: Scalar): (q: Polynomial)
    requires Valid(p) && p.degree >= 1
    ensures Valid(q) && q.degree == p.degree - 1 && |q.coeffs| == p.degree
  {
    Polynomial(p.degree - 1, Synthetic(SliceCoeffs(p), x))
  }

  /** c(t) = q(t) * (t - x) + c(x) for the synthetic quotient q. */
  lemma {:induction false} SyntheticDivides(c: seq<Scalar>, x: Scalar, t: Scalar)
    requires |c| >= 1
    ensures Horner(c, t) == Add(Mul(Horner(Synthetic(c, x), t), Sub(t, x)), Horner(c, x))
    decreases |c|
  {
    if |c| == 1 {
      assert c[1..] == [];
      MulZero(Sub(t, x));
    } else {
      var c' := c[1..];
      assert Synthetic(c, x) == [Horner(c', x)] + Synthetic(c', x) by {
        forall k | 0 <= k < |c| - 1
          ensures Synthetic(c, x)[k] == ([Horner(c', x)] + Synthetic(c', x))[k]
        {
          if k > 0 {
            assert c[k + 1..] == c'[k..];
          }
        }
      }
      SyntheticDivides(c', x, t);
      assert ([Horner(c', x)] + Synthetic(c', x))[1..] == Synthetic(c', x);
      DivisionAlgebra(c[0], Horner(c', x), Horner(Synthetic(c', x), t), Horner(c', t), t, x);
    }
  }

  /**
   * The step of the induction: with h' = c'(t) = q'(t)(t - x) + c'(x),
   * c0 + t h' = (c'(x) + t q'(t))(t - x) + (c0 + x c'(x)).
   */
  lemma DivisionAlgebra(c0: Scalar, hx: Scalar, qt: Scalar, ht: Scalar, t: Scalar, x: Scalar)
    requires ht == Add(Mul(qt, Sub(t, x)), hx)
    ensures Add(c0, Mul(t, ht)) == Add(Mul(Add(hx, Mul(t, qt)), Sub(t, x)), Add(c0, Mul(x, hx)))
  {
    var d := Sub(t, x);
    var a, b, e := Mul(t, hx), Mul(x, hx), Mul(t, Mul(qt, d));
    calc {
      Mul(Add(hx, Mul(t, qt)), d);
      { MulComm(Add(hx, Mul(t, qt)), d); }
      Mul(d, Add(hx, Mul(t, qt)));
      { MulAddDistr(d, hx, Mul(t, qt)); }
      Add(Mul(d, hx), Mul(d, Mul(t, qt)));
      { MulComm(d, hx); MulSubDistr(hx, t, x); MulComm(hx, t); MulComm(hx, x); }
      Add(Sub(a, b), Mul(d, Mul(t, qt)));
      { MulComm(d, Mul(t, qt)); MulAssoc(t, qt, d); }
      Add(Sub(a, b), e);
    }
    MulAddDistr(t, Mul(qt, d), hx);
    AddRearrange(c0, a, b, e);
  }

  lemma AddRearrange(c0: Scalar, a: Scalar, b: Scalar, e: Scalar)
    ensures Add(c0, Add(e, a)) == Add(Add(Sub(a, b), e), Add(c0, b))
  {
  }

  /** The division identity for polynomials: p(X) = q(X) (X - x) + p(x). */
  lemma QuotientIdentity(p: Polynomial, x: Scalar, t: Scalar)
    requires Valid(p) && p.degree >= 1
    ensures Value(p, t) == Add(Mul(Value(Quotient(p, x), t), Sub(t, x)), Value(p, x))
  {
    var q := Quotient(p, x);
    assert SliceCoeffs(q) == Synthetic(SliceCoeffs(p), x);
    SyntheticDivides(SliceCoeffs(p), x, t);
  }

  lemma HornerFrom(c: seq<Scalar>, k: nat, k1: nat, x: Scalar)
    requires k1 == k + 1 <= |c|
    ensures Horner(c[k..], x) == Add(c[k], Mul(x, Horner(c[k1..], x)))
  {
    assert c[k..][1..] == c[k1..];
  }

  /**
   * The state of the synthetic division with entries i.. of the remainder r
   * done: below i, r still holds c; from i on, r[j] is the Horner value of
   * c[j..] at x; and the quotient q holds r[j + 1] from i on.
   */
  ghost predicate Dividing(r: seq<Scalar>, q: seq<Scalar>, c: seq<Scalar>, x: Scalar, i: nat)
  {
    i < |c| <= |r| && |q| == |c| - 1 &&
    (forall j :: 0 <= j < i ==> r[j] == c[j]) &&
    (forall j :: i <= j < |c| ==> r[j] == Horner(c[j..], x)) &&
    (forall j :: i <= j < |q| ==> q[j] == r[j + 1])
  }

  lemma DivideStart(r: seq<Scalar>, q: seq<Scalar>, c: seq<Scalar>, x: Scalar, d: nat)
    requires |c| == d + 1 <= |r| && |q| == d && r[..d + 1] == c
    ensures Dividing(r, q, c, x, d)
  {
    assert c[d..] == [c[d]];
    HornerSingle(c[d], x);
  }

  lemma DivideStep(r: seq<Scalar>, q: seq<Scalar>, c: seq<Scalar>, x: Scalar, i: nat, k: nat)
    requires Dividing(r, q, c, x, i) && i >= 1 && k + 1 == i
    ensures Dividing(r[k := Add(r[k], Mul(x, r[i]))], q[k := r[i]], c, x, k)
  {
    HornerFrom(c, k, i, x);
  }

  lemma DivideEnd(r: seq<Scalar>, q: seq<Scalar>, c: seq<Scalar>, x: Scalar)
    requires Dividing(r, q, c, x, 0) && |c| >= 1
    ensures q == Synthetic(c, x) && r[0] == Horner(c, x)
  {
    assert c[0..] == c;
  }

  /**
   * The synthetic-division loop of `create_witness`: for i from the degree
   * down to 1, q[i-1] := r[i] and r[i-1] += x * r[i], on a copy r of p.
   * Afterwards q is the quotient and r[0] is p(x).
   */
  method Divide(p: Polynomial, x: Scalar) returns (divpoly: Polynomial, remainder: Polynomial)
    requires Valid(p) && p.degree >= 1
    ensures divpoly == Quotient(p, x)
    ensures |remainder.coeffs| == |p.coeffs| && remainder.coeffs[0] == Value(p, x)
  {
    ghost var c := SliceCoeffs(p);
    var degree := p.degree;
    remainder := p;
    divpoly := NewFromCoeffs(Zeros(degree), degree - 1);
    DivideStart(remainder.coeffs, divpoly.coeffs, c, x, degree);
    var i: nat := degree;
    while i >= 1
      invariant i <= degree && |remainder.coeffs| == |p.coeffs| && divpoly.degree == degree - 1
      invariant Dividing(remainder.coeffs, divpoly.coeffs, c, x, i)
    {
      var k: nat := i - 1;
      var factor := remainder.coeffs[i];
      DivideStep(remainder.coeffs, divpoly.coeffs, c, x, i, k);
      divpoly := divpoly.(coeffs := divpoly.coeffs[k := factor]);
      remainder := remainder.(coeffs := remainder.coeffs[k := Add(remainder.coeffs[k], Mul(x, factor))]);
      i := k;
    }
    DivideEnd(remainder.coeffs, divpoly.coeffs, c, x);
  }

  /** What `create_witness` returns: the commitment to the quotient. */
  function Witness(params: Params, p: Polynomial, x: Scalar): Scalar
    requires Valid(p) && 1 <= p.degree <= |params.gs|
  {
    Commit(params, Quotient(p, x))
  }

  /**
   * `create_witness`: divides p by X - x and commits to the quotient, with a
   * single multiplication by gs[0] when the quotient is a constant. The
   * claimed value y only ever reaches the unused `dividend`, so the witness
   * is the same for every y.
   */
  method CreateWitness(params: Params, p: Polynomial, x: Scalar, y: Scalar) returns (r: Result<Scalar>)
    requires Valid(p) && 1 <= p.degree <= |params.gs|
    ensures r == Ok(Witness(params, p, x))
  {
    var dividend := p;
    var degree := dividend.degree;
    dividend := dividend.(coeffs := dividend.coeffs[0 := Sub(dividend.coeffs[0], y)]);
    var divpoly, remainder := Divide(p, x);
    if NumCoeffs(divpoly) == 1 {
      ConstantCommit(params, divpoly);
      r := Ok(Mul(params.gs[0], divpoly.coeffs[0]));
    } else {
      r := Ok(Commit(params, divpoly));
    }
  }

  /** The commitment to a constant is gs[0] times the constant. */
  lemma ConstantCommit(params: Params, q: Polynomial)
    requires Valid(q) && q.degree == 0 && |params.gs| >= 1
    ensures Commit(params, q) == Mul(params.gs[0], q.coeffs[0])
  {
    var g, c := params.gs[..1], SliceCoeffs(q);
    assert g[..0] == [] && c[..0] == [];
    assert Msm(g, c) == Add(0, Mul(c[0], g[0]));
    MulComm(c[0], g[0]);
  }

  /** `verify_eval`: e(w, hs[1] - x hs[0]) == e(c - y gs[0], hs[0]). */
  function VerifyEval(params: Params, x: Scalar, y: Scalar, commitment: Scalar, proof: Scalar): (ok: bool)
    requires |params.gs| >= 1 && |params.hs| >= 2
    ensures params.gs[0] == 1 && params.hs[0] == 1 ==>
      (ok <==> Mul(proof, Sub(params.hs[1], x)) == Sub(commitment, y))
  {
    MulOne(x);
    MulOne(y);
    MulOne(Sub(commitment, y));
    Mul(proof, Sub(params.hs[1], Mul(params.hs[0], x))) == Mul(Sub(commitment, Mul(params.gs[0], y)), params.hs[0])
  }

  /** Over parameters from s, `verify_eval` checks w (s - x) = c - y. */
  lemma VerifyEvalMeaning(params: Params, s: Scalar, x: Scalar, y: Scalar, c: Scalar, w: Scalar)
    requires FromSecret(params, s) && |params.hs| >= 2
    ensures VerifyEval(params, x, y, c, w) <==> Mul(w, Sub(s, x)) == Sub(c, y)
  {
    assert params.hs[0] == 1 && params.gs[0] == 1;
    PowTwo(s);
  }

  /** An honest opening verifies: y = p(x) with the witness `create_witness` computes. */
  lemma EvalCompleteness(params: Params, s: Scalar, p: Polynomial, x: Scalar)
    requires FromSecret(params, s) && |params.hs| >= 2
    requires Valid(p) && 1 <= p.degree && NumCoeffs(p) <= |params.gs|
    ensures VerifyEval(params, x, Value(p, x), Commit(params, p), Witness(params, p, x))
  {
    QuotientIdentity(p, x, s);
    VerifyEvalMeaning(params, s, x, Value(p, x), Commit(params, p), Witness(params, p, x));
  }

  /** Against the same commitment and witness, every other claimed value is rejected. */
  lemma WrongValueRejected(params: Params, s: Scalar, p: Polynomial, x: Scalar, y: Scalar)
    requires FromSecret(params, s) && |params.hs| >= 2
    requires Valid(p) && 1 <= p.degree && NumCoeffs(p) <= |params.gs|
    requires y != Value(p, x)
    ensures !VerifyEval(params, x, y, Commit(params, p), Witness(params, p, x))
  {
    var c, w := Commit(params, p), Witness(params, p, x);
    EvalCompleteness(params, s, p, x);
    VerifyEvalMeaning(params, s, x, Value(p, x), c, w);
    VerifyEvalMeaning(params, s, x, y, c, w);
  }
}

/**
 * Dense polynomials over the scalar field: a coefficient vector (lowest power
 * first) together with an explicit `degree`.  The one hard invariant is that
 * `coeffs[degree]` exists; "the leading coefficient is nonzero" is only
 * re-established by `ShrinkDegree`, and stored entries past `degree` are
 * allowed (they are ignored by evaluation but not by every operation).
 *
 * The Rust type is an owned value; operations that take `self` by value or
 * by `&mut` are modelled as methods that return the new value.
 */
module Polynomials {
  import opened Field

  datatype Polynomial = Polynomial(degree: nat, coeffs: seq<Scalar>)

  /** `coeffs[degree]` exists. */
  predicate Valid(p: Polynomial)
  {
    p.degree < |p.coeffs|
  }

  function Zeros(n: nat): (r: seq<Scalar>)
    ensures |r| == n && forall i :: 0 <= i < n ==> r[i] == 0
  {
    seq(n, _ => 0)
  }

  // ---------------------------------------------------------------------
  // Evaluation: the meaning of a coefficient sequence
  // ---------------------------------------------------------------------

  /** c[0] + x*(c[1] + x*(c[2] + ...)); at x = 0 only the constant term is left. */
  function Horner(c: seq<Scalar>, x: Scalar): (r: Scalar)
    ensures |c| > 0 && x == 0 ==> r == c[0]
  {
    if |c| == 0 then 0
    else
      var h := Horner(c[1..], x);
      MulZero(h);
      Add(c[0], Mul(x, h))
  }

  /** Sum over i of c[i] * x^i, accumulated from the highest index down. */
  function PowerSum(c: seq<Scalar>, x: Scalar): Scalar
  {
    if |c| == 0 then 0 else Add(PowerSum(c[..|c| - 1], x), Mul(c[|c| - 1], Pow(x, |c| - 1)))
  }

  /** `num_coeffs`: the count of coefficients up to the degree, never beyond the stored vector. */
  function NumCoeffs(p: Polynomial): (n: nat)
    ensures n == p.degree + 1
    ensures Valid(p) ==> 1 <= n <= |p.coeffs|
  {
    p.degree + 1
  }

  /** The coefficients that count: indices 0 ..= degree. */
  function SliceCoeffs(p: Polynomial): (s: seq<Scalar>)
    requires Valid(p)
    ensures |s| == NumCoeffs(p)
    ensures forall i :: 0 <= i < |s| ==> s[i] == p.coeffs[i]
  {
    p.coeffs[..NumCoeffs(p)]
  }

  /** The value of p at x, as `eval` computes it. */
  function Value(p: Polynomial, x: Scalar): (r: Scalar)
    requires Valid(p)
    ensures x == 0 ==> r == p.coeffs[0]
    ensures p.degree == 0 ==> r == p.coeffs[0]
  {
    if p.degree == 0 then
      assert SliceCoeffs(p) == [p.coeffs[0]];
      HornerSingle(p.coeffs[0], x);
      Horner(SliceCoeffs(p), x)
    else
      Horner(SliceCoeffs(p), x)
  }

  lemma HornerSingle(k: Scalar, x: Scalar)
    ensures Horner([k], x) == k
  {
    assert [k][1..] == [];
  }

  lemma {:induction false} HornerConcat(u: seq<Scalar>, v: seq<Scalar>, x: Scalar)
    ensures Horner(u + v, x) == Add(Horner(u, x), Mul(Pow(x, |u|), Horner(v, x)))
  {
    if |u| == 0 {
      assert u + v == v;
      MulOne(Horner(v, x));
      assert Mul(1, Horner(v, x)) == Horner(v, x);
    } else {
      assert (u + v)[1..] == u[1..] + v;
      HornerConcat(u[1..], v, x);
      var hv := Horner(v, x);
      var hu := Horner(u[1..], x);
      var p := Pow(x, |u| - 1);
      calc {
        Horner(u + v, x);
        Add(u[0], Mul(x, Add(hu, Mul(p, hv))));
        { MulAddDistr(x, hu, Mul(p, hv)); }
        Add(u[0], Add(Mul(x, hu), Mul(x, Mul(p, hv))));
        { MulAssoc(x, p, hv); }
        Add(Add(u[0], Mul(x, hu)), Mul(Pow(x, |u|), hv));
      }
    }
  }

  lemma {:induction false} HornerZeros(n: nat, x: Scalar)
    ensures Horner(Zeros(n), x) == 0
  {
    if n > 0 {
      assert Zeros(n)[1..] == Zeros(n - 1);
      HornerZeros(n - 1, x);
    }
  }

  /** Trailing zero coefficients do not change the value. */
  lemma HornerTrailingZeros(c: seq<Scalar>, n: nat, x: Scalar)
    ensures Horner(c + Zeros(n), x) == Horner(c, x)
  {
    HornerConcat(c, Zeros(n), x);
    HornerZeros(n, x);
    MulZero(Pow(x, |c|));
  }

  lemma {:induction false} HornerIsPowerSum(c: seq<Scalar>, x: Scalar)
    ensures Horner(c, x) == PowerSum(c, x)
    decreases |c|
  {
    if |c| > 0 {
      var init, last := c[..|c| - 1], c[|c| - 1];
      assert c == init + [last];
      HornerConcat(init, [last], x);
      HornerIsPowerSum(init, x);
      HornerSingle(last, x);
      MulComm(Pow(x, |init|), last);
    }
  }

  /** `eval` is the sum of coeffs[i] * x^i over i = 0 ..= degree. */
  lemma ValueIsPowerSum(p: Polynomial, x: Scalar)
    requires Valid(p)
    ensures Value(p, x) == PowerSum(p.coeffs[..p.degree + 1], x)
  {
    HornerIsPowerSum(SliceCoeffs(p), x);
  }

  /** Stored entries past `degree` do not affect the value. */
  lemma ValueIgnoresJunk(p: Polynomial, q: Polynomial, x: Scalar)
    requires Valid(p) && Valid(q) && p.degree == q.degree
    requires forall i :: 0 <= i <= p.degree ==> p.coeffs[i] == q.coeffs[i]
    ensures Value(p, x) == Value(q, x)
  {
    assert SliceCoeffs(p) == SliceCoeffs(q);
  }

  /** `eval`: Horner's rule from the coefficient at `degree` down. */
  method Eval(p: Polynomial, x: Scalar) returns (res: Scalar)
    requires Valid(p)
    ensures res == Value(p, x)
  {
    var c := p.coeffs;
    res := c[p.degree];
    assert c[p.degree..p.degree + 1] == [c[p.degree]];
    var i := p.degree;
    while i > 0
      invariant 0 <= i <= p.degree
      invariant res == Horner(c[i..p.degree + 1], x)
    {
      i := i - 1;
      assert c[i..p.degree + 1][1..] == c[i + 1..p.degree + 1];
      MulComm(res, x);
      res := Add(Mul(res, x), c[i]);
    }
    assert c[0..p.degree + 1] == SliceCoeffs(p);
  }

  // ---------------------------------------------------------------------
  // Degree bookkeeping
  // ---------------------------------------------------------------------

  /**
   * The degree `compute_degree` finds scanning down from `ub`: the highest
   * index in 1 ..= ub holding a nonzero coefficient, else 0 (c[0] is never
   * examined).
   */
  function Degree(c: seq<Scalar>, ub: nat): (d: nat)
    requires ub < |c|
    ensures d <= ub
    ensures forall j :: d < j <= ub ==> c[j] == 0
    ensures d > 0 ==> c[d] != 0
  {
    if ub == 0 then 0 else if c[ub] != 0 then ub else Degree(c, ub - 1)
  }

  method ComputeDegree(c: seq<Scalar>, upperBound: nat) returns (d: nat)
    requires upperBound < |c|
    ensures d == Degree(c, upperBound)
    ensures d <= upperBound
    ensures forall j :: d < j <= upperBound ==> c[j] == 0
    ensures d > 0 ==> c[d] != 0
  {
    var i: nat := upperBound;
    while i > 0 && c[i] == 0
      invariant i <= upperBound
      invariant Degree(c, upperBound) == Degree(c, i)
    {
      i := i - 1;
    }
    d := i;
  }

  /** `new`: the degree is computed from the whole vector. */
  method New(coeffs: seq<Scalar>) returns (p: Polynomial)
    requires |coeffs| >= 1
    ensures p == Polynomial(Degree(coeffs, |coeffs| - 1), coeffs)
    ensures Valid(p) && (p.degree > 0 ==> coeffs[p.degree] != 0)
    ensures forall j :: p.degree < j < |coeffs| ==> coeffs[j] == 0
  {
    var d := ComputeDegree(coeffs, |coeffs| - 1);
    p := Polynomial(d, coeffs);
  }

  /** The polynomial `new` builds has the value of its whole coefficient vector. */
  lemma NewValue(c: seq<Scalar>, x: Scalar)
    requires |c| >= 1
    ensures Value(Polynomial(Degree(c, |c| - 1), c), x) == Horner(c, x)
  {
    var p := Polynomial(Degree(c, |c| - 1), c);
    var n := NumCoeffs(p);
    assert c == SliceCoeffs(p) + Zeros(|c| - n);
    HornerTrailingZeros(SliceCoeffs(p), |c| - n, x);
  }

  /** The degree after `shrink_degree`. */
  function Shrunk(p: Polynomial): (q: Polynomial)
    requires Valid(p)
    ensures Valid(q)
  {
    p.(degree := Degree(p.coeffs, p.degree))
  }

  /** `shrink_degree`: lowers `degree` past zero leading coefficients. */
  method ShrinkDegree(p: Polynomial) returns (q: Polynomial)
    requires Valid(p)
    ensures q == Shrunk(p)
  {
    var d := ComputeDegree(p.coeffs, p.degree);
    q := p.(degree := d);
  }

  /**
   * Shrinking never raises the degree, keeps the stored vector, leaves the
   * value unchanged, makes the leading coefficient nonzero (unless the degree
   * reaches 0) and is idempotent.
   */
  lemma ShrunkProperties(p: Polynomial, x: Scalar)
    requires Valid(p)
    ensures Shrunk(p).degree <= p.degree && Shrunk(p).coeffs == p.coeffs
    ensures Shrunk(p).degree > 0 ==> p.coeffs[Shrunk(p).degree] != 0
    ensures Shrunk(Shrunk(p)) == Shrunk(p)
    ensures Value(Shrunk(p), x) == Value(p, x)
  {
    var q := Shrunk(p);
    var a, b := SliceCoeffs(q), SliceCoeffs(p);
    assert b == a + Zeros(p.degree - q.degree);
    HornerTrailingZeros(a, p.degree - q.degree, x);
  }

  // ---------------------------------------------------------------------
  // Constructors and accessors
  // ---------------------------------------------------------------------

  /** `new_zero`: degree 0, coeffs [0]. */
  function NewZero(): (p: Polynomial)
    ensures Valid(p) && IsZero(p)
  {
    Polynomial(0, [0])
  }

  /** `from_scalar`: the constant polynomial k. */
  function FromScalar(k: Scalar): (p: Polynomial)
    ensures Valid(p) && p.degree == 0
    ensures forall x :: Value(p, x) == k
  {
    var p := Polynomial(0, [k]);
    assert SliceCoeffs(p) == [k];
    forall x
      ensures Value(p, x) == k
    {
      HornerSingle(k, x);
    }
    p
  }

  /** `new_monic_of_degree`: degree d, all d+1 coefficients 1. */
  function NewMonicOfDegree(d: nat): (p: Polynomial)
    ensures Valid(p) && p.degree == d && Lead(p) == 1
    ensures forall i :: 0 <= i < |p.coeffs| ==> p.coeffs[i] == 1
  {
    Polynomial(d, seq(d + 1, _ => 1))
  }

  /** `new_zero_with_size`: cap zeros with degree 0; invalid when cap is 0. */
  function NewZeroWithSize(cap: nat): (p: Polynomial)
    ensures p.degree == 0 && |p.coeffs| == cap
    ensures Valid(p) <==> cap >= 1
  {
    Polynomial(0, Zeros(cap))
  }

  /** `new_from_coeffs`: trusts the caller's degree. */
  function NewFromCoeffs(coeffs: seq<Scalar>, degree: nat): (p: Polynomial)
    ensures p.coeffs == coeffs && p.degree == degree
    ensures Valid(p) <==> degree < |coeffs|
  {
    Polynomial(degree, coeffs)
  }

  /** `lead`: the coefficient stored at `degree`, the last one that counts. */
  function Lead(p: Polynomial): (r: Scalar)
    requires Valid(p)
    ensures r == SliceCoeffs(p)[|SliceCoeffs(p)| - 1]
    ensures IsZero(p) ==> r == 0
  {
    p.coeffs[p.degree]
  }

  /** `is_zero`: degree 0 and constant coefficient 0, that is, the only coefficient that counts is 0. */
  predicate IsZero(p: Polynomial)
    requires Valid(p)
    ensures IsZero(p) <==> SliceCoeffs(p) == [0]
  {
    p.degree == 0 && p.coeffs[0] == 0
  }

  /** A polynomial that `is_zero` vanishes everywhere, and exactly those of degree 0 do. */
  lemma IsZeroMeansVanishes(p: Polynomial, x: Scalar)
    requires Valid(p)
    ensures IsZero(p) ==> Value(p, x) == 0
    ensures p.degree == 0 ==> (IsZero(p) <==> Value(p, x) == 0)
  {
    if p.degree == 0 {
      assert SliceCoeffs(p) == [p.coeffs[0]];
      HornerSingle(p.coeffs[0], x);
    }
  }

  // ---------------------------------------------------------------------
  // Equality (`PartialEq`)
  // ---------------------------------------------------------------------

  /**
   * `==`: equal degrees, and the two STORED vectors agree on their common
   * prefix (`zip` stops at the shorter one), entries past `degree` included.
   */
  predicate Equal(p: Polynomial, q: Polynomial)
    ensures Equal(p, q) && Valid(p) && Valid(q) ==> SliceCoeffs(p) == SliceCoeffs(q)
  {
    p.degree == q.degree &&
    forall i :: 0 <= i < |p.coeffs| && i < |q.coeffs| ==> p.coeffs[i] == q.coeffs[i]
  }

  /** Equal polynomials have equal values. */
  lemma EqualMeansSameValue(p: Polynomial, q: Polynomial, x: Scalar)
    requires Valid(p) && Valid(q) && Equal(p, q)
    ensures Value(p, x) == Value(q, x)
  {
    ValueIgnoresJunk(p, q, x);
  }

  /** Junk past `degree` makes polynomials with the same value unequal. */
  lemma JunkBreaksEquality()
    ensures var p, q := Polynomial(0, [1, 0]), Polynomial(0, [1, 1]);
      Valid(p) && Valid(q) && (forall x :: Value(p, x) == Value(q, x)) && !Equal(p, q)
  {
    var p, q := Polynomial(0, [1, 0]), Polynomial(0, [1, 1]);
    assert SliceCoeffs(p) == SliceCoeffs(q);
    assert p.coeffs[1] != q.coeffs[1];
  }

  /** Because `zip` truncates, `==` is not transitive, although `Eq` promises it. */
  lemma EqualNotTransitive()
    ensures var a, b, c := Polynomial(0, [1]), Polynomial(0, [1, 2]), Polynomial(0, [1, 3]);
      Equal(a, b) && Equal(a, c) && !Equal(b, c)
  {
    var b, c := Polynomial(0, [1, 2]), Polynomial(0, [1, 3]);
    assert b.coeffs[1] != c.coeffs[1];
  }

  /** Equality on the coefficients that count: same degree, same `slice_coeffs`. */
  predicate SameCoeffs(p: Polynomial, q: Polynomial)
    requires Valid(p) && Valid(q)
  {
    p.degree == q.degree && SliceCoeffs(p) == SliceCoeffs(q)
  }

  /**
   * Comparing only the coefficients that count is an equivalence relation,
   * ignores junk past `degree` and agrees with `==` whenever neither side
   * has junk.
   */
  lemma SameCoeffsIsEquivalence(p: Polynomial, q: Polynomial, r: Polynomial, x: Scalar)
    requires Valid(p) && Valid(q) && Valid(r)
    ensures SameCoeffs(p, p)
    ensures SameCoeffs(p, q) ==> SameCoeffs(q, p)
    ensures SameCoeffs(p, q) && SameCoeffs(q, r) ==> SameCoeffs(p, r)
    ensures SameCoeffs(p, q) ==> Value(p, x) == Value(q, x)
    ensures |p.coeffs| == NumCoeffs(p) && |q.coeffs| == NumCoeffs(q) ==> (SameCoeffs(p, q) <==> Equal(p, q))
  {
    if SameCoeffs(p, q) {
      ValueIgnoresJunk(p, q, x);
    }
    if |p.coeffs| == NumCoeffs(p) && |q.coeffs| == NumCoeffs(q) && Equal(p, q) {
      assert SliceCoeffs(p) == SliceCoeffs(q);
    }
  }

  // ---------------------------------------------------------------------
  // Linearity of evaluation on coefficient sequences
  // ---------------------------------------------------------------------

  function AddSeqs(u: seq<Scalar>, v: seq<Scalar>): (w: seq<Scalar>)
    requires |u| == |v|
    ensures |w| == |u| && forall i :: 0 <= i < |u| ==> w[i] == Add(u[i], v[i])
  {
    seq(|u|, i requires 0 <= i < |u| => Add(u[i], v[i]))
  }

  function ScaleSeq(u: seq<Scalar>, k: Scalar): (w: seq<Scalar>)
    ensures |w| == |u| && forall i :: 0 <= i < |u| ==> w[i] == Mul(u[i], k)
  {
    seq(|u|, i requires 0 <= i < |u| => Mul(u[i], k))
  }

  lemma {:induction false} HornerAddSeqs(u: seq<Scalar>, v: seq<Scalar>, x: Scalar)
    requires |u| == |v|
    ensures Horner(AddSeqs(u, v), x) == Add(Horner(u, x), Horner(v, x))
    decreases |u|
  {
    if |u| > 0 {
      assert AddSeqs(u, v)[1..] == AddSeqs(u[1..], v[1..]);
      HornerAddSeqs(u[1..], v[1..], x);
      var U, V := Horner(u[1..], x), Horner(v[1..], x);
      MulAddDistr(x, U, V);
      AddSwap(u[0], v[0], Mul(x, U), Mul(x, V));
    }
  }

  lemma {:induction false} HornerScaleSeq(u: seq<Scalar>, k: Scalar, x: Scalar)
    ensures Horner(ScaleSeq(u, k), x) == Mul(Horner(u, x), k)
    decreases |u|
  {
    if |u| > 0 {
      assert ScaleSeq(u, k)[1..] == ScaleSeq(u[1..], k);
      HornerScaleSeq(u[1..], k, x);
      var h := Horner(u[1..], x);
      calc {
        Horner(ScaleSeq(u, k), x);
        Add(Mul(u[0], k), Mul(x, Mul(h, k)));
        { MulAssoc(x, h, k); }
        Add(Mul(u[0], k), Mul(Mul(x, h), k));
        { MulAddDistrRight(u[0], Mul(x, h), k); }
        Mul(Add(u[0], Mul(x, h)), k);
      }
    } else {
      MulZero(k);
    }
  }

  // ---------------------------------------------------------------------
  // Addition (`impl Add`): built on the operand of strictly larger degree
  // (self on a tie); the degree is that operand's, never shrunk.
  // ---------------------------------------------------------------------

  /** What `a + b` produces. */
  function Sum(a: Polynomial, b: Polynomial): (r: Polynomial)
    requires Valid(a) && Valid(b)
    ensures Valid(r)
    ensures r.degree == if b.degree > a.degree then b.degree else a.degree
    ensures |r.coeffs| == if b.degree > a.degree then |b.coeffs| else |a.coeffs|
  {
    if b.degree > a.degree then AddInto(b, a) else AddInto(a, b)
  }

  /** `res` with the first `num_coeffs` entries of `shorter` added in. */
  function AddInto(res: Polynomial, shorter: Polynomial): (r: Polynomial)
    requires Valid(res) && Valid(shorter) && shorter.degree <= res.degree
    ensures Valid(r) && r.degree == res.degree && |r.coeffs| == |res.coeffs|
  {
    Polynomial(res.degree, seq(|res.coeffs|, i requires 0 <= i < |res.coeffs| =>
      if i < NumCoeffs(shorter) then Add(res.coeffs[i], shorter.coeffs[i]) else res.coeffs[i]))
  }

  method AddPoly(a: Polynomial, b: Polynomial) returns (res: Polynomial)
    requires Valid(a) && Valid(b)
    ensures res == Sum(a, b)
  {
    var shorter;
    if b.degree > a.degree {
      res, shorter := b, a;
    } else {
      res, shorter := a, b;
    }
    ghost var orig := res.coeffs;
    var i := 0;
    while i < NumCoeffs(shorter)
      invariant 0 <= i <= NumCoeffs(shorter)
      invariant res.degree == (if b.degree > a.degree then b.degree else a.degree)
      invariant |res.coeffs| == |orig|
      invariant forall j :: 0 <= j < |orig| ==>
        res.coeffs[j] == if j < i then Add(orig[j], shorter.coeffs[j]) else orig[j]
    {
      res := res.(coeffs := res.coeffs[i := Add(res.coeffs[i], shorter.coeffs[i])]);
      i := i + 1;
    }
  }

  /**
   * The value of a sum is the sum of the values; the result keeps the
   * stored entries of the operand it was built on past the other's length.
   */
  lemma SumValue(a: Polynomial, b: Polynomial, x: Scalar)
    requires Valid(a) && Valid(b)
    ensures Value(Sum(a, b), x) == Add(Value(a, x), Value(b, x))
  {
    if b.degree > a.degree {
      AddIntoValue(b, a, x);
    } else {
      AddIntoValue(a, b, x);
    }
  }

  lemma AddIntoValue(res: Polynomial, shorter: Polynomial, x: Scalar)
    requires Valid(res) && Valid(shorter) && shorter.degree <= res.degree
    ensures Value(AddInto(res, shorter), x) == Add(Value(res, x), Value(shorter, x))
  {
    var n, m := NumCoeffs(shorter), NumCoeffs(res);
    var v := SliceCoeffs(shorter) + Zeros(m - n);
    assert SliceCoeffs(AddInto(res, shorter)) == AddSeqs(SliceCoeffs(res), v);
    HornerAddSeqs(SliceCoeffs(res), v, x);
    HornerTrailingZeros(SliceCoeffs(shorter), m - n, x);
  }

  // ---------------------------------------------------------------------
  // Scalar multiplication (`impl Mul<&Scalar>`)
  // ---------------------------------------------------------------------

  /** What `p * &k` produces: `new_zero()` when k is 0, else every stored entry scaled. */
  function Scaled(p: Polynomial, k: Scalar): (r: Polynomial)
    ensures k == 0 ==> r == NewZero()
    ensures k != 0 ==> r.degree == p.degree && |r.coeffs| == |p.coeffs|
    ensures k != 0 ==> forall i :: 0 <= i < |p.coeffs| ==> r.coeffs[i] == Mul(p.coeffs[i], k)
  {
    if k == 0 then NewZero() else Polynomial(p.degree, ScaleSeq(p.coeffs, k))
  }

  method MulScalar(p: Polynomial, k: Scalar) returns (r: Polynomial)
    ensures r == Scaled(p, k)
  {
    if k == 0 {
      return NewZero();
    }
    r := p;
    var i := 0;
    while i < |r.coeffs|
      invariant 0 <= i <= |r.coeffs| == |p.coeffs| && r.degree == p.degree
      invariant forall j :: 0 <= j < |p.coeffs| ==> r.coeffs[j] == if j < i then Mul(p.coeffs[j], k) else p.coeffs[j]
    {
      r := r.(coeffs := r.coeffs[i := Mul(r.coeffs[i], k)]);
      i := i + 1;
    }
  }

  /** Scaling by k scales the value by k. */
  lemma ScaledValue(p: Polynomial, k: Scalar, x: Scalar)
    requires Valid(p)
    ensures Valid(Scaled(p, k))
    ensures Value(Scaled(p, k), x) == Mul(Value(p, x), k)
  {
    if k == 0 {
      IsZeroMeansVanishes(NewZero(), x);
    } else {
      assert SliceCoeffs(Scaled(p, k)) == ScaleSeq(SliceCoeffs(p), k);
      HornerScaleSeq(SliceCoeffs(p), k, x);
    }
  }

  // ---------------------------------------------------------------------
  // Subtraction (`impl Sub for &Polynomial`): widen to b when b has more
  // coefficients, subtract b's first num_coeffs entries, then shrink.
  // ---------------------------------------------------------------------

  /** `Vec::resize(n, 0)`: truncates or pads with zeros. */
  function Resize(c: seq<Scalar>, n: nat): (r: seq<Scalar>)
    ensures |r| == n
    ensures forall i :: 0 <= i < n ==> r[i] == if i < |c| then c[i] else 0
  {
    if n <= |c| then c[..n] else c + Zeros(n - |c|)
  }

  /** The vector and degree `a - b` holds just before `shrink_degree`. */
  function Widened(a: Polynomial, b: Polynomial): (r: Polynomial)
    requires Valid(a) && Valid(b)
    ensures Valid(r) && NumCoeffs(b) <= |r.coeffs|
    ensures r.degree == if NumCoeffs(b) > NumCoeffs(a) then b.degree else a.degree
  {
    var res := if NumCoeffs(b) > NumCoeffs(a) then Polynomial(b.degree, Resize(a.coeffs, NumCoeffs(b))) else a;
    res.(coeffs := seq(|res.coeffs|, i requires 0 <= i < |res.coeffs| =>
      if i < NumCoeffs(b) then Sub(res.coeffs[i], b.coeffs[i]) else res.coeffs[i]))
  }

  /** What `&a - &b` produces. */
  function Difference(a: Polynomial, b: Polynomial): (r: Polynomial)
    requires Valid(a) && Valid(b)
    ensures Valid(r)
    ensures r.degree <= if b.degree > a.degree then b.degree else a.degree
    ensures r.degree > 0 ==> r.coeffs[r.degree] != 0
  {
    Shrunk(Widened(a, b))
  }

  method SubPoly(a: Polynomial, b: Polynomial) returns (r: Polynomial)
    requires Valid(a) && Valid(b)
    ensures r == Difference(a, b)
  {
    var res := a;
    if NumCoeffs(b) > NumCoeffs(a) {
      res := Polynomial(b.degree, Resize(a.coeffs, NumCoeffs(b)));
    }
    ghost var orig := res;
    var i := 0;
    while i < NumCoeffs(b)
      invariant 0 <= i <= NumCoeffs(b) <= |res.coeffs| == |orig.coeffs|
      invariant res.degree == orig.degree
      invariant forall j :: 0 <= j < |orig.coeffs| ==>
        res.coeffs[j] == if j < i then Sub(orig.coeffs[j], b.coeffs[j]) else orig.coeffs[j]
    {
      res := res.(coeffs := res.coeffs[i := Sub(res.coeffs[i], b.coeffs[i])]);
      i := i + 1;
    }
    assert res == Widened(a, b);
    r := ShrinkDegree(res);
  }

  /** No nonzero stored entry between a's degree and index `upTo`. */
  predicate NoJunkUpTo(a: Polynomial, upTo: nat)
  {
    forall i :: a.degree < i <= upTo && i < |a.coeffs| ==> a.coeffs[i] == 0
  }

  /**
   * The value of a difference is the difference of the values, provided a
   * stores no junk below b's degree (the widening `resize` would otherwise
   * turn that junk into coefficients); a - a shrinks to degree 0.
   */
  lemma DifferenceValue(a: Polynomial, b: Polynomial, x: Scalar)
    requires Valid(a) && Valid(b) && NoJunkUpTo(a, b.degree)
    ensures Value(Difference(a, b), x) == Sub(Value(a, x), Value(b, x))
  {
    ShrunkProperties(Widened(a, b), x);
    WidenedValue(a, b, x);
  }

  lemma WidenedValue(a: Polynomial, b: Polynomial, x: Scalar)
    requires Valid(a) && Valid(b) && NoJunkUpTo(a, b.degree)
    ensures Value(Widened(a, b), x) == Sub(Value(a, x), Value(b, x))
  {
    var m := NumCoeffs(Widened(a, b));
    WidenedSlice(a, b);
    HornerDifference(SliceCoeffs(a), SliceCoeffs(b), m - NumCoeffs(a), m - NumCoeffs(b), x);
  }

  /** Without junk, the counted coefficients of the widened difference are the padded a minus the padded b. */
  lemma WidenedSlice(a: Polynomial, b: Polynomial)
    requires Valid(a) && Valid(b) && NoJunkUpTo(a, b.degree)
    ensures var m := NumCoeffs(Widened(a, b));
      m >= NumCoeffs(a) && m >= NumCoeffs(b) &&
      SliceCoeffs(Widened(a, b)) ==
        AddSeqs(SliceCoeffs(a) + Zeros(m - NumCoeffs(a)), NegSeq(SliceCoeffs(b) + Zeros(m - NumCoeffs(b))))
  {
  }

  lemma HornerDifference(u: seq<Scalar>, v: seq<Scalar>, i: nat, j: nat, x: Scalar)
    requires |u| + i == |v| + j
    ensures Horner(AddSeqs(u + Zeros(i), NegSeq(v + Zeros(j))), x) == Sub(Horner(u, x), Horner(v, x))
  {
    var su, sv := u + Zeros(i), v + Zeros(j);
    HornerAddSeqs(su, NegSeq(sv), x);
    HornerNegSeq(sv, x);
    HornerTrailingZeros(u, i, x);
    HornerTrailingZeros(v, j, x);
    SubIsAddNeg(Horner(u, x), Horner(v, x));
  }

  lemma DifferenceSelf(a: Polynomial, x: Scalar)
    requires Valid(a)
    ensures Difference(a, a).degree == 0 && Value(Difference(a, a), x) == 0
  {
    var w := Widened(a, a);
    assert forall j :: 0 <= j <= a.degree ==> w.coeffs[j] == 0;
    DifferenceValue(a, a, x);
  }

  /** Junk below b's degree leaks into `a - b`. */
  lemma DifferenceExposesJunk()
    ensures var a, b := Polynomial(0, [1, 2]), Polynomial(1, [0, 1]);
      Valid(a) && Valid(b) && Value(Difference(a, b), 1) != Sub(Value(a, 1), Value(b, 1))
  {
    var a, b := Polynomial(0, [1, 2]), Polynomial(1, [0, 1]);
    var d := Difference(a, b);
    assert Widened(a, b).coeffs == [1, 1];
    assert d == Polynomial(1, [1, 1]);
    assert SliceCoeffs(d) == [1, 1];
    assert SliceCoeffs(a) == [1];
    assert SliceCoeffs(b) == [0, 1];
    HornerSingle(1, 1);
    assert [1, 1][1..] == [1];
    assert [0, 1][1..] == [1];
    assert Value(d, 1) == 2;
    assert Value(b, 1) == 1;
  }

  function NegSeq(u: seq<Scalar>): (w: seq<Scalar>)
    ensures |w| == |u| && forall i :: 0 <= i < |u| ==> w[i] == Neg(u[i])
  {
    seq(|u|, i requires 0 <= i < |u| => Neg(u[i]))
  }

  lemma {:induction false} HornerNegSeq(u: seq<Scalar>, x: Scalar)
    ensures Horner(NegSeq(u), x) == Neg(Horner(u, x))
    decreases |u|
  {
    if |u| > 0 {
      assert NegSeq(u)[1..] == NegSeq(u[1..]);
      HornerNegSeq(u[1..], x);
      MulNeg(x, Horner(u[1..], x));
    }
  }

  // ---------------------------------------------------------------------
  // Multiplication (`impl Mul<Polynomial>`): schoolbook convolution of the
  // two coefficient prefixes into a vector of a.degree + b.degree + 1 zeros.
  // ---------------------------------------------------------------------

  /** Contribution of row i (u[i] times v) to output position k. */
  function Term(u: seq<Scalar>, v: seq<Scalar>, i: nat, k: nat): Scalar
    requires i < |u|
  {
    if i <= k < i + |v| then Mul(u[i], v[k - i]) else 0
  }

  /** Coefficient k of the product after rows 0..i-1 have been accumulated. */
  function PartialConv(u: seq<Scalar>, v: seq<Scalar>, i: nat, k: nat): Scalar
    requires i <= |u|
  {
    if i == 0 then 0 else Add(PartialConv(u, v, i - 1, k), Term(u, v, i - 1, k))
  }

  function ConvPrefix(u: seq<Scalar>, v: seq<Scalar>, i: nat, len: nat): (w: seq<Scalar>)
    requires i <= |u|
    ensures |w| == len && forall k :: 0 <= k < len ==> w[k] == PartialConv(u, v, i, k)
  {
    seq(len, k requires 0 <= k < len => PartialConv(u, v, i, k))
  }

  /** What `a * b` produces. */
  function Product(a: Polynomial, b: Polynomial): (r: Polynomial)
    requires Valid(a) && Valid(b)
    ensures Valid(r) && r.degree == a.degree + b.degree && |r.coeffs| == r.degree + 1
  {
    Polynomial(a.degree + b.degree,
      ConvPrefix(SliceCoeffs(a), SliceCoeffs(b), NumCoeffs(a), a.degree + b.degree + 1))
  }

  method MulPoly(a: Polynomial, b: Polynomial) returns (res: Polynomial)
    requires Valid(a) && Valid(b)
    ensures res == Product(a, b)
  {
    ghost var u, v := SliceCoeffs(a), SliceCoeffs(b);
    var len := a.degree + b.degree + 1;
    res := NewZeroWithSize(len);
    var i := 0;
    while i < NumCoeffs(a)
      invariant 0 <= i <= NumCoeffs(a) && res.degree == 0 && |res.coeffs| == len
      invariant forall k :: 0 <= k < len ==> res.coeffs[k] == PartialConv(u, v, i, k)
    {
      var j := 0;
      while j < NumCoeffs(b)
        invariant 0 <= j <= NumCoeffs(b) && res.degree == 0 && |res.coeffs| == len
        invariant forall k :: 0 <= k < len ==> res.coeffs[k] == RowConv(u, v, i, j, k)
      {
        RowStep(u, v, i, j, len);
        res := res.(coeffs := res.coeffs[i + j := Add(res.coeffs[i + j], Mul(a.coeffs[i], b.coeffs[j]))]);
        j := j + 1;
      }
      RowDone(u, v, i, len);
      i := i + 1;
    }
    res := res.(degree := a.degree + b.degree);
    assert res.coeffs == ConvPrefix(u, v, NumCoeffs(a), len);
  }

  /** Coefficient k while row i of the product is being added, j entries in. */
  function RowConv(u: seq<Scalar>, v: seq<Scalar>, i: nat, j: nat, k: nat): Scalar
    requires i < |u|
  {
    if i <= k < i + j && k - i < |v| then Add(PartialConv(u, v, i, k), Mul(u[i], v[k - i]))
    else PartialConv(u, v, i, k)
  }

  lemma RowStep(u: seq<Scalar>, v: seq<Scalar>, i: nat, j: nat, len: nat)
    requires i < |u| && j < |v|
    ensures forall k :: 0 <= k < len ==>
      RowConv(u, v, i, j + 1, k) ==
      (if k == i + j then Add(RowConv(u, v, i, j, k), Mul(u[i], v[j])) else RowConv(u, v, i, j, k))
  {
    forall k | 0 <= k < len
      ensures RowConv(u, v, i, j + 1, k) ==
        if k == i + j then Add(RowConv(u, v, i, j, k), Mul(u[i], v[j])) else RowConv(u, v, i, j, k)
    {
      if k == i + j {
        assert k - i == j;
      }
    }
  }

  lemma RowDone(u: seq<Scalar>, v: seq<Scalar>, i: nat, len: nat)
    requires i < |u|
    ensures forall k :: 0 <= k < len ==> RowConv(u, v, i, |v|, k) == PartialConv(u, v, i + 1, k)
  {
  }

  /** Horner of a vector holding w at offset i and zeros elsewhere. */
  lemma HornerShifted(i: nat, w: seq<Scalar>, t: nat, x: Scalar)
    ensures Horner(Zeros(i) + w + Zeros(t), x) == Mul(Pow(x, i), Horner(w, x))
  {
    HornerTrailingZeros(Zeros(i) + w, t, x);
    HornerConcat(Zeros(i), w, x);
    HornerZeros(i, x);
  }

  /** After i rows the accumulated vector evaluates to u[..i](x) * v(x). */
  lemma {:induction false} ConvPrefixValue(u: seq<Scalar>, v: seq<Scalar>, i: nat, x: Scalar)
    requires 1 <= |v| && i <= |u|
    ensures Horner(ConvPrefix(u, v, i, |u| + |v| - 1), x) == Mul(Horner(u[..i], x), Horner(v, x))
  {
    var len := |u| + |v| - 1;
    if i == 0 {
      assert ConvPrefix(u, v, 0, len) == Zeros(len);
      HornerZeros(len, x);
      MulZero(Horner(v, x));
    } else {
      var j := i - 1;
      ConvPrefixValue(u, v, j, x);
      var t := Zeros(j) + ScaleSeq(v, u[j]) + Zeros(len - j - |v|);
      ConvPrefixStep(u, v, i, len);
      HornerAddSeqs(ConvPrefix(u, v, j, len), t, x);
      HornerShifted(j, ScaleSeq(v, u[j]), len - j - |v|, x);
      HornerScaleSeq(v, u[j], x);
      HornerAppend(u, j, x);
      ConvStepAlgebra(Horner(u[..j], x), Pow(x, j), Horner(v, x), u[j]);
    }
  }

  /** Row i - 1 adds u[i - 1] * v, shifted by i - 1, to the accumulated vector. */
  lemma ConvPrefixStep(u: seq<Scalar>, v: seq<Scalar>, i: nat, len: nat)
    requires 1 <= i <= |u| && i - 1 + |v| <= len
    ensures ConvPrefix(u, v, i, len)
         == AddSeqs(ConvPrefix(u, v, i - 1, len), Zeros(i - 1) + ScaleSeq(v, u[i - 1]) + Zeros(len - (i - 1) - |v|))
  {
    var j := i - 1;
    var t := Zeros(j) + ScaleSeq(v, u[j]) + Zeros(len - j - |v|);
    forall k | 0 <= k < len
      ensures ConvPrefix(u, v, i, len)[k] == AddSeqs(ConvPrefix(u, v, j, len), t)[k]
    {
      if j <= k < j + |v| {
        assert t[k] == Mul(v[k - j], u[j]);
        MulComm(v[k - j], u[j]);
      } else {
        assert t[k] == 0;
      }
    }
  }

  /** Horner of a prefix extended by one coefficient. */
  lemma HornerAppend(u: seq<Scalar>, j: nat, x: Scalar)
    requires j < |u|
    ensures Horner(u[..j + 1], x) == Add(Horner(u[..j], x), Mul(Pow(x, j), u[j]))
  {
    assert u[..j + 1] == u[..j] + [u[j]];
    HornerConcat(u[..j], [u[j]], x);
    HornerSingle(u[j], x);
  }

  lemma ConvStepAlgebra(A: Scalar, P: Scalar, H: Scalar, c: Scalar)
    ensures Mul(Add(A, Mul(P, c)), H) == Add(Mul(A, H), Mul(P, Mul(H, c)))
  {
    MulComm(Add(A, Mul(P, c)), H);
    MulAddDistr(H, A, Mul(P, c));
    MulComm(H, A);
    MulAssoc(P, c, H);
    MulComm(Mul(P, c), H);
    MulComm(c, H);
  }

  /** The value of a product is the product of the values. */
  lemma ProductValue(a: Polynomial, b: Polynomial, x: Scalar)
    requires Valid(a) && Valid(b)
    ensures Value(Product(a, b), x) == Mul(Value(a, x), Value(b, x))
  {
    var u, v := SliceCoeffs(a), SliceCoeffs(b);
    assert SliceCoeffs(Product(a, b)) == ConvPrefix(u, v, |u|, |u| + |v| - 1);
    ConvPrefixValue(u, v, |u|, x);
    assert u[..|u|] == u;
  }

  // ---------------------------------------------------------------------
  // Lagrange interpolation (Newton form): `poly` matches the first i
  // samples and `base` vanishes on them.
  // ---------------------------------------------------------------------

  /** X - x, as `new_from_coeffs(vec![-x, 1], 1)`. */
  function Linear(x: Scalar): (p: Polynomial)
    ensures Valid(p) && p.degree == 1
    ensures forall t :: Value(p, t) == Sub(t, x)
  {
    var p := Polynomial(1, [Neg(x), 1]);
    assert forall t :: Value(p, t) == Sub(t, x) by {
      forall t
        ensures Value(p, t) == Sub(t, x)
      {
        assert SliceCoeffs(p)[1..] == [1];
        HornerSingle(1, t);
      }
    }
    p
  }

  /**
   * One iteration of the loop as written: `diff` is (y - poly(x)) / base(x)
   * (`None` where `invert().unwrap()` panics), base is scaled by diff before
   * it is added to poly, and the scaled base is then multiplied by X - x.
   */
  function LagrangeStep(poly: Polynomial, base: Polynomial, x: Scalar, y: Scalar): (r: Option<(Polynomial, Polynomial)>)
    requires Valid(poly) && Valid(base)
    ensures r.Some? ==> Valid(r.value.0) && Valid(r.value.1)
    ensures r.None? <==> Inverse(Value(base, x)).None?
  {
    match Inverse(Value(base, x))
    case None => None
    case Some(inv) =>
      var diff := Mul(Sub(y, Value(poly, x)), inv);
      ScaledValue(base, diff, x);
      var scaled := Scaled(base, diff);
      Some((Sum(poly, scaled), Product(scaled, Linear(x))))
  }

  /** The loop over samples i.. as written. */
  function LagrangeFrom(xs: seq<Scalar>, ys: seq<Scalar>, i: nat, poly: Polynomial, base: Polynomial): (r: Option<Polynomial>)
    requires |xs| == |ys| && i <= |xs| && Valid(poly) && Valid(base)
    ensures r.Some? ==> Valid(r.value)
    decreases |xs| - i
  {
    if i == |xs| then Some(poly)
    else match LagrangeStep(poly, base, xs[i], ys[i])
      case None => None
      case Some((p, b)) => LagrangeFrom(xs, ys, i + 1, p, b)
  }

  /** `lagrange_interpolation` as written; `None` stands for the panic of the unwrap. */
  function Lagrange(xs: seq<Scalar>, ys: seq<Scalar>): (r: Option<Polynomial>)
    requires |xs| == |ys| >= 1
    ensures r.Some? ==> Valid(r.value)
  {
    LagrangeFrom(xs, ys, 1, Polynomial(0, [ys[0]]), Linear(xs[0]))
  }

  method LagrangeInterpolation(xs: seq<Scalar>, ys: seq<Scalar>) returns (r: Option<Polynomial>)
    requires |xs| == |ys| >= 1
    ensures r == Lagrange(xs, ys)
  {
    var poly := Polynomial(0, [ys[0]]);
    var base := Linear(xs[0]);
    var i := 1;
    while i < |xs|
      invariant 1 <= i <= |xs| && Valid(poly) && Valid(base)
      invariant LagrangeFrom(xs, ys, i, poly, base) == Lagrange(xs, ys)
    {
      var bx := Eval(base, xs[i]);
      var inv := Inverse(bx);
      if inv.None? {
        return None;
      }
      var px := Eval(poly, xs[i]);
      var diff := Mul(Sub(ys[i], px), inv.value);
      ScaledValue(base, diff, xs[i]);
      base := MulScalar(base, diff);
      poly := AddPoly(poly, base);
      base := MulPoly(base, Linear(xs[i]));
      i := i + 1;
    }
    return Some(poly);
  }

  /** poly agrees with the first i samples and base vanishes on them. */
  ghost predicate Interpolates(xs: seq<Scalar>, ys: seq<Scalar>, i: nat, poly: Polynomial, base: Polynomial)
    requires |xs| == |ys| && i <= |xs| && Valid(poly) && Valid(base)
  {
    forall j :: 0 <= j < i ==> Value(poly, xs[j]) == ys[j] && Value(base, xs[j]) == 0
  }

  /**
   * Adding base scaled by (y - poly(x)) / base(x) fixes the value at x and
   * keeps the values on the samples base vanishes on.
   */
  lemma NewtonUpdate(xs: seq<Scalar>, ys: seq<Scalar>, i: nat, poly: Polynomial, base: Polynomial,
                     inv: Scalar, diff: Scalar)
    requires |xs| == |ys| && i < |xs| && Valid(poly) && Valid(base)
    requires Interpolates(xs, ys, i, poly, base)
    requires Mul(Value(base, xs[i]), inv) == 1 && diff == Mul(Sub(ys[i], Value(poly, xs[i])), inv)
    ensures Valid(Sum(poly, Scaled(base, diff)))
    ensures forall j :: 0 <= j <= i ==> Value(Sum(poly, Scaled(base, diff)), xs[j]) == ys[j]
  {
    var p := Sum(poly, Scaled(base, diff));
    forall j | 0 <= j <= i
      ensures Value(p, xs[j]) == ys[j]
    {
      ScaledValue(base, diff, xs[j]);
      SumValue(poly, Scaled(base, diff), xs[j]);
      MulZero(diff);
      if j == i {
        var d := Sub(ys[i], Value(poly, xs[i]));
        calc {
          Mul(Value(base, xs[i]), diff);
          { MulSelfComm(Value(base, xs[i]), d, inv); }
          Mul(d, 1);
          { MulOne(d); }
          d;
        }
      }
    }
  }

  /** Multiplying by X - x_i keeps the zeros of base and adds x_i. */
  lemma TimesLinearVanishes(xs: seq<Scalar>, i: nat, base: Polynomial)
    requires i < |xs| && Valid(base)
    requires forall j :: 0 <= j < i ==> Value(base, xs[j]) == 0
    ensures forall j :: 0 <= j <= i ==> Value(Product(base, Linear(xs[i])), xs[j]) == 0
  {
    forall j | 0 <= j <= i
      ensures Value(Product(base, Linear(xs[i])), xs[j]) == 0
    {
      ProductValue(base, Linear(xs[i]), xs[j]);
      MulZero(Value(Linear(xs[i]), xs[j]));
      MulZero(Value(base, xs[j]));
    }
  }

  /** One step of the loop as written keeps the loop invariant. */
  lemma LagrangeStepInterpolates(xs: seq<Scalar>, ys: seq<Scalar>, i: nat, poly: Polynomial, base: Polynomial)
    requires |xs| == |ys| && i < |xs| && Valid(poly) && Valid(base)
    requires Interpolates(xs, ys, i, poly, base)
    requires LagrangeStep(poly, base, xs[i], ys[i]).Some?
    ensures Interpolates(xs, ys, i + 1, LagrangeStep(poly, base, xs[i], ys[i]).value.0,
                         LagrangeStep(poly, base, xs[i], ys[i]).value.1)
  {
    var inv := Inverse(Value(base, xs[i])).value;
    var diff := Mul(Sub(ys[i], Value(poly, xs[i])), inv);
    var scaled := Scaled(base, diff);
    forall j | 0 <= j < i
      ensures Value(scaled, xs[j]) == 0
    {
      ScaledValue(base, diff, xs[j]);
      MulZero(diff);
    }
    TimesLinearVanishes(xs, i, scaled);
    NewtonUpdate(xs, ys, i, poly, base, inv, diff);
    var p, b := Sum(poly, scaled), Product(scaled, Linear(xs[i]));
    assert LagrangeStep(poly, base, xs[i], ys[i]) == Some((p, b));
  }

  lemma {:induction false} LagrangeFromInterpolates(xs: seq<Scalar>, ys: seq<Scalar>, i: nat, poly: Polynomial, base: Polynomial)
    requires |xs| == |ys| && i <= |xs| && Valid(poly) && Valid(base)
    requires Interpolates(xs, ys, i, poly, base)
    ensures LagrangeFrom(xs, ys, i, poly, base).Some? ==>
      forall j :: 0 <= j < |xs| ==> Value(LagrangeFrom(xs, ys, i, poly, base).value, xs[j]) == ys[j]
    decreases |xs| - i
  {
    if i == |xs| {
      assert LagrangeFrom(xs, ys, i, poly, base) == Some(poly);
    } else {
      var step := LagrangeStep(poly, base, xs[i], ys[i]);
      if step.Some? {
        var p, b := step.value.0, step.value.1;
        LagrangeStepInterpolates(xs, ys, i, poly, base);
        LagrangeFromInterpolates(xs, ys, i + 1, p, b);
        assert LagrangeFrom(xs, ys, i, poly, base) == LagrangeFrom(xs, ys, i + 1, p, b);
      } else {
        assert LagrangeFrom(xs, ys, i, poly, base) == None;
      }
    }
  }

  /** When the interpolation does not panic, its result passes through every sample. */
  lemma LagrangeInterpolates(xs: seq<Scalar>, ys: seq<Scalar>)
    requires |xs| == |ys| >= 1
    ensures Lagrange(xs, ys).Some? ==>
      forall j :: 0 <= j < |xs| ==> Value(Lagrange(xs, ys).value, xs[j]) == ys[j]
  {
    var poly := Polynomial(0, [ys[0]]);
    assert SliceCoeffs(poly) == [ys[0]];
    HornerSingle(ys[0], xs[0]);
    LagrangeFromInterpolates(xs, ys, 1, poly, Linear(xs[0]));
  }

  /** `diff` = (y - poly(x)) / base(x) of one iteration, when base(x) is invertible. */
  function StepDiff(poly: Polynomial, base: Polynomial, x: Scalar, y: Scalar): Scalar
    requires Valid(poly) && Valid(base) && Inverse(Value(base, x)).Some?
  {
    Mul(Sub(y, Value(poly, x)), Inverse(Value(base, x)).value)
  }

  /**
   * Every iteration of the loop as written that is reached, except the last
   * one, has an invertible (nonzero) `diff`. Iterations are followed as
   * `LagrangeFrom` runs them; a run that stops imposes nothing further.
   */
  predicate NonzeroDiffs(xs: seq<Scalar>, ys: seq<Scalar>, i: nat, poly: Polynomial, base: Polynomial)
    requires |xs| == |ys| && i <= |xs| && Valid(poly) && Valid(base)
    decreases |xs| - i
  {
    i + 1 >= |xs| ||
    match LagrangeStep(poly, base, xs[i], ys[i])
    case None => true
    case Some((p, b)) =>
      Inverse(StepDiff(poly, base, xs[i], ys[i])).Some? && NonzeroDiffs(xs, ys, i + 1, p, b)
  }

  /** After an iteration as written, base at t is base(t) * diff * (t - x). */
  lemma NextBaseValue(poly: Polynomial, base: Polynomial, x: Scalar, y: Scalar, t: Scalar)
    requires Valid(poly) && Valid(base) && Inverse(Value(base, x)).Some?
    ensures LagrangeStep(poly, base, x, y).Some?
    ensures Value(LagrangeStep(poly, base, x, y).value.1, t)
         == Mul(Mul(Value(base, t), StepDiff(poly, base, x, y)), Sub(t, x))
  {
    var diff := StepDiff(poly, base, x, y);
    var scaled := Scaled(base, diff);
    ScaledValue(base, diff, t);
    ProductValue(scaled, Linear(x), t);
    assert LagrangeStep(poly, base, x, y) == Some((Sum(poly, scaled), Product(scaled, Linear(x))));
  }

  /**
   * On distinct points, from a base invertible at every remaining point, the
   * loop as written succeeds exactly when every diff before the last is
   * invertible.
   */
  lemma {:induction false} LagrangeFromSucceeds(xs: seq<Scalar>, ys: seq<Scalar>, i: nat, poly: Polynomial, base: Polynomial)
    requires |xs| == |ys| && i <= |xs| && Valid(poly) && Valid(base) && DistinctPoints(xs)
    requires forall m :: i <= m < |xs| ==> Inverse(Value(base, xs[m])).Some?
    ensures LagrangeFrom(xs, ys, i, poly, base).Some? <==> NonzeroDiffs(xs, ys, i, poly, base)
    decreases |xs| - i
  {
    if i == |xs| {
      assert LagrangeFrom(xs, ys, i, poly, base) == Some(poly);
    } else {
      NextBaseValue(poly, base, xs[i], ys[i], xs[i]);
      var step := LagrangeStep(poly, base, xs[i], ys[i]).value;
      var diff := StepDiff(poly, base, xs[i], ys[i]);
      assert LagrangeFrom(xs, ys, i, poly, base) == LagrangeFrom(xs, ys, i + 1, step.0, step.1);
      if i + 1 == |xs| {
        assert LagrangeFrom(xs, ys, i + 1, step.0, step.1) == Some(step.0);
      } else if Inverse(diff).Some? {
        forall m | i + 1 <= m < |xs|
          ensures Inverse(Value(step.1, xs[m])).Some?
        {
          NextBaseValue(poly, base, xs[i], ys[i], xs[m]);
          InverseOfProduct(Value(base, xs[m]), diff);
          InverseOfProduct(Mul(Value(base, xs[m]), diff), Sub(xs[m], xs[i]));
        }
        LagrangeFromSucceeds(xs, ys, i + 1, step.0, step.1);
      } else {
        var t := xs[i + 1];
        NextBaseValue(poly, base, xs[i], ys[i], t);
        InverseOfFactors(Mul(Value(base, t), diff), Sub(t, xs[i]));
        InverseOfFactors(Value(base, t), diff);
        assert LagrangeStep(step.0, step.1, t, ys[i + 1]).None?;
        assert LagrangeFrom(xs, ys, i + 1, step.0, step.1) == None;
      }
    }
  }

  /**
   * On distinct points `lagrange_interpolation` as written does not panic
   * exactly when every diff before the last is invertible, and then its
   * result passes through every sample.
   */
  lemma LagrangeSucceeds(xs: seq<Scalar>, ys: seq<Scalar>)
    requires |xs| == |ys| >= 1 && DistinctPoints(xs)
    ensures Lagrange(xs, ys).Some? <==> NonzeroDiffs(xs, ys, 1, Polynomial(0, [ys[0]]), Linear(xs[0]))
    ensures Lagrange(xs, ys).Some? ==>
      forall j :: 0 <= j < |xs| ==> Value(Lagrange(xs, ys).value, xs[j]) == ys[j]
  {
    forall m | 1 <= m < |xs|
      ensures Inverse(Value(Linear(xs[0]), xs[m])).Some?
    {
    }
    LagrangeFromSucceeds(xs, ys, 1, Polynomial(0, [ys[0]]), Linear(xs[0]));
    LagrangeInterpolates(xs, ys);
  }

  /** Two distinct points never make the loop as written panic. */
  lemma LagrangeTwoSamples(xs: seq<Scalar>, ys: seq<Scalar>)
    requires |xs| == |ys| == 2 && Inverse(Sub(xs[1], xs[0])).Some?
    ensures Lagrange(xs, ys).Some?
    ensures Value(Lagrange(xs, ys).value, xs[0]) == ys[0] && Value(Lagrange(xs, ys).value, xs[1]) == ys[1]
  {
    LagrangeSucceeds(xs, ys);
  }

  /** The loop as written succeeds on [1, 2, 3] with values [5, 6, 5]: its one deciding diff is 1. */
  lemma LagrangeOnThreeSamples(xs: seq<Scalar>, ys: seq<Scalar>)
    requires xs == [1, 2, 3] && ys == [5, 6, 5]
    ensures Lagrange(xs, ys).Some?
    ensures forall j :: 0 <= j < 3 ==> Value(Lagrange(xs, ys).value, xs[j]) == ys[j]
  {
    SmallPointsDistinct();
    var poly, base := Polynomial(0, [5]), Linear(1);
    assert SliceCoeffs(poly) == [5];
    HornerSingle(5, 2);
    assert Value(poly, 2) == 5 && Value(base, 2) == 1;
    MulOne(1);
    InverseUnique(1, 1);
    assert StepDiff(poly, base, 2, 6) == 1;
    assert NonzeroDiffs(xs, ys, 1, poly, base);
    LagrangeSucceeds(xs, ys);
  }

  /**
   * As written, the loop panics on distinct points as soon as a sample
   * already lies on the current interpolant: diff is 0, base is scaled to
   * the zero polynomial and its value at the next point cannot be inverted.
   */
  lemma LagrangePanicsOnCollinearSamples()
    ensures Lagrange([1, 2, 3], [5, 5, 5]).None?
  {
    var poly, base := Polynomial(0, [5]), Linear(1);
    var next := Product(NewZero(), Linear(2));
    CollinearFirstStep(poly, base);
    CollinearSecondStep(Sum(poly, NewZero()), next);
    assert LagrangeFrom([1, 2, 3], [5, 5, 5], 2, Sum(poly, NewZero()), next).None?;
  }

  /** At x = 2 the constant 5 already fits, so diff is 0 and `base * &diff` collapses to zero. */
  lemma CollinearFirstStep(poly: Polynomial, base: Polynomial)
    requires poly == Polynomial(0, [5]) && base == Linear(1)
    ensures LagrangeStep(poly, base, 2, 5) == Some((Sum(poly, NewZero()), Product(NewZero(), Linear(2))))
  {
    assert SliceCoeffs(poly) == [5];
    HornerSingle(5, 2);
    assert Value(poly, 2) == 5;
    assert Value(base, 2) == 1;
    InverseUnique(1, 1);
    assert Mul(Sub(5, Value(poly, 2)), 1) == 0;
  }

  /** The collapsed base vanishes at x = 3, so inverting its value fails. */
  lemma CollinearSecondStep(poly: Polynomial, next: Polynomial)
    requires Valid(poly) && next == Product(NewZero(), Linear(2))
    ensures LagrangeStep(poly, next, 3, 5).None?
  {
    ProductValue(NewZero(), Linear(2), 3);
    IsZeroMeansVanishes(NewZero(), 3);
    MulZero(Value(Linear(2), 3));
    assert Value(next, 3) == 0;
    MulZero(0);
  }


  // Newton interpolation as intended: base keeps its product form
  // (X - x_0)...(X - x_{i-1}) and only the copy added to poly is scaled.

  function LagrangeStepFixed(poly: Polynomial, base: Polynomial, x: Scalar, y: Scalar): (r: Option<(Polynomial, Polynomial)>)
    requires Valid(poly) && Valid(base)
    ensures r.Some? ==> Valid(r.value.0) && Valid(r.value.1)
    ensures r.None? <==> Inverse(Value(base, x)).None?
  {
    match Inverse(Value(base, x))
    case None => None
    case Some(inv) =>
      var diff := Mul(Sub(y, Value(poly, x)), inv);
      ScaledValue(base, diff, x);
      Some((Sum(poly, Scaled(base, diff)), Product(base, Linear(x))))
  }

  function LagrangeFromFixed(xs: seq<Scalar>, ys: seq<Scalar>, i: nat, poly: Polynomial, base: Polynomial): (r: Option<Polynomial>)
    requires |xs| == |ys| && i <= |xs| && Valid(poly) && Valid(base)
    ensures r.Some? ==> Valid(r.value)
    decreases |xs| - i
  {
    if i == |xs| then Some(poly)
    else match LagrangeStepFixed(poly, base, xs[i], ys[i])
      case None => None
      case Some((p, b)) => LagrangeFromFixed(xs, ys, i + 1, p, b)
  }

  function LagrangeFixed(xs: seq<Scalar>, ys: seq<Scalar>): (r: Option<Polynomial>)
    requires |xs| == |ys| >= 1
    ensures r.Some? ==> Valid(r.value)
  {
    LagrangeFromFixed(xs, ys, 1, Polynomial(0, [ys[0]]), Linear(xs[0]))
  }

  /** Every pairwise difference of the sample points is invertible (distinct points of a field). */
  predicate DistinctPoints(xs: seq<Scalar>)
  {
    forall i, j :: 0 <= i < j < |xs| ==> Inverse(Sub(xs[j], xs[i])).Some?
  }

  /** One step of the corrected loop keeps the loop invariant, for distinct points. */
  lemma LagrangeStepFixedInterpolates(xs: seq<Scalar>, ys: seq<Scalar>, i: nat, poly: Polynomial, base: Polynomial)
    requires |xs| == |ys| && i < |xs| && Valid(poly) && Valid(base) && DistinctPoints(xs)
    requires Interpolates(xs, ys, i, poly, base)
    requires forall m :: i <= m < |xs| ==> Inverse(Value(base, xs[m])).Some?
    ensures LagrangeStepFixed(poly, base, xs[i], ys[i]).Some?
    ensures Interpolates(xs, ys, i + 1, LagrangeStepFixed(poly, base, xs[i], ys[i]).value.0,
                         LagrangeStepFixed(poly, base, xs[i], ys[i]).value.1)
    ensures forall m :: i + 1 <= m < |xs| ==>
      Inverse(Value(LagrangeStepFixed(poly, base, xs[i], ys[i]).value.1, xs[m])).Some?
  {
    var inv := Inverse(Value(base, xs[i])).value;
    var diff := Mul(Sub(ys[i], Value(poly, xs[i])), inv);
    var next := Product(base, Linear(xs[i]));
    TimesLinearVanishes(xs, i, base);
    NewtonUpdate(xs, ys, i, poly, base, inv, diff);
    forall m | i + 1 <= m < |xs|
      ensures Inverse(Value(next, xs[m])).Some?
    {
      ProductValue(base, Linear(xs[i]), xs[m]);
      InverseOfProduct(Value(base, xs[m]), Sub(xs[m], xs[i]));
    }
    assert LagrangeStepFixed(poly, base, xs[i], ys[i]) == Some((Sum(poly, Scaled(base, diff)), next));
  }

  lemma {:induction false} LagrangeFromFixedInterpolates(xs: seq<Scalar>, ys: seq<Scalar>, i: nat, poly: Polynomial, base: Polynomial)
    requires |xs| == |ys| && i <= |xs| && Valid(poly) && Valid(base) && DistinctPoints(xs)
    requires Interpolates(xs, ys, i, poly, base)
    requires forall m :: i <= m < |xs| ==> Inverse(Value(base, xs[m])).Some?
    ensures LagrangeFromFixed(xs, ys, i, poly, base).Some?
    ensures forall j :: 0 <= j < |xs| ==> Value(LagrangeFromFixed(xs, ys, i, poly, base).value, xs[j]) == ys[j]
    decreases |xs| - i
  {
    if i == |xs| {
      assert LagrangeFromFixed(xs, ys, i, poly, base) == Some(poly);
    } else {
      LagrangeStepFixedInterpolates(xs, ys, i, poly, base);
      var step := LagrangeStepFixed(poly, base, xs[i], ys[i]).value;
      LagrangeFromFixedInterpolates(xs, ys, i + 1, step.0, step.1);
      assert LagrangeFromFixed(xs, ys, i, poly, base) == LagrangeFromFixed(xs, ys, i + 1, step.0, step.1);
    }
  }


  /** On distinct points the corrected interpolation never fails and passes through every sample. */
  lemma LagrangeFixedInterpolates(xs: seq<Scalar>, ys: seq<Scalar>)
    requires |xs| == |ys| >= 1 && DistinctPoints(xs)
    ensures LagrangeFixed(xs, ys).Some?
    ensures forall j :: 0 <= j < |xs| ==> Value(LagrangeFixed(xs, ys).value, xs[j]) == ys[j]
  {
    var poly := Polynomial(0, [ys[0]]);
    assert SliceCoeffs(poly) == [ys[0]];
    HornerSingle(ys[0], xs[0]);
    LagrangeFromFixedInterpolates(xs, ys, 1, poly, Linear(xs[0]));
  }

  lemma SmallPointsDistinct()
    ensures DistinctPoints([1, 2, 3])
  {
    InverseUnique(1, 1);
    InverseFromProduct(2, (R + 1) / 2);
  }

  /** The corrected loop handles the samples the original panics on. */
  lemma LagrangeFixedOnCollinearSamples(xs: seq<Scalar>, ys: seq<Scalar>)
    requires xs == [1, 2, 3] && ys == [5, 5, 5]
    ensures LagrangeFixed(xs, ys).Some?
    ensures forall j :: 0 <= j < 3 ==> Value(LagrangeFixed(xs, ys).value, xs[j]) == 5
  {
    SmallPointsDistinct();
    LagrangeFixedInterpolates(xs, ys);
  }

  /** y(X) = X^5 + 4X^3 + 7X^2 + 34 built by `new` takes the values 34, 46 and 3834 at 0, 1 and 5. */
  lemma EvalExample(c: seq<Scalar>)
    requires c == [34, 0, 7, 4, 0, 1]
    ensures Degree(c, 5) == 5
    ensures var p := Polynomial(Degree(c, 5), c);
      Value(p, 0) == 34 && Value(p, 1) == 46 && Value(p, 5) == 3834
  {
    var p := Polynomial(5, c);
    assert SliceCoeffs(p) == c;
    ExampleTails(c);
    ExampleAtZero(c);
    ExampleAtOne(c);
    ExampleAtFive(c);
  }

  lemma ExampleTails(c: seq<Scalar>)
    requires c == [34, 0, 7, 4, 0, 1]
    ensures c[1..] == [0, 7, 4, 0, 1] && c[2..] == [7, 4, 0, 1] && c[3..] == [4, 0, 1]
    ensures c[4..] == [0, 1] && c[5..] == [1] && c[6..] == []
  {
  }

  lemma ExampleAtZero(c: seq<Scalar>)
    requires c == [34, 0, 7, 4, 0, 1]
    ensures Horner(c, 0) == 34
  {
    ExampleTails(c);
    HornerSingle(1, 0);
    SmallMul(0, Horner(c[5..], 0));
    assert Horner(c[4..], 0) == 0;
    SmallMul(0, Horner(c[4..], 0));
    assert Horner(c[3..], 0) == 4;
    SmallMul(0, Horner(c[3..], 0));
    assert Horner(c[2..], 0) == 7;
    SmallMul(0, Horner(c[2..], 0));
    assert Horner(c[1..], 0) == 0;
    SmallMul(0, Horner(c[1..], 0));
  }

  lemma ExampleAtOne(c: seq<Scalar>)
    requires c == [34, 0, 7, 4, 0, 1]
    ensures Horner(c, 1) == 46
  {
    ExampleTails(c);
    HornerSingle(1, 1);
    SmallMul(1, Horner(c[5..], 1));
    assert Horner(c[4..], 1) == 1;
    SmallMul(1, Horner(c[4..], 1));
    assert Horner(c[3..], 1) == 5;
    SmallMul(1, Horner(c[3..], 1));
    assert Horner(c[2..], 1) == 12;
    SmallMul(1, Horner(c[2..], 1));
    assert Horner(c[1..], 1) == 12;
    SmallMul(1, Horner(c[1..], 1));
  }

  lemma ExampleAtFive(c: seq<Scalar>)
    requires c == [34, 0, 7, 4, 0, 1]
    ensures Horner(c, 5) == 3834
  {
    ExampleTails(c);
    HornerSingle(1, 5);
    SmallMul(5, Horner(c[5..], 5));
    assert Horner(c[4..], 5) == 5;
    SmallMul(5, Horner(c[4..], 5));
    assert Horner(c[3..], 5) == 29;
    SmallMul(5, Horner(c[3..], 5));
    assert Horner(c[2..], 5) == 152;
    SmallMul(5, Horner(c[2..], 5));
    assert Horner(c[1..], 5) == 760;
    SmallMul(5, Horner(c[1..], 5));
  }

}

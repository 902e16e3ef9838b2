/**
 * The mathematics behind the evaluation domain: finite sums in the scalar
 * field, the discrete Fourier transform of a coefficient vector (its values
 * at the powers of a root of unity), the recursive radix-2 decomposition
 * that the iterative butterfly network computes, and the inversion law that
 * makes `ifft` undo `fft`.
 */
module Dft {
  import opened Field
  import opened Polynomials

  // ---------------------------------------------------------------------
  // Finite sums f(0) + ... + f(n-1)
  // ---------------------------------------------------------------------

  function Sum(n: nat, f: nat -> Scalar): Scalar
  {
    if n == 0 then 0 else Add(Sum(n - 1, f), f(n - 1))
  }

  lemma {:induction false} SumExt(n: nat, f: nat -> Scalar, g: nat -> Scalar)
    requires forall i :: 0 <= i < n ==> f(i) == g(i)
    ensures Sum(n, f) == Sum(n, g)
  {
    if n > 0 {
      SumExt(n - 1, f, g);
    }
  }

  lemma {:induction false} SumAdd(n: nat, f: nat -> Scalar, g: nat -> Scalar, h: nat -> Scalar)
    requires forall i :: 0 <= i < n ==> h(i) == Add(f(i), g(i))
    ensures Sum(n, h) == Add(Sum(n, f), Sum(n, g))
  {
    if n > 0 {
      SumAdd(n - 1, f, g, h);
      AddSwap(Sum(n - 1, f), Sum(n - 1, g), f(n - 1), g(n - 1));
    }
  }

  lemma {:induction false} SumScale(n: nat, c: Scalar, f: nat -> Scalar, g: nat -> Scalar)
    requires forall i :: 0 <= i < n ==> g(i) == Mul(c, f(i))
    ensures Sum(n, g) == Mul(c, Sum(n, f))
  {
    if n == 0 {
      MulZero(c);
    } else {
      SumScale(n - 1, c, f, g);
      MulAddDistr(c, Sum(n - 1, f), f(n - 1));
    }
  }

  /** A sum over n + m terms splits into the first n and the last m. */
  lemma {:induction false} SumSplit(n: nat, m: nat, f: nat -> Scalar, g: nat -> Scalar)
    requires forall i :: 0 <= i < m ==> g(i) == f(n + i)
    ensures Sum(n + m, f) == Add(Sum(n, f), Sum(m, g))
  {
    if m > 0 {
      SumSplit(n, m - 1, f, g);
      var k := n + (m - 1);
      assert Sum(n + m, f) == Add(Sum(k, f), f(k));
      AddAssoc(Sum(n, f), Sum(m - 1, g), g(m - 1));
    }
  }

  /** A sum whose terms vanish except at j is its j-th term. */
  lemma {:induction false} SumDelta(n: nat, f: nat -> Scalar, j: nat)
    requires j < n
    requires forall i :: 0 <= i < n && i != j ==> f(i) == 0
    ensures Sum(n, f) == f(j)
  {
    if n - 1 == j {
      SumZero(j, f);
    } else {
      SumDelta(n - 1, f, j);
    }
  }

  lemma {:induction false} SumZero(n: nat, f: nat -> Scalar)
    requires forall i :: 0 <= i < n ==> f(i) == 0
    ensures Sum(n, f) == 0
  {
    if n > 0 {
      SumZero(n - 1, f);
    }
  }

  /** n ones add up to the image of n in the field. */
  lemma {:induction false} SumOnes(n: nat, f: nat -> Scalar)
    requires forall i :: 0 <= i < n ==> f(i) == 1
    ensures Sum(n, f) == FromNat(n)
  {
    if n > 0 {
      SumOnes(n - 1, f);
      FromNatSucc(n - 1);
    }
  }

  function Row(f: (nat, nat) -> Scalar, i: nat): nat -> Scalar
  {
    (j: nat) => f(i, j)
  }

  function Column(f: (nat, nat) -> Scalar, j: nat): nat -> Scalar
  {
    (i: nat) => f(i, j)
  }

  /** i maps to the sum of row i over m columns. */
  function RowSums(f: (nat, nat) -> Scalar, m: nat): nat -> Scalar
  {
    (i: nat) => Sum(m, Row(f, i))
  }

  /** j maps to the sum of column j over n rows. */
  function ColumnSums(f: (nat, nat) -> Scalar, n: nat): nat -> Scalar
  {
    (j: nat) => Sum(n, Column(f, j))
  }

  /** The order of a double sum can be exchanged. */
  lemma {:induction false} SumExchange(n: nat, m: nat, f: (nat, nat) -> Scalar)
    ensures Sum(n, RowSums(f, m)) == Sum(m, ColumnSums(f, n))
  {
    if n == 0 {
      SumZero(m, ColumnSums(f, 0));
    } else {
      SumExchange(n - 1, m, f);
      SumAdd(m, ColumnSums(f, n - 1), Row(f, n - 1), ColumnSums(f, n));
    }
  }

  // ---------------------------------------------------------------------
  // Polynomial values as sums
  // ---------------------------------------------------------------------

  /** The terms c[i] * t^i of the coefficient vector c at t. */
  function Terms(c: seq<Scalar>, t: Scalar): nat -> Scalar
  {
    (i: nat) => if i < |c| then Mul(c[i], Pow(t, i)) else 0
  }

  lemma {:induction false} HornerAsSum(c: seq<Scalar>, t: Scalar)
    ensures Horner(c, t) == Sum(|c|, Terms(c, t))
    decreases |c|
  {
    HornerIsPowerSum(c, t);
    if |c| > 0 {
      var p := c[..|c| - 1];
      HornerIsPowerSum(p, t);
      HornerAsSum(p, t);
      SumExt(|p|, Terms(p, t), Terms(c, t));
    }
  }

  // ---------------------------------------------------------------------
  // The transform
  // ---------------------------------------------------------------------

  /** The values of the polynomial with coefficients x at w^0, ..., w^(|x|-1). */
  function Transform(x: seq<Scalar>, w: Scalar): (y: seq<Scalar>)
    ensures |y| == |x|
  {
    seq(|x|, k requires 0 <= k < |x| => Horner(x, Pow(w, k)))
  }

  /** The terms x[j] * w^(j*k) of entry k of the transform. */
  function TransformTerms(x: seq<Scalar>, w: Scalar, k: nat): nat -> Scalar
  {
    (j: nat) => if j < |x| then Mul(x[j], Pow(w, j * k)) else 0
  }

  /** Entry k of the transform is the sum over j of x[j] * w^(j*k). */
  lemma TransformIsSum(x: seq<Scalar>, w: Scalar, k: nat)
    requires k < |x|
    ensures Transform(x, w)[k] == Sum(|x|, TransformTerms(x, w, k))
  {
    HornerAsSum(x, Pow(w, k));
    forall j | 0 <= j < |x|
      ensures Terms(x, Pow(w, k))(j) == TransformTerms(x, w, k)(j)
    {
      PowMul(w, k, j);
    }
    SumExt(|x|, Terms(x, Pow(w, k)), TransformTerms(x, w, k));
  }

  /** Scaling the input scales the transform. */
  lemma TransformScale(x: seq<Scalar>, w: Scalar, c: Scalar)
    ensures Transform(ScaleSeq(x, c), w) == ScaleSeq(Transform(x, w), c)
  {
    forall k | 0 <= k < |x|
      ensures Transform(ScaleSeq(x, c), w)[k] == ScaleSeq(Transform(x, w), c)[k]
    {
      HornerScaleSeq(x, c, Pow(w, k));
    }
  }

  // ---------------------------------------------------------------------
  // Radix-2 decomposition
  // ---------------------------------------------------------------------

  function Evens(x: seq<Scalar>): (e: seq<Scalar>)
    ensures |e| == (|x| + 1) / 2 && forall i :: 0 <= i < |e| ==> e[i] == x[2 * i]
  {
    seq((|x| + 1) / 2, i requires 0 <= i < (|x| + 1) / 2 => x[2 * i])
  }

  function Odds(x: seq<Scalar>): (o: seq<Scalar>)
    ensures |o| == |x| / 2 && forall i :: 0 <= i < |o| ==> o[i] == x[2 * i + 1]
  {
    seq(|x| / 2, i requires 0 <= i < |x| / 2 => x[2 * i + 1])
  }

  /** p(t) = p_even(t^2) + t * p_odd(t^2). */
  lemma {:induction false} HornerEvenOdd(x: seq<Scalar>, t: Scalar)
    requires |x| % 2 == 0
    ensures Horner(x, t) == Add(Horner(Evens(x), Mul(t, t)), Mul(t, Horner(Odds(x), Mul(t, t))))
    decreases |x|
  {
    if |x| > 0 {
      var rest := x[2..];
      assert Evens(x)[1..] == Evens(rest);
      assert Odds(x)[1..] == Odds(rest);
      assert x[1..][1..] == rest;
      HornerEvenOdd(rest, t);
      var tt := Mul(t, t);
      EvenOddAlgebra(x[0], x[1], t, tt, Horner(Evens(rest), tt), Horner(Odds(rest), tt), Horner(rest, t));
    }
  }

  /** a + t (b + t H) with H = E + t O, regrouped by even and odd powers. */
  lemma EvenOddAlgebra(a: Scalar, b: Scalar, t: Scalar, tt: Scalar, E: Scalar, O: Scalar, H: Scalar)
    requires tt == Mul(t, t) && H == Add(E, Mul(t, O))
    ensures Add(a, Mul(t, Add(b, Mul(t, H)))) == Add(Add(a, Mul(tt, E)), Mul(t, Add(b, Mul(tt, O))))
  {
    MulAddDistr(t, b, Mul(t, H));
    MulAssoc(t, t, H);
    MulAddDistr(tt, E, Mul(t, O));
    MulSelfComm(tt, t, O);
    MulAddDistr(t, b, Mul(tt, O));
    AddSwap(a, Mul(t, b), Mul(tt, E), Mul(t, Mul(tt, O)));
  }

  /**
   * One butterfly layer: positions k and k + h of the result are
   * e[k] + o[k] * w^k and e[k] - o[k] * w^k.
   */
  function Merge(e: seq<Scalar>, o: seq<Scalar>, w: Scalar): (r: seq<Scalar>)
    requires |e| == |o|
    ensures |r| == 2 * |e|
  {
    seq(2 * |e|, i requires 0 <= i < 2 * |e| => MergeAt(e, o, w, i))
  }

  function MergeAt(e: seq<Scalar>, o: seq<Scalar>, w: Scalar, i: nat): Scalar
    requires |e| == |o| && i < 2 * |e|
  {
    if i < |e| then Add(e[i], Mul(o[i], Pow(w, i)))
    else Sub(e[i - |e|], Mul(o[i - |e|], Pow(w, i - |e|)))
  }

  /** The recursive radix-2 FFT of a vector of length 2^l. */
  function RecFft(x: seq<Scalar>, w: Scalar, l: nat): (y: seq<Scalar>)
    requires |x| == Pow2(l)
    ensures |y| == |x|
    decreases l
  {
    if l == 0 then x
    else Merge(RecFft(Evens(x), Mul(w, w), l - 1), RecFft(Odds(x), Mul(w, w), l - 1), w)
  }

  /** The square of a primitive 2^l-th root is a primitive 2^(l-1)-th root. */
  lemma SquareIsPrimitive(w: Scalar, l: nat)
    requires l >= 1 && IsPrimitiveRoot(w, l)
    ensures IsPrimitiveRoot(Mul(w, w), l - 1)
  {
    PowTwo(w);
    if l == 1 {
      NegOneSquared();
    } else {
      PowMul(w, 2, Pow2(l - 2));
    }
  }

  /** Both halves of a vector of length 2h have length h. */
  lemma HalvesLength(x: seq<Scalar>, h: nat)
    requires |x| == h + h
    ensures |Evens(x)| == h && |Odds(x)| == h
  {
  }

  /**
   * Merging the transforms of the even and odd halves by w^2 gives the
   * transform by w, when w^h is -1 for the half length h.
   */
  lemma MergeOfHalves(x: seq<Scalar>, w: Scalar, h: nat, i: nat)
    requires |x| == h + h && Pow(w, h) == R - 1 && i < |x|
    ensures |Evens(x)| == |Odds(x)|
    ensures Merge(Transform(Evens(x), Mul(w, w)), Transform(Odds(x), Mul(w, w)), w)[i] == Horner(x, Pow(w, i))
  {
    HalvesLength(x, h);
    if i < h {
      MergeLow(x, w, h, i);
    } else {
      MergeHigh(x, w, h, i, i - h);
    }
  }

  /** Entry k < h of the merge: x(w^k) = E + w^k O. */
  lemma MergeLow(x: seq<Scalar>, w: Scalar, h: nat, k: nat)
    requires |x| == h + h && k < h
    ensures |Evens(x)| == |Odds(x)|
    ensures Merge(Transform(Evens(x), Mul(w, w)), Transform(Odds(x), Mul(w, w)), w)[k] == Horner(x, Pow(w, k))
  {
    HalvesLength(x, h);
    var ww, t := Mul(w, w), Pow(w, k);
    var tt := Pow(ww, k);
    MergeEntryLow(Transform(Evens(x), ww), Transform(Odds(x), ww), w, k);
    PowOfMul(w, w, k);
    EvenOddAt(x, t, tt);
    MulComm(t, Horner(Odds(x), tt));
  }

  /** Entry i = k + h of the merge: x(w^i) = x(-w^k) = E - w^k O. */
  lemma MergeHigh(x: seq<Scalar>, w: Scalar, h: nat, i: nat, k: nat)
    requires |x| == h + h && Pow(w, h) == R - 1 && i == k + h && k < h
    ensures |Evens(x)| == |Odds(x)|
    ensures Merge(Transform(Evens(x), Mul(w, w)), Transform(Odds(x), Mul(w, w)), w)[i] == Horner(x, Pow(w, i))
  {
    HalvesLength(x, h);
    var ww, t := Mul(w, w), Pow(w, k);
    var tt := Pow(ww, k);
    MergeEntryHigh(Transform(Evens(x), ww), Transform(Odds(x), ww), w, i, k);
    HalfPeriod(w, k, h, i);
    PowOfMul(w, w, k);
    SquareOfNeg(t);
    EvenOddAt(x, Neg(t), tt);
    NegButterfly(Horner(Evens(x), tt), Horner(Odds(x), tt), t);
  }

  /** e + (-t) o is e - o t. */
  lemma NegButterfly(E: Scalar, O: Scalar, t: Scalar)
    ensures Add(E, Mul(Neg(t), O)) == Sub(E, Mul(O, t))
  {
    SubIsAddNeg(E, Mul(O, t));
    MulNeg(O, t);
    MulComm(O, Neg(t));
  }

  lemma EvenOddAt(x: seq<Scalar>, t: Scalar, tt: Scalar)
    requires |x| % 2 == 0 && Mul(t, t) == tt
    ensures Horner(x, t) == Add(Horner(Evens(x), tt), Mul(t, Horner(Odds(x), tt)))
  {
    HornerEvenOdd(x, t);
  }

  lemma MergeEntryLow(e: seq<Scalar>, o: seq<Scalar>, w: Scalar, k: nat)
    requires |e| == |o| && k < |e|
    ensures Merge(e, o, w)[k] == Add(e[k], Mul(o[k], Pow(w, k)))
  {
  }

  lemma MergeEntryHigh(e: seq<Scalar>, o: seq<Scalar>, w: Scalar, i: nat, k: nat)
    requires |e| == |o| && i == k + |e| && k < |e|
    ensures Merge(e, o, w)[i] == Sub(e[k], Mul(o[k], Pow(w, k)))
  {
  }

  /** w^(k+h) = -w^k when w^h = -1. */
  lemma HalfPeriod(w: Scalar, k: nat, h: nat, i: nat)
    requires Pow(w, h) == R - 1 && i == k + h
    ensures Pow(w, i) == Neg(Pow(w, k))
  {
    var t := Pow(w, k);
    PowAdd(w, k, h);
    MulNeg(t, 1);
    MulOne(t);
  }

  lemma SquareOfNeg(t: Scalar)
    ensures Mul(Neg(t), Neg(t)) == Mul(t, t)
  {
    MulNeg(Neg(t), t);
    MulComm(Neg(t), t);
    MulNeg(t, t);
  }

  /** For a primitive root of matching order, the recursive FFT computes the transform. */
  /** An input RecFft is meant for: 2^l entries and a primitive 2^l-th root. */
  ghost predicate FftInput(x: seq<Scalar>, w: Scalar, l: nat)
  {
    |x| == Pow2(l) && IsPrimitiveRoot(w, l)
  }

  lemma {:induction false} RecFftIsTransform(x: seq<Scalar>, w: Scalar, l: nat)
    requires FftInput(x, w, l)
    ensures RecFft(x, w, l) == Transform(x, w)
    decreases l, 2
  {
    if l == 0 {
      RecFftBase(x, w);
    } else {
      RecFftInductive(x, w, l);
    }
  }

  /** The inductive case: both halves are transforms by w^2, which merge into the transform by w. */
  lemma {:induction false} RecFftInductive(x: seq<Scalar>, w: Scalar, l: nat)
    requires l >= 1 && FftInput(x, w, l)
    ensures RecFft(x, w, l) == Transform(x, w)
    decreases l, 1
  {
    HalvesTransformed(x, w, l);
    RecFftStep(x, w, l);
  }

  /** By induction, the FFTs of both halves are their transforms by w^2. */
  lemma {:induction false} HalvesTransformed(x: seq<Scalar>, w: Scalar, l: nat)
    requires l >= 1 && FftInput(x, w, l)
    ensures |Evens(x)| == Pow2(l - 1) && |Odds(x)| == Pow2(l - 1)
    ensures RecFft(Evens(x), Mul(w, w), l - 1) == Transform(Evens(x), Mul(w, w))
    ensures RecFft(Odds(x), Mul(w, w), l - 1) == Transform(Odds(x), Mul(w, w))
    decreases l, 0
  {
    HalvesOfPower(x, w, l);
    RecFftIsTransform(Evens(x), Mul(w, w), l - 1);
    RecFftIsTransform(Odds(x), Mul(w, w), l - 1);
  }

  /** The halves of an FFT input of size 2^l are FFT inputs of size 2^(l-1) for w^2. */
  lemma HalvesOfPower(x: seq<Scalar>, w: Scalar, l: nat)
    requires l >= 1 && FftInput(x, w, l)
    ensures FftInput(Evens(x), Mul(w, w), l - 1) && FftInput(Odds(x), Mul(w, w), l - 1)
  {
    var h := Pow2(l - 1);
    assert |x| == h + h;
    HalvesLength(x, h);
    SquareIsPrimitive(w, l);
  }

  lemma RecFftBase(x: seq<Scalar>, w: Scalar)
    requires |x| == 1
    ensures RecFft(x, w, 0) == Transform(x, w)
  {
    assert x == [x[0]];
    HornerSingle(x[0], Pow(w, 0));
    assert Transform(x, w)[0] == x[0];
  }

  /** The inductive step: transforms of the halves merge into the transform. */
  lemma RecFftStep(x: seq<Scalar>, w: Scalar, l: nat)
    requires l >= 1 && FftInput(x, w, l)
    requires RecFft(Evens(x), Mul(w, w), l - 1) == Transform(Evens(x), Mul(w, w))
    requires RecFft(Odds(x), Mul(w, w), l - 1) == Transform(Odds(x), Mul(w, w))
    ensures RecFft(x, w, l) == Transform(x, w)
  {
    var h := Pow2(l - 1);
    assert |x| == h + h;
    var y, t := RecFft(x, w, l), Transform(x, w);
    forall i | 0 <= i < |x|
      ensures y[i] == t[i]
    {
      MergeOfHalves(x, w, h, i);
    }
  }

  // ---------------------------------------------------------------------
  // Orthogonality and inversion
  // ---------------------------------------------------------------------

  lemma {:induction false} PowNegOne(e: nat)
    ensures Pow(R - 1, e) == if e % 2 == 0 then 1 else R - 1
  {
    if e > 0 {
      PowNegOne(e - 1);
      NegOneSquared();
      MulOne(R - 1);
    }
  }

  /** The geometric sum of u over one period: sum over k < n of u^k. */
  function Geometric(u: Scalar, n: nat): Scalar
  {
    Sum(n, Powers(u))
  }

  function Powers(u: Scalar): nat -> Scalar
  {
    (k: nat) => Pow(u, k)
  }

  /** A geometric sum over 2h terms is its first half times (1 + u^h). */
  lemma GeometricSplit(u: Scalar, h: nat)
    ensures Geometric(u, h + h) == Add(Geometric(u, h), Mul(Pow(u, h), Geometric(u, h)))
  {
    var f := Powers(u);
    var g := (k: nat) => Pow(u, h + k);
    SumSplit(h, h, f, g);
    forall k | 0 <= k < h
      ensures g(k) == Mul(Pow(u, h), f(k))
    {
      PowAdd(u, h, k);
    }
    SumScale(h, Pow(u, h), f, g);
  }

  /** (w^e)^h is 1 or -1 according to the parity of e, when w^h is -1. */
  lemma PowOfHalfPeriod(w: Scalar, h: nat, e: nat)
    requires Pow(w, h) == R - 1
    ensures Pow(Pow(w, e), h) == if e % 2 == 0 then 1 else R - 1
  {
    PowMul(w, e, h);
    PowMul(w, h, e);
    assert e * h == h * e;
    PowNegOne(e);
  }

  /** For a primitive 2^l-th root w and 0 < e < 2^l, the powers of w^e add up to 0. */
  lemma {:induction false} GeometricVanishes(w: Scalar, l: nat, e: nat)
    requires l >= 1 && IsPrimitiveRoot(w, l) && 0 < e < Pow2(l)
    ensures Geometric(Pow(w, e), Pow2(l)) == 0
    decreases l
  {
    var h := Pow2(l - 1);
    assert Pow2(l) == h + h;
    var u := Pow(w, e);
    GeometricSplit(u, h);
    PowOfHalfPeriod(w, h, e);
    if e % 2 == 1 {
      CancelHalves(Geometric(u, h), Pow(u, h));
    } else {
      GeometricVanishesEven(w, l, e);
      MulZero(Pow(u, h));
    }
  }

  /** s + (-1) s = 0. */
  lemma CancelHalves(s: Scalar, p: Scalar)
    requires p == R - 1
    ensures Add(s, Mul(p, s)) == 0
  {
    MulComm(p, s);
    MulNeg(s, 1);
    MulOne(s);
  }

  /** The even case: w^e = (w^2)^(e/2), a power of a primitive 2^(l-1)-th root. */
  lemma {:induction false} GeometricVanishesEven(w: Scalar, l: nat, e: nat)
    requires l >= 1 && IsPrimitiveRoot(w, l) && 0 < e < Pow2(l) && e % 2 == 0
    ensures Geometric(Pow(w, e), Pow2(l - 1)) == 0
    decreases l, 0
  {
    var e2 := e / 2;
    var ww := Mul(w, w);
    SquareIsPrimitive(w, l);
    PowTwo(w);
    PowMul(w, 2, e2);
    assert Pow(w, e) == Pow(ww, e2);
    if l == 1 {
      assert false;
    } else {
      GeometricVanishes(ww, l - 1, e2);
    }
  }

  lemma GeometricOfOne(n: nat)
    ensures Geometric(1, n) == FromNat(n)
  {
    forall k | 0 <= k < n
      ensures Pow(1, k) == 1
    {
      PowOfOne(k);
    }
    SumOnes(n, Powers(1));
  }

  /** w^i * v^j with v the inverse of w, folded into one power of w. */
  lemma PowerRatio(w: Scalar, v: Scalar, l: nat, i: nat, j: nat)
    requires IsPrimitiveRoot(w, l) && Mul(w, v) == 1 && i < Pow2(l) && j < Pow2(l)
    ensures Mul(Pow(w, i), Pow(v, j)) == Pow(w, if i >= j then i - j else Pow2(l) - (j - i))
  {
    if i >= j {
      RatioAbove(w, v, i - j, j, i);
    } else {
      PrimitiveRootPeriod(w, l);
      RatioBelow(w, v, i, j - i, j, Pow2(l));
    }
  }

  lemma PowersCancel(w: Scalar, v: Scalar, d: nat)
    requires Mul(w, v) == 1
    ensures Mul(Pow(w, d), Pow(v, d)) == 1
  {
    PowOfMul(w, v, d);
    PowOfOne(d);
  }

  /** w^(d+j) v^j = w^d. */
  lemma RatioAbove(w: Scalar, v: Scalar, d: nat, j: nat, i: nat)
    requires Mul(w, v) == 1 && i == d + j
    ensures Mul(Pow(w, i), Pow(v, j)) == Pow(w, d)
  {
    PowersCancel(w, v, j);
    PowAdd(w, d, j);
    MulAssoc(Pow(w, d), Pow(w, j), Pow(v, j));
    MulOne(Pow(w, d));
  }

  /** w^i v^(i+d) = v^d = w^(n-d) when w^n = 1. */
  lemma RatioBelow(w: Scalar, v: Scalar, i: nat, d: nat, j: nat, n: nat)
    requires Mul(w, v) == 1 && j == i + d && d <= n && Pow(w, n) == 1
    ensures Mul(Pow(w, i), Pow(v, j)) == Pow(w, n - d)
  {
    PowersCancel(w, v, i);
    PowersCancel(w, v, d);
    PowAdd(v, i, d);
    MulAssoc(Pow(w, i), Pow(v, i), Pow(v, d));
    MulOne(Pow(v, d));
    PowAdd(w, d, n - d);
    InverseUnique(Pow(w, d), Pow(v, d));
    InverseUnique(Pow(w, d), Pow(w, n - d));
  }

  /** Sum over k < 2^l of (w^i v^j)^k: 2^l when i = j, otherwise 0. */
  lemma Orthogonality(w: Scalar, v: Scalar, l: nat, i: nat, j: nat)
    requires IsPrimitiveRoot(w, l) && Mul(w, v) == 1 && i < Pow2(l) && j < Pow2(l)
    ensures Geometric(Mul(Pow(w, i), Pow(v, j)), Pow2(l)) == if i == j then FromNat(Pow2(l)) else 0
  {
    PowerRatio(w, v, l, i, j);
    if i == j {
      GeometricOfOne(Pow2(l));
    } else {
      assert l >= 1;
      GeometricVanishes(w, l, if i >= j then i - j else Pow2(l) - (j - i));
    }
  }

  /** Term (k, i) of the double sum: x[i] * (w^i t)^k. */
  function InverseTerms(x: seq<Scalar>, w: Scalar, t: Scalar): (nat, nat) -> Scalar
  {
    (k: nat, i: nat) => if i < |x| then Mul(x[i], Pow(Mul(Pow(w, i), t), k)) else 0
  }

  /** x[i] weighted by the geometric sum of w^i v^j. */
  function Weighted(x: seq<Scalar>, w: Scalar, v: Scalar, j: nat): nat -> Scalar
  {
    (i: nat) => if i < |x| then Mul(x[i], Geometric(Mul(Pow(w, i), Pow(v, j)), |x|)) else 0
  }

  /** Regrouping x[i] w^(ik) v^(jk) by powers of w^i v^j. */
  lemma InverseTermEntry(x: seq<Scalar>, w: Scalar, t: Scalar, k: nat, i: nat)
    requires i < |x|
    ensures Row(InverseTerms(x, w, t), k)(i) == Mul(Pow(t, k), Terms(x, Pow(w, k))(i))
  {
    var a, b, c := Pow(t, k), x[i], Pow(Pow(w, k), i);
    calc {
      Mul(a, Mul(b, c));
      { MulSelfComm(a, b, c); }
      Mul(b, Mul(a, c));
      { PowMul(w, k, i); PowMul(w, i, k); assert k * i == i * k; }
      Mul(b, Mul(a, Pow(Pow(w, i), k)));
      { PowOfMul(Pow(w, i), t, k); MulComm(a, Pow(Pow(w, i), k)); }
      InverseTerms(x, w, t)(k, i);
    }
  }

  /** Entry j of the transform by v of the transform by w of x, as a double sum. */
  lemma DoubleTransformEntry(x: seq<Scalar>, w: Scalar, v: Scalar, j: nat)
    requires j < |x|
    ensures Transform(Transform(x, w), v)[j] == Sum(|x|, Weighted(x, w, v, j))
  {
    var n := |x|;
    var F := InverseTerms(x, w, Pow(v, j));
    OuterAsColumns(x, w, Pow(v, j));
    forall i | 0 <= i < n
      ensures ColumnSums(F, n)(i) == Weighted(x, w, v, j)(i)
    {
      ColumnOfInverseTerms(x, w, v, j, i);
    }
    SumExt(n, ColumnSums(F, n), Weighted(x, w, v, j));
  }

  /** The transform of x by w, read at t, summed column by column. */
  lemma OuterAsColumns(x: seq<Scalar>, w: Scalar, t: Scalar)
    ensures Horner(Transform(x, w), t) == Sum(|x|, ColumnSums(InverseTerms(x, w, t), |x|))
  {
    var n := |x|;
    var y := Transform(x, w);
    var F := InverseTerms(x, w, t);
    HornerAsSum(y, t);
    forall k | 0 <= k < n
      ensures Terms(y, t)(k) == RowSums(F, n)(k)
    {
      RowOfInverseTerms(x, w, t, k);
    }
    SumExt(n, Terms(y, t), RowSums(F, n));
    SumExchange(n, n, F);
  }

  /** Row k of the double sum adds up to term k of the outer Horner sum. */
  lemma RowOfInverseTerms(x: seq<Scalar>, w: Scalar, t: Scalar, k: nat)
    requires k < |x|
    ensures Terms(Transform(x, w), t)(k) == RowSums(InverseTerms(x, w, t), |x|)(k)
  {
    var n, F := |x|, InverseTerms(x, w, t);
    HornerAsSum(x, Pow(w, k));
    forall i | 0 <= i < n
      ensures Row(F, k)(i) == Mul(Pow(t, k), Terms(x, Pow(w, k))(i))
    {
      InverseTermEntry(x, w, t, k, i);
    }
    SumScale(n, Pow(t, k), Terms(x, Pow(w, k)), Row(F, k));
    var yk := Transform(x, w)[k];
    assert yk == Sum(n, Terms(x, Pow(w, k)));
    MulComm(yk, Pow(t, k));
  }

  /** Column i of the double sum is x[i] times a geometric sum. */
  lemma ColumnOfInverseTerms(x: seq<Scalar>, w: Scalar, v: Scalar, j: nat, i: nat)
    requires i < |x|
    ensures ColumnSums(InverseTerms(x, w, Pow(v, j)), |x|)(i) == Weighted(x, w, v, j)(i)
  {
    var t := Pow(v, j);
    SumScale(|x|, x[i], Powers(Mul(Pow(w, i), t)), Column(InverseTerms(x, w, t), i));
  }

  /**
   * Transforming by a primitive 2^l-th root w and then by its inverse v
   * multiplies every entry by 2^l.
   */
  lemma TransformInverse(x: seq<Scalar>, w: Scalar, v: Scalar, l: nat)
    requires |x| == Pow2(l) && IsPrimitiveRoot(w, l) && Mul(w, v) == 1
    ensures Transform(Transform(x, w), v) == ScaleSeq(x, FromNat(Pow2(l)))
  {
    var n := Pow2(l);
    forall j | 0 <= j < n
      ensures Transform(Transform(x, w), v)[j] == Mul(x[j], FromNat(n))
    {
      DoubleTransformEntry(x, w, v, j);
      forall i | 0 <= i < n
        ensures Weighted(x, w, v, j)(i) == if i == j then Mul(x[j], FromNat(n)) else 0
      {
        Orthogonality(w, v, l, i, j);
        MulZero(x[i]);
      }
      SumDelta(n, Weighted(x, w, v, j), j);
    }
  }

  /** The inverse of a primitive 2^l-th root is one too. */
  lemma InverseIsPrimitive(w: Scalar, v: Scalar, l: nat)
    requires IsPrimitiveRoot(w, l) && Mul(w, v) == 1
    ensures IsPrimitiveRoot(v, l) && Mul(v, w) == 1
  {
    MulComm(w, v);
    if l == 0 {
      MulOne(v);
    } else {
      var h := Pow2(l - 1);
      PowOfMul(w, v, h);
      PowOfOne(h);
      NegOneSquared();
      InverseUnique(R - 1, Pow(v, h));
      InverseUnique(R - 1, R - 1);
    }
  }
}

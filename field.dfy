/**
 * The scalar field that every other module computes in: the integers modulo
 * the prime R of the BLS12-381 scalar field, with the field's fixed 2^S-th
 * root of unity.  Field elements are kept as canonical representatives in
 * [0, R).  The field laws hold for any modulus; the facts about the
 * constants (ROOT's order, and the inverses of 2 and of the generator) are
 * proved by computation with this value of R.
 */
module Field {

  /** Modulus of the scalar field (order of the BLS12-381 groups). */
  const R: int := 52435875175126190479447740508185965837690552500527637822603658699938581184513

  /** Two-adicity of the field: 2^S divides R - 1. */
  const S: nat := 32

  /** The field's multiplicative generator. */
  const GENERATOR: int := 7

  /** The field's fixed primitive 2^S-th root of unity, GENERATOR^((R-1)/2^S). */
  const ROOT: int := 10238227357739495823651030575849232062558860180284477541189508159991286009131

  type Scalar = x: int | 0 <= x < R

  function Add(a: Scalar, b: Scalar): Scalar
  {
    if a + b < R then a + b else a + b - R
  }

  function Neg(a: Scalar): Scalar
  {
    if a == 0 then 0 else R - a
  }

  function Sub(a: Scalar, b: Scalar): Scalar
  {
    if a >= b then a - b else a - b + R
  }

  /**
   * Field multiplication, written as repeated field addition; MulIsProduct
   * shows that it is the reduced integer product (a * b) mod R.
   */
  function Mul(a: Scalar, b: Scalar): Scalar
  {
    Times(a, b)
  }

  /** a added to itself n times. */
  function Times(a: Scalar, n: nat): Scalar
  {
    if n == 0 then 0 else Add(Times(a, n - 1), a)
  }

  /** x^n by repeated multiplication. */
  function Pow(x: Scalar, n: nat): Scalar
  {
    if n == 0 then 1 else Mul(x, Pow(x, n - 1))
  }

  /** The image of a machine integer in the field (`Scalar::from(n as u64)`). */
  function FromNat(n: nat): Scalar
  {
    n % R
  }

  /** Counting up by one in the field. */
  lemma FromNatSucc(n: nat)
    ensures FromNat(n + 1) == Add(FromNat(n), 1)
  {
    var q, r := n / R, n % R;
    assert n == q * R + r;
    if r + 1 == R {
      ModShift(q + 1, 0);
      assert n + 1 == (q + 1) * R;
    } else {
      ModShift(q, r + 1);
    }
  }

  /** 2^k as a natural number. */
  function Pow2(k: nat): (r: nat)
    ensures r >= 1
  {
    if k == 0 then 1 else 2 * Pow2(k - 1)
  }

  // ---------------------------------------------------------------------
  // Ring laws.  Addition and subtraction are linear and proved by the
  // solver directly; multiplication needs the reduction lemmas below.
  // ---------------------------------------------------------------------

  lemma ModShift(k: int, z: int)
    ensures (k * R + z) % R == z % R
  {
  }

  lemma ModMulLeft(x: int, y: int)
    ensures ((x % R) * y) % R == (x * y) % R
  {
    var q, r := x / R, x % R;
    assert x == q * R + r;
    var k := q * y;
    calc {
      x * y;
      (q * R + r) * y;
      { assert (q * R + r) * y == q * R * y + r * y; }
      q * R * y + r * y;
      { assert q * R * y == k * R; }
      k * R + r * y;
    }
    ModShift(k, r * y);
  }

  lemma ModMulRight(x: int, y: int)
    ensures (x * (y % R)) % R == (x * y) % R
  {
    ModMulLeft(y, x);
    assert x * (y % R) == (y % R) * x;
    assert x * y == y * x;
  }

  lemma ModAdd(p: int, q: int)
    ensures (p % R + q % R) % R == (p + q) % R
  {
    ModShift(p / R + q / R, p % R + q % R);
    assert p + q == (p / R + q / R) * R + (p % R + q % R);
  }

  lemma AddIsMod(u: Scalar, v: Scalar)
    ensures Add(u, v) == (u + v) % R
  {
    if u + v >= R {
      ModShift(1, u + v - R);
    }
  }

  /** Repeated addition computes the reduced product. */
  lemma {:induction false} MulIsProduct(a: Scalar, n: nat)
    ensures Times(a, n) == (a * n) % R
    decreases n
  {
    if n > 0 {
      MulIsProduct(a, n - 1);
      SuccStep(a * (n - 1), a, Times(a, n - 1));
      ProductSucc(a, n);
    }
  }

  /** One more addition of a to a reduced integer p. */
  lemma SuccStep(p: int, a: Scalar, t: Scalar)
    requires t == p % R
    ensures Add(t, a) == (p + a) % R
  {
    AddIsMod(t, a);
    ModAdd(p, a);
    assert a % R == a;
  }

  /** A product already below R is its own reduction. */
  lemma SmallMul(a: Scalar, b: Scalar)
    requires a * b < R
    ensures Mul(a, b) == a * b
  {
    MulIsProduct(a, b);
    ProductNonNeg(a, b);
    BelowR(a * b);
  }

  lemma {:induction false} ProductNonNeg(a: nat, n: nat)
    ensures a * n >= 0
    decreases n
  {
    if n > 0 {
      ProductNonNeg(a, n - 1);
      ProductSucc(a, n);
    }
  }

  lemma BelowR(p: int)
    requires 0 <= p < R
    ensures p % R == p
  {
  }

  lemma ProductSucc(a: int, n: int)
    ensures a * n == a * (n - 1) + a
  {
  }

  lemma ProductAssoc(a: int, b: int, c: int)
    ensures (((a * b) % R) * c) % R == (a * ((b * c) % R)) % R
  {
    ModMulLeft(a * b, c);
    ModMulRight(a, b * c);
    assert (a * b) * c == a * (b * c);
  }

  lemma MulAssoc(a: Scalar, b: Scalar, c: Scalar)
    ensures Mul(Mul(a, b), c) == Mul(a, Mul(b, c))
  {
    MulIsProduct(a, b);
    MulIsProduct(b, c);
    MulIsProduct(Mul(a, b), c);
    MulIsProduct(a, Mul(b, c));
    ProductAssoc(a, b, c);
  }

  lemma AddAssoc(a: Scalar, b: Scalar, c: Scalar)
    ensures Add(Add(a, b), c) == Add(a, Add(b, c))
  {
  }

  lemma AddSwap(a: Scalar, b: Scalar, c: Scalar, d: Scalar)
    ensures Add(Add(a, b), Add(c, d)) == Add(Add(a, c), Add(b, d))
  {
  }

  lemma SubIsAddNeg(a: Scalar, b: Scalar)
    ensures Sub(a, b) == Add(a, Neg(b))
  {
  }

  lemma ProductDistr(a: int, b: int, c: int)
    ensures (a * ((b + c) % R)) % R == ((a * b) % R + (a * c) % R) % R
  {
    ModMulRight(a, b + c);
    assert a * (b + c) == a * b + a * c;
    ModAdd(a * b, a * c);
  }

  lemma MulAddDistr(a: Scalar, b: Scalar, c: Scalar)
    ensures Mul(a, Add(b, c)) == Add(Mul(a, b), Mul(a, c))
  {
    MulIsProduct(a, b);
    MulIsProduct(a, c);
    MulIsProduct(a, Add(b, c));
    AddIsMod(b, c);
    AddIsMod(Mul(a, b), Mul(a, c));
    ProductDistr(a, b, c);
  }

  /** Reduction of a negated integer. */
  lemma ModNeg(p: int)
    ensures p % R == 0 ==> (-p) % R == 0
    ensures p % R != 0 ==> (-p) % R == R - p % R
  {
    var q, r := p / R, p % R;
    assert p == q * R + r;
    if r == 0 {
      assert -p == (-q) * R + 0;
      ModShift(-q, 0);
    } else {
      assert -p == (-q - 1) * R + (R - r);
      ModShift(-q - 1, R - r);
    }
  }

  lemma ProductNeg(a: int, b: int)
    ensures (a * (R - b)) % R == (-(a * b)) % R
  {
    assert a * (R - b) == a * R + -(a * b);
    ModShift(a, -(a * b));
  }

  lemma MulNeg(a: Scalar, b: Scalar)
    ensures Mul(a, Neg(b)) == Neg(Mul(a, b))
  {
    if b != 0 {
      MulIsProduct(a, b);
      MulIsProduct(a, R - b);
      ProductNeg(a, b);
      ModNeg(a * b);
    }
  }

  lemma MulComm(a: Scalar, b: Scalar)
    ensures Mul(a, b) == Mul(b, a)
  {
    MulIsProduct(a, b);
    MulIsProduct(b, a);
    assert a * b == b * a;
  }

  lemma MulAddDistrRight(a: Scalar, b: Scalar, c: Scalar)
    ensures Mul(Add(a, b), c) == Add(Mul(a, c), Mul(b, c))
  {
    MulAddDistr(c, a, b);
    MulComm(Add(a, b), c);
    MulComm(a, c);
    MulComm(b, c);
  }

  lemma MulSubDistr(a: Scalar, b: Scalar, c: Scalar)
    ensures Mul(a, Sub(b, c)) == Sub(Mul(a, b), Mul(a, c))
  {
    assert Sub(b, c) == Add(b, Neg(c));
    MulAddDistr(a, b, Neg(c));
    MulNeg(a, c);
    SubIsAddNeg(Mul(a, b), Mul(a, c));
  }

  lemma MulOne(a: Scalar)
    ensures Mul(a, 1) == a && Mul(1, a) == a
  {
    assert Times(a, 0) == 0;
    assert Times(a, 1) == Add(0, a);
    MulIsProduct(1, a);
  }

  lemma MulZero(a: Scalar)
    ensures Mul(a, 0) == 0 && Mul(0, a) == 0
  {
    MulIsProduct(0, a);
  }

  lemma MulSelfComm(a: Scalar, b: Scalar, c: Scalar)
    ensures Mul(a, Mul(b, c)) == Mul(b, Mul(a, c))
  {
    MulAssoc(a, b, c);
    MulAssoc(b, a, c);
    MulComm(a, b);
  }

  // ---------------------------------------------------------------------
  // Powers
  // ---------------------------------------------------------------------

  lemma {:induction false} PowAdd(x: Scalar, a: nat, b: nat)
    ensures Pow(x, a + b) == Mul(Pow(x, a), Pow(x, b))
    decreases a
  {
    if a == 0 {
      MulOne(Pow(x, b));
    } else {
      PowAdd(x, a - 1, b);
      MulAssoc(x, Pow(x, a - 1), Pow(x, b));
    }
  }

  lemma {:induction false} PowMul(x: Scalar, a: nat, b: nat)
    ensures Pow(x, a * b) == Pow(Pow(x, a), b)
    decreases b
  {
    if b == 0 {
    } else {
      calc {
        Pow(x, a * b);
        { assert a * b == a + a * (b - 1); }
        Pow(x, a + a * (b - 1));
        { PowAdd(x, a, a * (b - 1)); }
        Mul(Pow(x, a), Pow(x, a * (b - 1)));
        { PowMul(x, a, b - 1); }
        Mul(Pow(x, a), Pow(Pow(x, a), b - 1));
      }
    }
  }

  lemma {:induction false} PowOfMul(x: Scalar, y: Scalar, n: nat)
    ensures Pow(Mul(x, y), n) == Mul(Pow(x, n), Pow(y, n))
  {
    if n == 0 {
      MulOne(1);
    } else {
      PowOfMul(x, y, n - 1);
      var p, q := Pow(x, n - 1), Pow(y, n - 1);
      calc {
        Pow(Mul(x, y), n);
        Mul(Mul(x, y), Mul(p, q));
        { MulAssoc(x, y, Mul(p, q)); }
        Mul(x, Mul(y, Mul(p, q)));
        { MulSelfComm(y, p, q); }
        Mul(x, Mul(p, Mul(y, q)));
        { MulAssoc(x, p, Mul(y, q)); }
        Mul(Mul(x, p), Mul(y, q));
      }
    }
  }

  lemma {:induction false} PowOfOne(n: nat)
    ensures Pow(1, n) == 1
  {
    if n > 0 {
      PowOfOne(n - 1);
    }
  }

  lemma PowTwo(x: Scalar)
    ensures Pow(x, 1) == x && Pow(x, 2) == Mul(x, x)
  {
    assert Pow(x, 1) == Mul(x, 1);
    MulOne(x);
  }

  /** Squaring a power of a power of two doubles the exponent. */
  lemma PowSquare(x: Scalar, k: nat)
    ensures Pow(x, Pow2(k + 1)) == Mul(Pow(x, Pow2(k)), Pow(x, Pow2(k)))
  {
    PowAdd(x, Pow2(k), Pow2(k));
  }

  // ---------------------------------------------------------------------
  // Inversion (`invert`, which yields a `CtOption`): extended Euclid.
  // ---------------------------------------------------------------------

  datatype Option<T> = None | Some(value: T)

  lemma MultipleMod(g: int, k: int)
    requires g > 0
    ensures (g * k) % g == 0
  {
    var d, m := (g * k) / g, (g * k) % g;
    assert g * k == d * g + m;
    assert m == g * (k - d);
    assert k - d >= 1 ==> g * (k - d) >= g;
    assert k - d <= -1 ==> g * (k - d) <= -g;
  }

  lemma DividesCombination(g: int, q: int, b: int, c: int)
    requires g > 0 && b % g == 0 && c % g == 0
    ensures (q * b + c) % g == 0
  {
    var bb, cc := b / g, c / g;
    assert b == g * bb;
    assert c == g * cc;
    assert q * b + c == g * (q * bb + cc);
    MultipleMod(g, q * bb + cc);
  }

  /** One step of Euclid's algorithm preserves the Bezout combination. */
  lemma EuclidStep(a: int, b: int, q: int, m: int, x: int, y: int)
    requires b > 0 && q == a / b && m == a % b
    ensures a == q * b + m
    ensures a * y + b * (x - q * y) == b * x + m * y
  {
    assert a * y == (q * b + m) * y == q * b * y + m * y;
    assert b * (x - q * y) == b * x - q * b * y;
  }

  /** Extended Euclid: `(g, x, y)` with `a*x + b*y == g` and g dividing a and b. */
  function Egcd(a: nat, b: nat): (r: (nat, int, int))
    ensures a * r.1 + b * r.2 == r.0
    ensures a > 0 || b > 0 ==> r.0 > 0 && a % r.0 == 0 && b % r.0 == 0
    decreases b
  {
    if b == 0 then
      (a, 1, 0)
    else
      var q, m := a / b, a % b;
      var rec := Egcd(b, m);
      var g, x, y := rec.0, rec.1, rec.2;
      EuclidStep(a, b, q, m, x, y);
      DividesCombination(g, q, b, m);
      (g, y, x - q * y)
  }

  /** The only value 1 can be a multiple of is 1 itself. */
  lemma NoDivisorOfOne(g: int, m: int)
    requires g > 0 && g * m == 1
    ensures g == 1
  {
    assert m <= 0 ==> g * m <= 0;
    assert m >= 1 ==> g * m >= g;
  }

  /** The multiplicative inverse of a, when there is one. */
  function Inverse(a: Scalar): (r: Option<Scalar>)
    ensures r.Some? ==> Mul(a, r.value) == 1
    ensures r.None? ==> forall c: Scalar :: Mul(a, c) != 1
  {
    var e := Egcd(a, R);
    if e.0 == 1 then
      MulIsProduct(a, e.1 % R);
      BezoutInverse(a, e.1, e.2);
      Some(e.1 % R)
    else
      InverseNone(a, e.0, e.2);
      None
  }

  /** A Bezout combination a*x + R*y = 1 makes x mod R an inverse of a. */
  lemma BezoutInverse(a: int, x: int, y: int)
    requires a * x + R * y == 1
    ensures (a * (x % R)) % R == 1
  {
    ModMulLeft(x, a);
    assert (a * (x % R)) % R == (x * a) % R;
    assert x * a == 1 - R * y;
    ModShift(-y, 1);
  }

  lemma InverseNone(a: Scalar, g: nat, y: int)
    requires g > 0 && a % g == 0 && R % g == 0 && g != 1
    ensures forall c: Scalar :: Mul(a, c) != 1
  {
    forall c: Scalar
      ensures Mul(a, c) != 1
    {
      MulIsProduct(a, c);
      NoInverseModR(a, g, c);
    }
  }

  /** A common divisor g != 1 of a and R rules out a * c = 1 (mod R). */
  lemma NoInverseModR(a: int, g: nat, c: int)
    requires g > 0 && a % g == 0 && R % g == 0 && g != 1
    ensures (a * c) % R != 1
  {
    {
      if (a * c) % R == 1 {
        var t := (a * c) / R;
        assert a * c == t * R + 1;
        var aa, rr := a / g, R / g;
        assert a == g * aa;
        assert R == g * rr;
        assert a * c == g * (aa * c);
        assert t * R == g * (t * rr);
        assert g * (aa * c - t * rr) == 1;
        NoDivisorOfOne(g, aa * c - t * rr);
      }
    }
  }

  /** Inverses are unique, so exhibiting one determines `Inverse`. */
  lemma InverseUnique(a: Scalar, c: Scalar)
    requires Mul(a, c) == 1
    ensures Inverse(a) == Some(c)
  {
    var v := Inverse(a).value;
    calc {
      v;
      { MulOne(v); }
      Mul(v, 1);
      Mul(v, Mul(a, c));
      { MulAssoc(v, a, c); }
      Mul(Mul(v, a), c);
      { MulComm(v, a); }
      Mul(1, c);
      { MulOne(c); }
      c;
    }
  }

  /** An integer product that reduces to 1 exhibits the inverse. */
  lemma InverseFromProduct(a: Scalar, c: Scalar)
    requires (a * c) % R == 1
    ensures Mul(a, c) == 1 && Inverse(a) == Some(c)
  {
    MulIsProduct(a, c);
    InverseUnique(a, c);
  }

  /** The e-th power of an invertible element has the e-th power of its inverse as inverse. */
  lemma PowerInvertible(a: Scalar, c: Scalar, e: nat)
    requires Mul(a, c) == 1
    ensures Inverse(Pow(a, e)) == Some(Pow(c, e))
  {
    PowOfMul(a, c, e);
    PowOfOne(e);
    InverseUnique(Pow(a, e), Pow(c, e));
  }

  /** A product of invertible elements is invertible, with the product of the inverses. */
  /** A product is invertible only when both factors are. */
  lemma InverseOfFactors(a: Scalar, b: Scalar)
    ensures Inverse(Mul(a, b)).Some? ==> Inverse(a).Some? && Inverse(b).Some?
  {
    if Inverse(Mul(a, b)).Some? {
      var c := Inverse(Mul(a, b)).value;
      MulAssoc(a, b, c);
      InverseUnique(a, Mul(b, c));
      MulComm(a, b);
      MulAssoc(b, a, c);
      InverseUnique(b, Mul(a, c));
    }
  }

  lemma InverseOfProduct(a: Scalar, b: Scalar)
    requires Inverse(a).Some? && Inverse(b).Some?
    ensures Inverse(Mul(a, b)) == Some(Mul(Inverse(a).value, Inverse(b).value))
  {
    var ia, ib := Inverse(a).value, Inverse(b).value;
    calc {
      Mul(Mul(a, b), Mul(ia, ib));
      { MulAssoc(a, b, Mul(ia, ib)); }
      Mul(a, Mul(b, Mul(ia, ib)));
      { MulSelfComm(b, ia, ib); }
      Mul(a, Mul(ia, Mul(b, ib)));
      Mul(a, Mul(ia, 1));
      { MulOne(ia); }
      1;
    }
    InverseUnique(Mul(a, b), Mul(ia, ib));
  }

  // ---------------------------------------------------------------------
  // Roots of unity
  // ---------------------------------------------------------------------

  lemma {:induction false} Pow2Add(a: nat, b: nat)
    ensures Pow2(a + b) == Pow2(a) * Pow2(b)
    decreases a
  {
    if a > 0 {
      Pow2Add(a - 1, b);
    }
  }

  /** x squared k times. */
  function Squares(x: Scalar, k: nat): Scalar
  {
    if k == 0 then x else Mul(Squares(x, k - 1), Squares(x, k - 1))
  }

  lemma {:induction false} PowPow2IsSquares(x: Scalar, k: nat)
    ensures Pow(x, Pow2(k)) == Squares(x, k)
  {
    if k > 0 {
      PowPow2IsSquares(x, k - 1);
      PowSquare(x, k - 1);
    } else {
      PowTwo(x);
    }
  }

  /**
   * w is a primitive 2^l-th root of unity: w^(2^(l-1)) is -1 (so w^(2^l) is 1),
   * and for l = 0, w is 1.
   */
  ghost predicate IsPrimitiveRoot(w: Scalar, l: nat)
  {
    (l == 0 ==> w == 1) && (l > 0 ==> Pow(w, Pow2(l - 1)) == R - 1)
  }

  /** y squared k times as reduced integer products, which the solver can evaluate on literals. */
  function SquaresMod(y: int, k: nat): int
  {
    if k == 0 then y else (SquaresMod(y, k - 1) * SquaresMod(y, k - 1)) % R
  }

  lemma {:induction false} SquaresIsSquaresMod(x: Scalar, k: nat)
    ensures Squares(x, k) == SquaresMod(x, k)
  {
    if k > 0 {
      SquaresIsSquaresMod(x, k - 1);
      MulIsProduct(Squares(x, k - 1), Squares(x, k - 1));
    }
  }

  /** ROOT squared 31 times is -1, by computation. */
  lemma RootSquares()
    ensures SquaresMod(ROOT, 31) == R - 1
  {
    assert SquaresMod(ROOT, 1) == 34070893824967080313820779135880760772780807222436853681508667398599787661631;
    assert SquaresMod(ROOT, 2) == 20094891866007995289136270587723853997043774683345353712639419774914899074390;
    assert SquaresMod(ROOT, 3) == 5660829372603820951332104046316074966592589311213397907344198301300676239643;
    assert SquaresMod(ROOT, 4) == 37480612446576615530266821837655054090426372233228960378061628060638903214217;
    assert SquaresMod(ROOT, 5) == 15932505959375582308231798849995567447410469395474322018100309999481287547373;
    assert SquaresMod(ROOT, 6) == 4541622677469846713471916119560591929733417256448031920623614406126544048514;
    assert SquaresMod(ROOT, 7) == 734830308204920577628633053915970695663549910788964686411700880930222744862;
    assert SquaresMod(ROOT, 8) == 18596002123094854211120822350746157678791770803088570110573239418060655130524;
    assert SquaresMod(ROOT, 9) == 52167942466760591552294394977846462646742207006759917080697723404762651336366;
    assert SquaresMod(ROOT, 10) == 4859563557044021881916617240989566298388494151979623102977292742331120628579;
    assert SquaresMod(ROOT, 11) == 32468834368094611004052562760214251466632493208153926274007662173556188291130;
    assert SquaresMod(ROOT, 12) == 1755840822790712607783180844474754741366353396308200820563736496551326485835;
    assert SquaresMod(ROOT, 13) == 37115000097562964541269718788523040559386243094666416358585267518228781043101;
    assert SquaresMod(ROOT, 14) == 20439484849038267462774237595151440867617792718791690563928621375157525968123;
    assert SquaresMod(ROOT, 15) == 15495926509001846844474268026226183818445427694968626800913907911890390421264;
    assert SquaresMod(ROOT, 16) == 15076889834420168339092859836519192632846122361203618639585008852351569017005;
    assert SquaresMod(ROOT, 17) == 22872204467218851938836547481240843888453165451755431061227190987689039608686;
    assert SquaresMod(ROOT, 18) == 39072540533732477250409069030641316533649120504872707460480262653418090977761;
    assert SquaresMod(ROOT, 19) == 32731401973776920074999878620293785439674386180695720638377027142500196583783;
    assert SquaresMod(ROOT, 20) == 39033254847818212395286706435128746857159659164139250548781411570340225835782;
    assert SquaresMod(ROOT, 21) == 49307615728544765012166121802278658070711169839041683575071795236746050763237;
    assert SquaresMod(ROOT, 22) == 22781213702924172180523978385542388841346373992886390990881355510284839737428;
    assert SquaresMod(ROOT, 23) == 4214636447306890335450803789410475782380792963881561516561680164772024173390;
    assert SquaresMod(ROOT, 24) == 36007022166693598376559747923784822035233416720563672082740011604939309541707;
    assert SquaresMod(ROOT, 25) == 47309214877430199588914062438791732591241783999377560080318349803002842391998;
    assert SquaresMod(ROOT, 26) == 31519469946562159605140591558550197856588417350474800936898404023113662197331;
    assert SquaresMod(ROOT, 27) == 36581797046584068049060372878520385032448812009597153775348195406694427778894;
    assert SquaresMod(ROOT, 28) == 14788168760825820622209131888203028446852016562542525606630160374691593895118;
    assert SquaresMod(ROOT, 29) == 23674694431658770659612952115660802947967373701506253797663184111817857449850;
    assert SquaresMod(ROOT, 30) == 3465144826073652318776269530687742778270252468765361963008;
    assert SquaresMod(ROOT, 31) == 52435875175126190479447740508185965837690552500527637822603658699938581184512;
  }

  /** ROOT has order exactly 2^S: its 2^(S-1)-th power is -1. */
  lemma RootIsPrimitive()
    ensures IsPrimitiveRoot(ROOT, S)
  {
    RootSquares();
    SquaresIsSquaresMod(ROOT, 31);
    PowPow2IsSquares(ROOT, 31);
  }

  lemma NegOneSquared()
    ensures Mul(R - 1, R - 1) == 1
  {
    var m := R - 1;
    MulIsProduct(m, m);
    assert m * m == (R - 2) * R + 1;
    ModShift(R - 2, 1);
  }

  lemma NegOneSquaredPower(w: Scalar, k: nat)
    requires Pow(w, Pow2(k)) == R - 1
    ensures Pow(w, Pow2(k + 1)) == 1
  {
    PowSquare(w, k);
    NegOneSquared();
  }

  lemma PrimitiveRootPeriodStep(w: Scalar, l: nat)
    requires IsPrimitiveRoot(w, l) && l > 0
    ensures Pow(w, Pow2(l)) == 1
  {
    NegOneSquaredPower(w, l - 1);
  }

  /** A primitive 2^l-th root of unity raised to 2^l is 1. */
  lemma PrimitiveRootPeriod(w: Scalar, l: nat)
    requires IsPrimitiveRoot(w, l)
    ensures Pow(w, Pow2(l)) == 1
  {
    if l > 0 {
      PrimitiveRootPeriodStep(w, l);
    } else {
      PowTwo(w);
    }
  }

  /** w^(2^(l-e)) is a primitive 2^e-th root when w is a primitive 2^l-th root. */
  lemma PowerOfPrimitive(w: Scalar, l: nat, e: nat)
    requires IsPrimitiveRoot(w, l) && e <= l
    ensures IsPrimitiveRoot(Pow(w, Pow2(l - e)), e)
  {
    if e == 0 {
      PrimitiveRootPeriod(w, l);
    } else {
      var a, b := l - e, e - 1;
      Pow2Add(a, b);
      assert a + b == l - 1;
      PowMul(w, Pow2(a), Pow2(b));
      assert Pow(w, Pow2(l - 1)) == Pow(Pow(w, Pow2(a)), Pow2(b));
    }
  }

  /** ROOT^(2^(S-e)) is a primitive 2^e-th root of unity, for every e <= S. */
  lemma RootPowerIsPrimitive(e: nat)
    requires e <= S
    ensures IsPrimitiveRoot(Pow(ROOT, Pow2(S - e)), e)
  {
    RootIsPrimitive();
    PowerOfPrimitive(ROOT, S, e);
  }
}

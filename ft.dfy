/**
 * The radix-2 evaluation domain: `serial_fft` (a bit-reversal permutation
 * followed by log n stages of in-place butterflies), the `EvaluationDomain`
 * object whose coefficient buffer it transforms, and the construction of a
 * domain from a coefficient vector.
 *
 * The butterfly network is proved to compute the recursive decomposition
 * `RecFft` of module Dft for every omega; when omega is a primitive 2^exp-th
 * root of unity that is the discrete Fourier transform, and `ifft` undoes it.
 */
module Ft {
  import opened Field
  import opened Polynomials
  import opened Dft
  import opened Kzg

  // ---------------------------------------------------------------------
  // Bit reversal
  // ---------------------------------------------------------------------

  /** The l low bits of k in reverse order. */
  function BitRev(k: nat, l: nat): (r: nat)
    ensures r < Pow2(l)
    decreases l
  {
    if l == 0 then 0 else (if k % 2 == 1 then Pow2(l - 1) else 0) + BitRev(k / 2, l - 1)
  }

  lemma BitRevStep(r: nat, n: nat, j: nat)
    requires j >= 1
    ensures (2 * r + n % 2) * Pow2(j - 1) + BitRev(n / 2, j - 1) == r * Pow2(j) + BitRev(n, j)
  {
    var p := Pow2(j - 1);
    assert Pow2(j) == 2 * p;
    assert (2 * r + n % 2) * p == r * (2 * p) + (n % 2) * p;
  }

  /**
   * `bitreverse`: shifts the low bit of n into r, l times. Every value stays
   * below 2^l <= 2^31, so the u32 shifts never lose a bit.
   */
  method Bitreverse(n: nat, l: nat) returns (r: nat)
    requires l < 32
    ensures r == BitRev(n, l)
  {
    var t := n;
    r := 0;
    var i := 0;
    while i < l
      invariant i <= l
      invariant r * Pow2(l - i) + BitRev(t, l - i) == BitRev(n, l)
    {
      BitRevStep(r, t, l - i);
      r := 2 * r + t % 2;
      t := t / 2;
      i := i + 1;
    }
  }

  /** With bit l1 of k clear, reversing l1 + 1 bits leaves a zero low bit. */
  lemma {:induction false} BitRevTopClear(k: nat, l1: nat)
    requires k < Pow2(l1)
    ensures BitRev(k, l1 + 1) == 2 * BitRev(k, l1)
    decreases l1
  {
    if l1 >= 1 {
      Halve(k, Pow2(l1 - 1));
      BitRevUnfold(k, l1);
      BitRevUnfold(k, l1 - 1);
      BitRevTopClear(k / 2, l1 - 1);
    }
  }

  /** With bit l1 of k set, and k1 the rest of k, reversing l1 + 1 bits gives a low 1 bit. */
  lemma {:induction false} BitRevTopSet(k: nat, l1: nat, k1: nat)
    requires Pow2(l1) <= k < Pow2(l1 + 1) && k1 == k - Pow2(l1)
    ensures BitRev(k, l1 + 1) == 2 * BitRev(k1, l1) + 1
    decreases l1
  {
    if l1 >= 1 {
      Halve(k, Pow2(l1 - 1));
      BitRevUnfold(k, l1);
      BitRevUnfold(k1, l1 - 1);
      BitRevTopSet(k / 2, l1 - 1, k1 / 2);
    } else {
      BitRevUnfold(k, 0);
    }
  }

  lemma BitRevUnfold(k: nat, l1: nat)
    ensures BitRev(k, l1 + 1) == (if k % 2 == 1 then Pow2(l1) else 0) + BitRev(k / 2, l1)
  {
  }

  /** Halving an index below or above 2 * h2, and removing the top bit below it. */
  lemma Halve(k: nat, h2: nat)
    ensures k < 2 * h2 ==> k / 2 < h2
    ensures k >= 2 * h2 ==> k / 2 >= h2 && (k - 2 * h2) / 2 == k / 2 - h2 && (k - 2 * h2) % 2 == k % 2
  {
  }

  /** Reversing twice gives the index back, so the permutation is an involution. */
  lemma {:induction false} BitRevInvolution(k: nat, l: nat)
    requires k < Pow2(l)
    ensures BitRev(BitRev(k, l), l) == k
    decreases l
  {
    if l > 0 {
      assert k / 2 < Pow2(l - 1);
      BitRevInvolution(k / 2, l - 1);
      var r, r' := BitRev(k, l), BitRev(k / 2, l - 1);
      BitRevUnfold(k, l - 1);
      if k % 2 == 1 {
        BitRevTopSet(r, l - 1, r');
      } else {
        BitRevTopClear(r, l - 1);
      }
    }
  }

  lemma BitRevInvolutionAll(l: nat)
    ensures forall k :: 0 <= k < Pow2(l) ==> BitRev(BitRev(k, l), l) == k
  {
    forall k | 0 <= k < Pow2(l)
      ensures BitRev(BitRev(k, l), l) == k
    {
      BitRevInvolution(k, l);
    }
  }

  /** x with every index k holding the entry at BitRev(k). */
  function Permuted(x: seq<Scalar>, l: nat): (y: seq<Scalar>)
    requires |x| == Pow2(l)
    ensures |y| == |x| && forall k :: 0 <= k < |x| ==> y[k] == x[BitRev(k, l)]
  {
    seq(|x|, k requires 0 <= k < |x| => x[BitRev(k, l)])
  }

  /** Bit-reversing a vector puts its even entries first and its odd entries last. */
  lemma PermutedSplit(x: seq<Scalar>, l: nat)
    requires l >= 1 && |x| == Pow2(l)
    ensures Permuted(x, l)[..Pow2(l - 1)] == Permuted(Evens(x), l - 1)
    ensures Permuted(x, l)[Pow2(l - 1)..] == Permuted(Odds(x), l - 1)
  {
    var h := Pow2(l - 1);
    var y := Permuted(x, l);
    forall k | 0 <= k < h
      ensures y[k] == Permuted(Evens(x), l - 1)[k]
    {
      BitRevTopClear(k, l - 1);
    }
    forall k | 0 <= k < h
      ensures y[h..][k] == Permuted(Odds(x), l - 1)[k]
    {
      PermutedHigh(x, l, k, k + h);
    }
  }

  lemma PermutedHigh(x: seq<Scalar>, l: nat, k: nat, i: nat)
    requires l >= 1 && |x| == Pow2(l) && k < Pow2(l - 1) && i == k + Pow2(l - 1)
    ensures Permuted(x, l)[i] == Odds(x)[BitRev(k, l - 1)]
  {
    BitRevTopSet(i, l - 1, k);
  }

  /** After visiting indices below k, exactly the pairs with a smaller index below k are swapped. */
  ghost predicate SwappedBelow(B: seq<Scalar>, A: seq<Scalar>, k: nat, l: nat)
  {
    |B| == |A| == Pow2(l) &&
    forall j :: 0 <= j < |A| ==>
      B[j] == (if j < k || BitRev(j, l) < k then A[BitRev(j, l)] else A[j])
  }

  lemma SwapStep(B: seq<Scalar>, A: seq<Scalar>, k: nat, l: nat)
    requires SwappedBelow(B, A, k, l) && k < |A|
    ensures var rk := BitRev(k, l);
      SwappedBelow(if k < rk then B[rk := B[k]][k := B[rk]] else B, A, k + 1, l)
  {
    var rk := BitRev(k, l);
    BitRevInvolution(k, l);
    var C := if k < rk then B[rk := B[k]][k := B[rk]] else B;
    forall j | 0 <= j < |A|
      ensures C[j] == (if j < k + 1 || BitRev(j, l) < k + 1 then A[BitRev(j, l)] else A[j])
    {
      if j != k && j != rk {
        if BitRev(j, l) == k {
          BitRevInvolution(j, l);
        }
      }
    }
  }

  lemma SwappedAll(B: seq<Scalar>, A: seq<Scalar>, l: nat)
    requires SwappedBelow(B, A, |A|, l)
    ensures B == Permuted(A, l)
  {
  }

  /**
   * The bit-reversal loop of `serial_fft`: every pair (k, BitRev(k)) is
   * swapped once, when its smaller index is visited.
   */
  method BitReversePermute(a: array<Scalar>, logN: nat)
    requires a.Length == Pow2(logN) && logN < 32
    modifies a
    ensures a[..] == Permuted(old(a[..]), logN)
    ensures multiset(a[..]) == multiset(old(a[..]))
  {
    ghost var A := a[..];
    var n := a.Length;
    var k := 0;
    while k < n
      invariant 0 <= k <= n
      invariant SwappedBelow(a[..], A, k, logN)
      invariant multiset(a[..]) == multiset(A)
    {
      var rk := Bitreverse(k, logN);
      SwapStep(a[..], A, k, logN);
      if k < rk {
        a[rk], a[k] := a[k], a[rk];
      }
      k := k + 1;
    }
    SwappedAll(a[..], A, logN);
  }

  // ---------------------------------------------------------------------
  // The butterfly network on a bit-reversed vector
  // ---------------------------------------------------------------------

  /**
   * What the butterfly stages compute from a bit-reversed vector y: the two
   * halves are transformed with omega^2 and merged with omega.
   */
  function IterFft(y: seq<Scalar>, w: Scalar, l: nat): (r: seq<Scalar>)
    requires |y| == Pow2(l)
    ensures |r| == |y|
    decreases l
  {
    if l == 0 then y
    else Merge(IterFft(y[..Pow2(l - 1)], Mul(w, w), l - 1), IterFft(y[Pow2(l - 1)..], Mul(w, w), l - 1), w)
  }

  /** Stages over the bit-reversed input compute the recursive transform. */
  lemma {:induction false} IterFftOfPermuted(x: seq<Scalar>, w: Scalar, l: nat)
    requires |x| == Pow2(l)
    ensures IterFft(Permuted(x, l), w, l) == RecFft(x, w, l)
    decreases l
  {
    if l > 0 {
      PermutedSplit(x, l);
      IterFftOfPermuted(Evens(x), Mul(w, w), l - 1);
      IterFftOfPermuted(Odds(x), Mul(w, w), l - 1);
    }
  }

  /** r consists of blocks of size 2^s, each the stage-s transform of the same block of y. */
  ghost predicate StagedBlocks(r: seq<Scalar>, y: seq<Scalar>, u: Scalar, s: nat)
    decreases |y|
  {
    |r| == |y| &&
    (|y| > 0 ==>
      |y| >= Pow2(s) &&
      r[..Pow2(s)] == IterFft(y[..Pow2(s)], u, s) &&
      StagedBlocks(r[Pow2(s)..], y[Pow2(s)..], u, s))
  }

  /** r consists of blocks of size 2m, each the merge of the two halves of the same block of x. */
  ghost predicate MergedBlocks(r: seq<Scalar>, x: seq<Scalar>, m: nat, v: Scalar)
    requires m >= 1
    decreases |x|
  {
    |r| == |x| &&
    (|x| > 0 ==>
      |x| >= 2 * m &&
      r[..2 * m] == Merge(x[..m], x[m..2 * m], v) &&
      MergedBlocks(r[2 * m..], x[2 * m..], m, v))
  }

  /** n is a multiple of M. */
  ghost predicate Multiple(n: nat, M: nat)
    requires M >= 1
    decreases n
  {
    n == 0 || (n >= M && Multiple(n - M, M))
  }

  lemma {:induction false} MultipleSum(a: nat, b: nat, M: nat)
    requires M >= 1 && Multiple(a, M) && Multiple(b, M)
    ensures Multiple(a + b, M)
    decreases a
  {
    if a > 0 {
      MultipleSum(a - M, b, M);
      assert a + b - M == (a - M) + b;
    }
  }

  /** 2^e divides 2^f when e <= f. */
  lemma {:induction false} MultiplePow2(e: nat, f: nat)
    requires e <= f
    ensures Multiple(Pow2(f), Pow2(e))
    decreases f
  {
    if f == e {
      assert Multiple(Pow2(f) - Pow2(e), Pow2(e));
    } else {
      MultiplePow2(e, f - 1);
      MultipleSum(Pow2(f - 1), Pow2(f - 1), Pow2(e));
    }
  }

  lemma {:induction false} StagedStart(y: seq<Scalar>, u: Scalar)
    ensures StagedBlocks(y, y, u, 0)
    decreases |y|
  {
    if |y| > 0 {
      StagedStart(y[1..], u);
      assert y[..1] == IterFft(y[..1], u, 0);
    }
  }

  lemma StagedEnd(r: seq<Scalar>, y: seq<Scalar>, u: Scalar, l: nat)
    requires |y| == Pow2(l) && StagedBlocks(r, y, u, l)
    ensures r == IterFft(y, u, l)
  {
    assert r[..Pow2(l)] == r && y[..Pow2(l)] == y;
  }

  /** One stage of butterflies turns stage-s blocks into stage-(s+1) blocks. */
  lemma {:induction false} StageStep(r: seq<Scalar>, x: seq<Scalar>, y: seq<Scalar>, v: Scalar, s: nat)
    requires StagedBlocks(x, y, Mul(v, v), s)
    requires MergedBlocks(r, x, Pow2(s), v)
    ensures StagedBlocks(r, y, v, s + 1)
    decreases |y|
  {
    if |y| > 0 {
      var m := Pow2(s);
      assert Pow2(s + 1) == 2 * m;
      StageStepBlock(r, x, y, v, s, m);
      StageStep(r[2 * m..], x[2 * m..], y[2 * m..], v, s);
    }
  }

  lemma StageStepBlock(r: seq<Scalar>, x: seq<Scalar>, y: seq<Scalar>, v: Scalar, s: nat, m: nat)
    requires m == Pow2(s) && |y| > 0
    requires StagedBlocks(x, y, Mul(v, v), s)
    requires MergedBlocks(r, x, m, v)
    ensures |y| >= 2 * m && r[..2 * m] == IterFft(y[..2 * m], v, s + 1)
    ensures StagedBlocks(x[2 * m..], y[2 * m..], Mul(v, v), s)
    ensures MergedBlocks(r[2 * m..], x[2 * m..], m, v)
  {
    var vv := Mul(v, v);
    assert StagedBlocks(x[m..], y[m..], vv, s);
    DropDrop(x, m, m, 2 * m);
    DropDrop(y, m, m, 2 * m);
    DropTake(x, m, m, 2 * m);
    DropTake(y, m, m, 2 * m);
    TakeSplit(y, m, 2 * m);
    MergeOfStaged(r[..2 * m], x[..m], x[m..2 * m], y[..m], y[m..2 * m], v, s);
  }

  /** Merging the stage-s transforms of two adjacent blocks gives the stage-(s+1) transform of both. */
  lemma MergeOfStaged(r0: seq<Scalar>, x0: seq<Scalar>, x1: seq<Scalar>, y0: seq<Scalar>, y1: seq<Scalar>,
                      v: Scalar, s: nat)
    requires |y0| == |y1| == Pow2(s)
    requires x0 == IterFft(y0, Mul(v, v), s) && x1 == IterFft(y1, Mul(v, v), s)
    requires r0 == Merge(x0, x1, v)
    ensures r0 == IterFft(y0 + y1, v, s + 1)
  {
    assert (y0 + y1)[..Pow2(s)] == y0 && (y0 + y1)[Pow2(s)..] == y1;
  }

  lemma {:induction false} MergedBlocksAppend(r: seq<Scalar>, x: seq<Scalar>, br: seq<Scalar>,
                                              b1: seq<Scalar>, b2: seq<Scalar>, m: nat, v: Scalar)
    requires m >= 1 && MergedBlocks(r, x, m, v)
    requires |b1| == |b2| == m && br == Merge(b1, b2, v)
    ensures MergedBlocks(r + br, x + (b1 + b2), m, v)
    decreases |x|
  {
    var bx := b1 + b2;
    if |x| == 0 {
      assert r + br == br && x + bx == bx;
      assert bx[..m] == b1 && bx[m..2 * m] == b2;
      assert br[..2 * m] == br && br[2 * m..] == [] && bx[2 * m..] == [];
    } else {
      MergedBlocksAppend(r[2 * m..], x[2 * m..], br, b1, b2, m, v);
      AppendPrefix(r, br, 2 * m);
      AppendPrefix(x, bx, m);
      AppendSlice(x, bx, m, 2 * m);
      AppendDrop(r, br, 2 * m);
      AppendDrop(x, bx, 2 * m);
    }
  }

  // Slicing identities, kept out of the larger proofs. Where an index is a
  // sum it is passed precomputed, so that the slice terms the callers need
  // appear literally.

  lemma TakeTake(y: seq<Scalar>, m: nat, M: nat)
    requires m <= M <= |y|
    ensures y[..M][..m] == y[..m]
  {
  }

  lemma TakeDrop(y: seq<Scalar>, m: nat, M: nat)
    requires m <= M <= |y|
    ensures y[..M][m..] == y[m..M]
  {
  }

  lemma DropDrop(y: seq<Scalar>, m: nat, n: nat, mn: nat)
    requires mn == m + n <= |y|
    ensures y[m..][n..] == y[mn..]
  {
  }

  lemma DropTake(y: seq<Scalar>, m: nat, n: nat, mn: nat)
    requires mn == m + n <= |y|
    ensures y[m..][..n] == y[m..mn]
  {
  }

  lemma DropSlice(y: seq<Scalar>, k: nat, a: nat, b: nat, ka: nat, kb: nat)
    requires a <= b && ka == k + a && kb == k + b <= |y|
    ensures y[k..][a..b] == y[ka..kb]
  {
  }

  lemma SlicePrefix(y: seq<Scalar>, i: nat, j: nat, b: nat, ib: nat)
    requires i <= j <= |y| && b <= j - i && ib == i + b
    ensures y[i..j][..b] == y[i..ib]
  {
  }

  lemma SliceSuffix(y: seq<Scalar>, i: nat, j: nat, a: nat, ia: nat)
    requires i <= j <= |y| && a <= j - i && ia == i + a
    ensures y[i..j][a..] == y[ia..j]
  {
  }

  lemma TakeSplit(y: seq<Scalar>, m: nat, M: nat)
    requires m <= M <= |y|
    ensures y[..M] == y[..m] + y[m..M]
  {
  }

  /** The prefix up to a block's end is the prefix before it and its two halves. */
  lemma SplitBlock(y: seq<Scalar>, k: nat, k1: nat, k2: nat)
    requires k <= k1 <= k2 <= |y|
    ensures y[..k2] == y[..k] + (y[k..k1] + y[k1..k2])
  {
  }

  lemma SplitAt(y: seq<Scalar>, k: nat, k2: nat)
    requires k <= k2 <= |y|
    ensures y[..k2] == y[..k] + y[k..k2]
  {
  }

  lemma AppendPrefix(r: seq<Scalar>, br: seq<Scalar>, M: nat)
    requires M <= |r|
    ensures (r + br)[..M] == r[..M]
  {
  }

  lemma AppendSlice(r: seq<Scalar>, br: seq<Scalar>, a: nat, b: nat)
    requires a <= b <= |r|
    ensures (r + br)[a..b] == r[a..b]
  {
  }

  lemma AppendDrop(r: seq<Scalar>, br: seq<Scalar>, M: nat)
    requires M <= |r|
    ensures (r + br)[M..] == r[M..] + br
  {
  }

  /** Entry p after j butterflies of block k: pairs below j are done, everything else is untouched. */
  function ButterflyEntry(A: seq<Scalar>, k: nat, m: nat, v: Scalar, j: nat, p: nat): Scalar
    requires k + 2 * m <= |A| && p < |A|
  {
    if k <= p < k + j && p + m < |A| then Add(A[p], Mul(A[p + m], Pow(v, p - k)))
    else if k + m <= p < k + m + j && p >= m then Sub(A[p - m], Mul(A[p], Pow(v, p - k - m)))
    else A[p]
  }

  function Butterflied(A: seq<Scalar>, k: nat, m: nat, v: Scalar, j: nat): (B: seq<Scalar>)
    requires k + 2 * m <= |A|
    ensures |B| == |A| && forall p :: 0 <= p < |A| ==> B[p] == ButterflyEntry(A, k, m, v, j, p)
  {
    seq(|A|, p requires 0 <= p < |A| => ButterflyEntry(A, k, m, v, j, p))
  }

  lemma ButterflyStep(A: seq<Scalar>, k: nat, m: nat, v: Scalar, j: nat, t: Scalar)
    requires k + 2 * m <= |A| && j < m && t == Mul(A[k + j + m], Pow(v, j))
    ensures Butterflied(A, k, m, v, j)[k + j] == A[k + j]
    ensures Butterflied(A, k, m, v, j)[k + j + m] == A[k + j + m]
    ensures Butterflied(A, k, m, v, j)[k + j + m := Sub(A[k + j], t)][k + j := Add(A[k + j], t)]
         == Butterflied(A, k, m, v, j + 1)
  {
    var B := Butterflied(A, k, m, v, j);
    var C := B[k + j + m := Sub(A[k + j], t)][k + j := Add(A[k + j], t)];
    var D := Butterflied(A, k, m, v, j + 1);
    forall p | 0 <= p < |A|
      ensures C[p] == D[p]
    {
      if p == k + j {
        assert p - k == j;
      } else if p == k + j + m {
        assert p - m == k + j && p - k - m == j;
      }
    }
  }

  /** All m butterflies of block k leave the entries outside the block alone. */
  lemma ButterfliesOutside(A: seq<Scalar>, k: nat, m: nat, v: Scalar, next: nat)
    requires next == k + 2 * m <= |A|
    ensures Butterflied(A, k, m, v, m)[..k] == A[..k]
    ensures Butterflied(A, k, m, v, m)[next..] == A[next..]
  {
    var B := Butterflied(A, k, m, v, m);
    assert B[..k] == A[..k];
    assert B[next..] == A[next..];
  }

  /** After all m butterflies, block k is the merge of its halves. */
  lemma ButterfliesBlock(A: seq<Scalar>, k: nat, m: nat, v: Scalar, mid: nat, next: nat)
    requires mid == k + m && next == k + 2 * m <= |A|
    ensures Butterflied(A, k, m, v, m)[k..next] == Merge(A[k..mid], A[mid..next], v)
  {
    forall i | 0 <= i < 2 * m
      ensures Butterflied(A, k, m, v, m)[k + i] == Merge(A[k..mid], A[mid..next], v)[i]
    {
      ButterflyAt(A, k, m, v, i, k + i, mid, next);
    }
    SliceEq(Butterflied(A, k, m, v, m), Merge(A[k..mid], A[mid..next], v), k, next);
  }

  lemma SliceEq(B: seq<Scalar>, M: seq<Scalar>, k: nat, next: nat)
    requires k <= next <= |B| && |M| == next - k
    requires forall i :: 0 <= i < |M| ==> B[k + i] == M[i]
    ensures B[k..next] == M
  {
  }

  lemma ButterflyAt(A: seq<Scalar>, k: nat, m: nat, v: Scalar, i: nat, p: nat, mid: nat, next: nat)
    requires mid == k + m && next == k + 2 * m <= |A| && i < 2 * m && p == k + i
    ensures Butterflied(A, k, m, v, m)[p] == Merge(A[k..mid], A[mid..next], v)[i]
  {
    if i >= m {
      assert p - m == k + (i - m) && p - k - m == i - m;
    }
  }

  /**
   * The inner `for j in 0..m` loop: butterflies between a[k + j] and
   * a[k + j + m] with twiddle v^j.
   */
  method Butterflies(a: array<Scalar>, k: nat, m: nat, v: Scalar)
    requires m >= 1 && k + 2 * m <= a.Length
    modifies a
    ensures a[..] == Butterflied(old(a[..]), k, m, v, m)
  {
    ghost var A := a[..];
    var w := 1;
    var j := 0;
    while j < m
      invariant j <= m && w == Pow(v, j)
      invariant a[..] == Butterflied(A, k, m, v, j)
    {
      var t := Mul(a[k + j + m], w);
      ButterflyStep(A, k, m, v, j, t);
      var tmp := Sub(a[k + j], t);
      a[k + j + m] := tmp;
      a[k + j] := Add(a[k + j], t);
      MulComm(w, v);
      w := Mul(w, v);
      j := j + 1;
    }
  }

  /** The `while k < n` loop of one stage: butterflies in each block of 2m entries. */
  method Stage(a: array<Scalar>, m: nat, v: Scalar)
    requires m >= 1 && Multiple(a.Length, 2 * m)
    modifies a
    ensures MergedBlocks(a[..], old(a[..]), m, v)
  {
    ghost var A := a[..];
    ghost var rest: nat := a.Length;
    var k: nat := 0;
    while k < a.Length
      invariant StageState(a[..], A, k, m, v, rest)
      decreases a.Length - k
    {
      StageRoom(a[..], A, k, m, v, rest);
      ghost var P := a[..];
      var next := k + 2 * m;
      Butterflies(a, k, m, v);
      StageLoopStep(a[..], P, A, k, m, v, next, rest);
      k := next;
      rest := rest - 2 * m;
    }
    StageDone(a[..], A, k, m, v, rest);
  }

  /** Within a stage, before the block at k: blocks below k are merged and the rest is untouched. */
  ghost predicate StageState(B: seq<Scalar>, A: seq<Scalar>, k: nat, m: nat, v: Scalar, rest: nat)
  {
    m >= 1 && k <= |B| == |A| && rest == |A| - k && Multiple(rest, 2 * m) &&
    MergedBlocks(B[..k], A[..k], m, v) && B[k..] == A[k..]
  }

  lemma StageRoom(B: seq<Scalar>, A: seq<Scalar>, k: nat, m: nat, v: Scalar, rest: nat)
    requires StageState(B, A, k, m, v, rest) && k < |A|
    ensures k + 2 * m <= |A|
  {
  }

  lemma StageDone(B: seq<Scalar>, A: seq<Scalar>, k: nat, m: nat, v: Scalar, rest: nat)
    requires StageState(B, A, k, m, v, rest) && k >= |A|
    ensures MergedBlocks(B, A, m, v)
  {
    assert B[..k] == B && A[..k] == A;
  }

  lemma StageLoopStep(B: seq<Scalar>, P: seq<Scalar>, A: seq<Scalar>, k: nat, m: nat, v: Scalar, next: nat, rest: nat)
    requires StageState(P, A, k, m, v, rest) && k < |A| && next == k + 2 * m
    requires B == Butterflied(P, k, m, v, m)
    ensures StageState(B, A, next, m, v, rest - 2 * m)
  {
    var mid := k + m;
    StageBlock(B, P, A, k, m, v, mid, next);
    MergedBlocksAppend(B[..k], A[..k], B[k..next], A[k..mid], A[mid..next], m, v);
    SplitAt(B, k, next);
    SplitBlock(A, k, mid, next);
  }

  /** The block at k after its butterflies, in terms of the stage's input A. */
  lemma StageBlock(B: seq<Scalar>, P: seq<Scalar>, A: seq<Scalar>, k: nat, m: nat, v: Scalar, mid: nat, next: nat)
    requires m >= 1 && mid == k + m && next == k + 2 * m <= |A| == |P| && P[k..] == A[k..]
    requires B == Butterflied(P, k, m, v, m)
    ensures B[..k] == P[..k] && B[next..] == A[next..]
    ensures B[k..next] == Merge(A[k..mid], A[mid..next], v)
  {
    ButterfliesOutside(P, k, m, v, next);
    ButterfliesBlock(P, k, m, v, mid, next);
    DropTake(P, k, m, mid);
    DropTake(A, k, m, mid);
    DropSlice(P, k, m, 2 * m, mid, next);
    DropSlice(A, k, m, 2 * m, mid, next);
    DropDrop(P, k, 2 * m, next);
    DropDrop(A, k, 2 * m, next);
  }

  lemma DivExact(q: nat, M: nat)
    requires M >= 1
    ensures (q * M) / M == q
  {
    var d, r := (q * M) / M, (q * M) % M;
    assert (q - d) * M == r;
    if q > d {
      MulAtLeast(q - d, M);
    } else if d > q {
      MulAtLeast(d - q, M);
    }
  }

  lemma MulAtLeast(x: int, M: int)
    requires x >= 1 && M >= 1
    ensures x * M >= M
  {
  }

  /** n / (2m) at stage s is 2^(logN - s - 1), and n is that many blocks of 2m. */
  lemma StageSizes(logN: nat, s: nat, e: nat)
    requires s < logN && e == logN - s - 1
    ensures Pow2(logN) / (2 * Pow2(s)) == Pow2(e)
    ensures Multiple(Pow2(logN), 2 * Pow2(s))
  {
    Pow2Add(e, s + 1);
    assert e + (s + 1) == logN;
    assert Pow2(s + 1) == 2 * Pow2(s);
    DivExact(Pow2(e), 2 * Pow2(s));
    MultiplePow2(s + 1, logN);
  }

  lemma PowSquareAt(x: Scalar, e: nat, e1: nat)
    requires e1 == e + 1
    ensures Pow(x, Pow2(e1)) == Mul(Pow(x, Pow2(e)), Pow(x, Pow2(e)))
  {
    PowSquare(x, e);
  }

  /**
   * `serial_fft`: the bit-reversal permutation, then log n stages whose
   * stage s merges blocks of 2^s entries with w_m = omega^(n / 2^(s+1)).
   * The result is the recursive radix-2 transform for every omega.
   */
  method SerialFft(a: array<Scalar>, omega: Scalar, logN: nat)
    requires a.Length == Pow2(logN) && logN < 32
    modifies a
    ensures a[..] == RecFft(old(a[..]), omega, logN)
  {
    ghost var x := a[..];
    var n := a.Length;
    BitReversePermute(a, logN);
    ghost var y := a[..];
    StagedStart(y, Pow(omega, Pow2(logN)));
    ghost var rest := logN;
    var m: nat := 1;
    var s: nat := 0;
    while s < logN
      invariant SerialState(a[..], y, omega, logN, s, rest, m)
    {
      ghost var e := rest - 1;
      SerialRoom(a[..], y, omega, logN, s, rest, m, n, e);
      var wm := Pow(omega, n / (2 * m));
      ghost var P := a[..];
      Stage(a, m, wm);
      SerialStage(a[..], P, y, omega, logN, s, e, rest, m, wm);
      m := m * 2;
      s := s + 1;
      rest := e;
    }
    PowTwo(omega);
    StagedEnd(a[..], y, omega, logN);
    IterFftOfPermuted(x, omega, logN);
  }

  /**
   * Before stage s of `serial_fft`: m = 2^s, rest = logN - s stages remain,
   * and a holds the stage-s transforms, by omega^(2^rest), of the permuted input y.
   */
  ghost predicate SerialState(B: seq<Scalar>, y: seq<Scalar>, omega: Scalar, logN: nat, s: nat, rest: nat, m: nat)
  {
    s <= logN && rest == logN - s && m == Pow2(s) && |y| == Pow2(logN) &&
    StagedBlocks(B, y, Pow(omega, Pow2(rest)), s)
  }

  lemma SerialRoom(B: seq<Scalar>, y: seq<Scalar>, omega: Scalar, logN: nat, s: nat, rest: nat, m: nat, n: nat, e: nat)
    requires SerialState(B, y, omega, logN, s, rest, m) && s < logN && n == Pow2(logN) && e == rest - 1
    ensures m >= 1 && Multiple(n, 2 * m) && n / (2 * m) == Pow2(e)
  {
    StageSizes(logN, s, e);
  }

  lemma SerialStage(B: seq<Scalar>, P: seq<Scalar>, y: seq<Scalar>, omega: Scalar, logN: nat,
                    s: nat, e: nat, rest: nat, m: nat, wm: Scalar)
    requires SerialState(P, y, omega, logN, s, rest, m) && s < logN && e == rest - 1
    requires wm == Pow(omega, Pow2(e))
    requires MergedBlocks(B, P, m, wm)
    ensures SerialState(B, y, omega, logN, s + 1, e, m * 2)
  {
    PowSquareAt(omega, e, rest);
    StageStep(B, P, y, wm, s);
  }

  // ---------------------------------------------------------------------
  // The domain size (`compute_omega`)
  // ---------------------------------------------------------------------

  lemma {:induction false} Pow2Mono(a: nat, b: nat)
    requires a <= b
    ensures Pow2(a) <= Pow2(b)
    decreases b - a
  {
    if a < b {
      Pow2Mono(a, b - 1);
    }
  }

  /** m = 2^exp is the smallest power of two that is at least d, and exp < S. */
  ghost predicate SmallestDomain(d: nat, m: nat, exp: nat)
  {
    m == Pow2(exp) && exp < S && d <= m && (exp == 0 || Pow2(exp - 1) < d)
  }

  /** The smallest domain for d is unique. */
  lemma DomainUnique(d: nat, m1: nat, e1: nat, m2: nat, e2: nat)
    requires SmallestDomain(d, m1, e1) && SmallestDomain(d, m2, e2)
    ensures e1 == e2 && m1 == m2
  {
    if e1 < e2 {
      Pow2Mono(e1, e2 - 1);
    } else if e2 < e1 {
      Pow2Mono(e2, e1 - 1);
    }
  }

  /**
   * `compute_omega`: doubles m from 1 until it reaches d, failing once the
   * exponent reaches the 2-adicity S; omega is ROOT^(2^(S-exp)).
   */
  method ComputeOmega(d: nat) returns (r: Result<(nat, nat, Scalar)>)
    ensures r.Err? <==> d > Pow2(S - 1)
    ensures r.Err? ==> r.error == PolynomialDegreeTooLarge
    ensures r.Ok? ==> SmallestDomain(d, r.value.0, r.value.1)
    ensures r.Ok? ==> r.value.2 == Pow(ROOT, Pow2(S - r.value.1)) && IsPrimitiveRoot(r.value.2, r.value.1)
  {
    var m: nat := 1;
    var exp: nat := 0;
    while m < d
      invariant m == Pow2(exp) && exp < S
      invariant exp == 0 || Pow2(exp - 1) < d
      decreases d - m
    {
      m := m * 2;
      exp := exp + 1;
      if exp >= S {
        return Err(PolynomialDegreeTooLarge);
      }
    }
    Pow2Mono(exp, S - 1);
    var omega := Pow(ROOT, Pow2(S - exp));
    RootPowerIsPrimitive(exp);
    return Ok((m, exp, omega));
  }

  // ---------------------------------------------------------------------
  // The inverses `new` unwraps
  // ---------------------------------------------------------------------

  /** 1/7, the inverse of the multiplicative generator. */
  const GENERATOR_INV: Scalar := 14981678621464625851270783002338847382197300714436467949315331057125308909861

  /** 1/2. */
  const TWO_INV: Scalar := 26217937587563095239723870254092982918845276250263818911301829349969290592257

  lemma GeneratorInvertible()
    ensures Inverse(GENERATOR) == Some(GENERATOR_INV)
  {
    assert GENERATOR * GENERATOR_INV == 2 * R + 1;
    ModShift(2, 1);
    InverseFromProduct(GENERATOR, GENERATOR_INV);
  }

  /** The field image of 2^e is 2 raised to e in the field. */
  lemma {:induction false} FromNatPow2(e: nat)
    ensures FromNat(Pow2(e)) == Pow(2, e)
  {
    if e > 0 {
      FromNatPow2(e - 1);
      ModMulLeft(Pow2(e - 1), 2);
      MulIsProduct(2, Pow(2, e - 1));
    }
  }

  lemma TwoInvertible()
    ensures Mul(2, TWO_INV) == 1
  {
    assert 2 * TWO_INV == R + 1;
    ModShift(1, 1);
    InverseFromProduct(2, TWO_INV);
  }

  /** A domain size 2^e is invertible, with inverse (1/2)^e. */
  lemma SizeInvertible(e: nat)
    ensures Inverse(FromNat(Pow2(e))) == Some(Pow(TWO_INV, e))
  {
    TwoInvertible();
    PowerInvertible(2, TWO_INV, e);
    FromNatPow2(e);
  }

  /** A primitive root of unity is invertible: w * w^(n-1) = w^n = 1. */
  lemma PrimitiveInvertible(w: Scalar, l: nat)
    requires IsPrimitiveRoot(w, l)
    ensures Inverse(w) == Some(Pow(w, Pow2(l) - 1))
  {
    PrimitiveRootPeriod(w, l);
    var n := Pow2(l);
    assert Pow(w, n) == Mul(w, Pow(w, n - 1));
    InverseUnique(w, Pow(w, n - 1));
  }

  // ---------------------------------------------------------------------
  // The evaluation domain
  // ---------------------------------------------------------------------

  /** Entrywise product of two vectors of the same length. */
  function Pointwise(u: seq<Scalar>, v: seq<Scalar>): (r: seq<Scalar>)
    requires |u| == |v|
    ensures |r| == |u| && forall i :: 0 <= i < |u| ==> r[i] == Mul(u[i], v[i])
  {
    seq(|u|, i requires 0 <= i < |u| => Mul(u[i], v[i]))
  }

  /** The scaling loop of `ifft`: every entry times k. */
  method ScaleInPlace(a: array<Scalar>, k: Scalar)
    modifies a
    ensures a[..] == ScaleSeq(old(a[..]), k)
  {
    ghost var y := a[..];
    var i := 0;
    while i < a.Length
      invariant 0 <= i <= a.Length
      invariant forall t :: 0 <= t < i ==> a[t] == Mul(y[t], k)
      invariant forall t :: i <= t < a.Length ==> a[t] == y[t]
    {
      a[i] := Mul(a[i], k);
      i := i + 1;
    }
    assert a[..] == ScaleSeq(y, k);
  }

  /**
   * `EvaluationDomain`: a coefficient buffer of d entries with the root of
   * unity omega for 2^exp points and the inverses of omega, of the
   * multiplicative generator and of d.  Only the buffer's contents change
   * after construction.
   */
  class EvaluationDomain {
    const coeffs: array<Scalar>
    const d: nat
    const exp: nat
    const omega: Scalar
    const omegainv: Scalar
    const geninv: Scalar
    const minv: Scalar

    /** The three inverses `new` computes. */
    ghost predicate Inverses()
    {
      Mul(omega, omegainv) == 1 && Mul(GENERATOR, geninv) == 1 && Mul(FromNat(d), minv) == 1
    }

    /** A domain as `from_coeffs` builds it: 2^exp entries and omega a primitive 2^exp-th root. */
    ghost predicate Valid()
    {
      Inverses() && coeffs.Length == d == Pow2(exp) && exp < S && IsPrimitiveRoot(omega, exp)
    }

    /** `new`: takes the vector and unwraps the inverses of omega, of 7 and of d. */
    constructor New(v: seq<Scalar>, d: nat, exp: nat, omega: Scalar)
      requires Inverse(omega).Some? && Inverse(FromNat(d)).Some?
      ensures fresh(coeffs) && coeffs[..] == v
      ensures this.d == d && this.exp == exp && this.omega == omega
      ensures omegainv == Inverse(omega).value && geninv == GENERATOR_INV && minv == Inverse(FromNat(d)).value
      ensures Inverses()
    {
      coeffs := new Scalar[|v|](i requires 0 <= i < |v| => v[i]);
      this.d := d;
      this.exp := exp;
      this.omega := omega;
      omegainv := Inverse(omega).value;
      GeneratorInvertible();
      geninv := Inverse(GENERATOR).value;
      minv := Inverse(FromNat(d)).value;
    }

    /**
     * `from_coeffs`: the smallest domain holding v, with v zero-padded to its
     * size; fails when that size would need 2^S points or more.
     */
    static method FromCoeffs(v: seq<Scalar>) returns (r: Result<EvaluationDomain>)
      ensures r.Err? <==> |v| > Pow2(S - 1)
      ensures r.Err? ==> r.error == PolynomialDegreeTooLarge
      ensures r.Ok? ==> fresh(r.value) && fresh(r.value.coeffs) && r.value.Valid()
      ensures r.Ok? ==> SmallestDomain(|v|, r.value.d, r.value.exp)
      ensures r.Ok? ==> r.value.coeffs[..] == v + Zeros(r.value.d - |v|)
      ensures r.Ok? ==> r.value.omega == Pow(ROOT, Pow2(S - r.value.exp))
    {
      var c := ComputeOmega(|v|);
      if c.Err? {
        return Err(c.error);
      }
      var dom := PadAndBuild(v, c.value.0, c.value.1, c.value.2);
      return Ok(dom);
    }

    /** The `Ok` path of `from_coeffs`: pad v to m = 2^exp entries and build the domain. */
    static method PadAndBuild(v: seq<Scalar>, m: nat, exp: nat, omega: Scalar) returns (dom: EvaluationDomain)
      requires SmallestDomain(|v|, m, exp) && IsPrimitiveRoot(omega, exp)
      ensures fresh(dom) && fresh(dom.coeffs) && dom.Valid()
      ensures dom.d == m && dom.exp == exp && dom.omega == omega
      ensures dom.coeffs[..] == v + Zeros(m - |v|)
    {
      PrimitiveInvertible(omega, exp);
      SizeInvertible(exp);
      dom := new EvaluationDomain.New(v + Zeros(m - |v|), m, exp, omega);
    }

    /** `fft`: the radix-2 transform by omega; on a valid domain, the values at the powers of omega. */
    method Fft()
      requires coeffs.Length == Pow2(exp) && exp < 32
      modifies coeffs
      ensures coeffs[..] == RecFft(old(coeffs[..]), omega, exp)
      ensures Valid() ==> coeffs[..] == Transform(old(coeffs[..]), omega)
    {
      ghost var x := coeffs[..];
      SerialFft(coeffs, omega, exp);
      if Valid() {
        RecFftIsTransform(x, omega, exp);
      }
    }

    /** `ifft`: the transform by omegainv, then every entry times minv. */
    method Ifft()
      requires coeffs.Length == Pow2(exp) && exp < 32
      modifies coeffs
      ensures coeffs[..] == ScaleSeq(RecFft(old(coeffs[..]), omegainv, exp), minv)
      ensures Valid() ==> coeffs[..] == ScaleSeq(Transform(old(coeffs[..]), omegainv), minv)
    {
      ghost var x := coeffs[..];
      SerialFft(coeffs, omegainv, exp);
      ScaleInPlace(coeffs, minv);
      if Valid() {
        InverseIsPrimitive(omega, omegainv, exp);
        RecFftIsTransform(x, omegainv, exp);
      }
    }

    /** `mul_assign`: entrywise product with another domain of the same length. */
    method MulAssign(other: EvaluationDomain)
      requires coeffs.Length == other.coeffs.Length
      modifies coeffs
      ensures coeffs[..] == Pointwise(old(coeffs[..]), old(other.coeffs[..]))
      ensures other.coeffs != coeffs ==> other.coeffs[..] == old(other.coeffs[..])
    {
      ghost var A, O := coeffs[..], other.coeffs[..];
      var i := 0;
      while i < coeffs.Length
        invariant 0 <= i <= coeffs.Length
        invariant forall t :: 0 <= t < i ==> coeffs[t] == Mul(A[t], O[t])
        invariant forall t :: i <= t < coeffs.Length ==> coeffs[t] == A[t] && other.coeffs[t] == O[t]
        invariant other.coeffs != coeffs ==> other.coeffs[..] == O
      {
        coeffs[i] := Mul(coeffs[i], other.coeffs[i]);
        i := i + 1;
      }
      assert coeffs[..] == Pointwise(A, O);
    }

    /** `From<EvaluationDomain> for Polynomial`: `Polynomial::new` on the buffer. */
    method ToPolynomial() returns (p: Polynomial)
      requires coeffs.Length >= 1
      ensures p == Polynomial(Degree(coeffs[..], coeffs.Length - 1), coeffs[..])
      ensures Polynomials.Valid(p)
      ensures forall x :: Value(p, x) == Horner(coeffs[..], x)
    {
      p := Polynomials.New(coeffs[..]);
      forall x
        ensures Value(p, x) == Horner(coeffs[..], x)
      {
        NewValue(coeffs[..], x);
      }
    }
  }

  // ---------------------------------------------------------------------
  // Round trips
  // ---------------------------------------------------------------------

  /** Scaling by c and then by its inverse gives the vector back. */
  lemma ScaleCancel(x: seq<Scalar>, c: Scalar, ci: Scalar)
    requires Mul(c, ci) == 1
    ensures ScaleSeq(ScaleSeq(x, c), ci) == x
  {
    forall i | 0 <= i < |x|
      ensures ScaleSeq(ScaleSeq(x, c), ci)[i] == x[i]
    {
      MulAssoc(x[i], c, ci);
      MulOne(x[i]);
    }
  }

  /** On a domain's vectors, `ifft` undoes `fft` and `fft` undoes `ifft`. */
  lemma DomainRoundTrip(x: seq<Scalar>, exp: nat, omega: Scalar, omegainv: Scalar, minv: Scalar)
    requires |x| == Pow2(exp) && IsPrimitiveRoot(omega, exp)
    requires Mul(omega, omegainv) == 1 && Mul(FromNat(Pow2(exp)), minv) == 1
    ensures ScaleSeq(Transform(Transform(x, omega), omegainv), minv) == x
    ensures Transform(ScaleSeq(Transform(x, omegainv), minv), omega) == x
  {
    var n := FromNat(Pow2(exp));
    TransformInverse(x, omega, omegainv, exp);
    ScaleCancel(x, n, minv);
    InverseIsPrimitive(omega, omegainv, exp);
    TransformScale(Transform(x, omegainv), omega, minv);
    TransformInverse(x, omegainv, omega, exp);
  }

  /** The `fft_composition` test: ifft then fft, and then fft then ifft, each give back the padded vector. */
  method FftComposition(v: seq<Scalar>) returns (exp: nat, after1: seq<Scalar>, after2: seq<Scalar>)
    requires |v| <= Pow2(S - 1)
    ensures SmallestDomain(|v|, |after1|, exp)
    ensures after1 == v + Zeros(|after1| - |v|) && after2 == after1
  {
    var r := EvaluationDomain.FromCoeffs(v);
    var dom := r.value;
    ghost var x := dom.coeffs[..];
    exp := dom.exp;
    DomainRoundTrip(x, dom.exp, dom.omega, dom.omegainv, dom.minv);
    dom.Ifft();
    dom.Fft();
    after1 := dom.coeffs[..];
    dom.Fft();
    dom.Ifft();
    after2 := dom.coeffs[..];
  }

  // ---------------------------------------------------------------------
  // Multiplication through the domain
  // ---------------------------------------------------------------------

  /** The coefficients of p, zero-padded to n entries. */
  function PaddedCoeffs(p: Polynomial, n: nat): (c: seq<Scalar>)
    requires Polynomials.Valid(p) && NumCoeffs(p) <= n
    ensures |c| == n && c[..NumCoeffs(p)] == SliceCoeffs(p)
  {
    SliceCoeffs(p) + Zeros(n - NumCoeffs(p))
  }

  lemma PaddedValue(p: Polynomial, n: nat, x: Scalar)
    requires Polynomials.Valid(p) && NumCoeffs(p) <= n
    ensures Horner(PaddedCoeffs(p, n), x) == Value(p, x)
  {
    HornerTrailingZeros(SliceCoeffs(p), n - NumCoeffs(p), x);
  }

  /**
   * The product the `polynomial_arith` test compares with the schoolbook
   * one: pad both operands to n = 2^l > da + db entries, transform, multiply
   * pointwise and transform back; the result is the padded schoolbook product.
   */
  lemma FftMultiplication(a: Polynomial, b: Polynomial, l: nat, omega: Scalar, omegainv: Scalar, minv: Scalar)
    requires Polynomials.Valid(a) && Polynomials.Valid(b) && a.degree + b.degree < Pow2(l)
    requires IsPrimitiveRoot(omega, l) && Mul(omega, omegainv) == 1 && Mul(FromNat(Pow2(l)), minv) == 1
    ensures ScaleSeq(Transform(Pointwise(Transform(PaddedCoeffs(a, Pow2(l)), omega),
                                         Transform(PaddedCoeffs(b, Pow2(l)), omega)), omegainv), minv)
         == PaddedCoeffs(Product(a, b), Pow2(l))
  {
    var n := Pow2(l);
    var x, y, z := PaddedCoeffs(a, n), PaddedCoeffs(b, n), PaddedCoeffs(Product(a, b), n);
    forall k | 0 <= k < n
      ensures Pointwise(Transform(x, omega), Transform(y, omega))[k] == Transform(z, omega)[k]
    {
      var t := Pow(omega, k);
      PaddedValue(a, n, t);
      PaddedValue(b, n, t);
      PaddedValue(Product(a, b), n, t);
      ProductValue(a, b, t);
    }
    assert Pointwise(Transform(x, omega), Transform(y, omega)) == Transform(z, omega);
    DomainRoundTrip(z, l, omega, omegainv, minv);
  }

  lemma PaddedMore(p: Polynomial, n: nat, k: nat)
    requires Polynomials.Valid(p) && NumCoeffs(p) <= n
    ensures PaddedCoeffs(p, n) + Zeros(k) == PaddedCoeffs(p, n + k)
  {
    assert Zeros(n - NumCoeffs(p)) + Zeros(k) == Zeros(n + k - NumCoeffs(p));
  }

  /**
   * The `polynomial_arith` comparison carried out with the domain operations:
   * both operands padded to da + db + 1 entries, `from_coeffs`, `fft` on
   * each, `mul_assign` and `ifft` give the schoolbook product, zero-padded.
   */
  method DomainProduct(a: Polynomial, b: Polynomial) returns (r: Result<seq<Scalar>>)
    requires Polynomials.Valid(a) && Polynomials.Valid(b)
    ensures r.Err? <==> a.degree + b.degree + 1 > Pow2(S - 1)
    ensures r.Ok? ==> NumCoeffs(Product(a, b)) <= |r.value| && r.value == PaddedCoeffs(Product(a, b), |r.value|)
  {
    var len := a.degree + b.degree + 1;
    var ra := EvaluationDomain.FromCoeffs(PaddedCoeffs(a, len));
    var rb := EvaluationDomain.FromCoeffs(PaddedCoeffs(b, len));
    if ra.Err? {
      return Err(ra.error);
    }
    var da, db := ra.value, rb.value;
    DomainUnique(len, da.d, da.exp, db.d, db.exp);
    ghost var n, w := da.d, da.omega;
    PaddedMore(a, len, n - len);
    PaddedMore(b, len, n - len);
    ghost var x, y := PaddedCoeffs(a, n), PaddedCoeffs(b, n);
    assert da.coeffs[..] == x && db.coeffs[..] == y && db.omega == w;
    da.Fft();
    db.Fft();
    da.MulAssign(db);
    assert da.coeffs[..] == Pointwise(Transform(x, w), Transform(y, w));
    da.Ifft();
    FftMultiplication(a, b, da.exp, w, da.omegainv, da.minv);
    r := Ok(da.coeffs[..]);
  }
}

/** The DWT codec's coefficient budget (utils/ImageUtils.java, applyWaveletThreshold): a budget
    of n coefficients keeps a top-left corner of the 512 x 512 plane and zeroes the rest.

    The source computes (int) Math.sqrt(n) and (int) (Math.log(512 / size) / Math.log(2)) in
    double precision; the model takes them as the integer floor of the square root and of the
    base-2 logarithm. */
module WaveletBudget {
  import opened Dwt

  /** The side of the plane the threshold walks: 512. */
  const Side: nat := 512

  function FloorSqrtFrom(n: nat, r: nat): (q: nat)
    requires r * r <= n
    ensures q * q <= n < (q + 1) * (q + 1)
    decreases n - r
  {
    if (r + 1) * (r + 1) > n then r
    else
      assert r < n;
      FloorSqrtFrom(n, r + 1)
  }

  /** (int) Math.sqrt(n). */
  function FloorSqrt(n: nat): (q: nat)
    ensures q * q <= n < (q + 1) * (q + 1)
  {
    FloorSqrtFrom(n, 0)
  }

  /** (int) (Math.log(q) / Math.log(2)) for q >= 1. */
  function FloorLog2(q: nat): (r: nat)
    requires q >= 1
    ensures Pow2(r) <= q < 2 * Pow2(r)
  {
    if q == 1 then 0 else 1 + FloorLog2(q / 2)
  }

  /** The number of levels the threshold zeroes for budget n: floor(log2(512 / size)) with
      size = floor(sqrt(n)). When size exceeds 512 the quotient is 0, Math.log gives minus
      infinity and the source's level count is negative: no level runs, as with 0 here. */
  function Levels(n: int): (levels: nat)
    requires n >= 1
    ensures levels <= 9
  {
    LevelsOfSize(FloorSqrt(n))
  }

  /** floor(log2(512 / size)), and 0 when the quotient is 0. */
  function LevelsOfSize(size: nat): (levels: nat)
    requires size >= 1
    ensures levels <= 9
  {
    var q := Side / size;
    if q == 0 then 0
    else
      LogOfQuotient(q);
      FloorLog2(q)
  }

  lemma LogOfQuotient(q: nat)
    requires 1 <= q <= Side
    ensures FloorLog2(q) <= 9
  {
    FloorLog2Monotone(q, Side);
    assert FloorLog2(Side) == 9;
  }

  lemma {:induction false} FloorLog2Monotone(a: nat, b: nat)
    requires 1 <= a <= b
    ensures FloorLog2(a) <= FloorLog2(b)
    decreases a
  {
    if a > 1 {
      FloorLog2Monotone(a / 2, b / 2);
    }
  }

  /** currentSize after the level loop: 512 halved once per level. */
  function CornerSize(n: int): nat
    requires n >= 1
  {
    CornerOfSize(FloorSqrt(n))
  }

  function CornerOfSize(size: nat): nat
    requires size >= 1
  {
    Pow2(9 - LevelsOfSize(size))
  }

  lemma {:induction false} Pow2Split(k: nat, e: nat)
    requires k <= e
    ensures Pow2(k) * Pow2(e - k) == Pow2(e)
    decreases k
  {
    if k > 0 {
      Pow2Split(k - 1, e);
      assert Pow2(e - (k - 1)) == 2 * Pow2(e - k);
      assert Pow2(k) * Pow2(e - k) == 2 * Pow2(k - 1) * Pow2(e - k);
    }
  }

  lemma DivBounds(a: nat, b: nat)
    requires b >= 1
    ensures (a / b) * b <= a < (a / b + 1) * b
  {
  }

  lemma MulCancelLe(p: nat, a: nat, b: nat)
    requires p >= 1 && p * a <= p * b
    ensures a <= b
  {
    if a > b {
      MulLe(b + 1, a, p);
      assert false;
    }
  }

  lemma MulLe(a: nat, b: nat, c: nat)
    requires a <= b
    ensures a * c <= b * c
  {
  }

  /** If 2^levels is floor(log2(512 / size)) and 2^levels * cs = 512, then cs is the smallest
      power of two at or above size. */
  lemma CornerBounds(size: nat, q: nat, p: nat, cs: nat)
    requires q * size <= Side < (q + 1) * size
    requires 1 <= p <= q < 2 * p && p * cs == Side
    ensures size <= cs < 2 * size
  {
    MulLe(p, q, size);
    MulCancelLe(p, size, cs);
    MulLe(q + 1, 2 * p, size);
    if cs >= 2 * size {
      MulLe(2 * size, cs, p);
      assert false;
    }
  }

  /** The corner kept for budget n is a power of two; it is the smallest one that is at least
      floor(sqrt(n)), and the whole plane once floor(sqrt(n)) exceeds 256. */
  lemma CornerCoversBudget(n: int)
    requires n >= 1
    ensures CornerSize(n) == Pow2(9 - Levels(n))
    ensures FloorSqrt(n) <= Side ==> FloorSqrt(n) <= CornerSize(n) < 2 * FloorSqrt(n)
    ensures FloorSqrt(n) > Side / 2 ==> CornerSize(n) == Side
  {
    CornerCoversSize(FloorSqrt(n));
  }

  lemma CornerCoversSize(size: nat)
    requires size >= 1
    ensures size <= Side ==> size <= CornerOfSize(size) < 2 * size
    ensures size > Side / 2 ==> CornerOfSize(size) == Side
  {
    var levels := LevelsOfSize(size);
    var p := Pow2(levels);
    Pow2Split(levels, 9);
    assert Pow2(9) == 512;
    var q := Side / size;
    DivBounds(Side, size);
    if q >= 1 {
      CornerBounds(size, q, p, CornerOfSize(size));
    }
    if size > Side / 2 {
      if q >= 2 {
        MulLe(2, q, size);
        assert false;
      }
      assert levels == 0;
    }
  }

  lemma MulMono(a: nat, b: nat)
    requires a <= b
    ensures a * a <= b * b
  {
    MulLe(a, b, a);
    MulLe(a, b, b);
  }

  /** The floor of the square root of a perfect square p * p is p. */
  lemma SquareRoot(p: nat)
    ensures FloorSqrt(p * p) == p
  {
    var r := FloorSqrt(p * p);
    var r1: nat, p1: nat := r + 1, p + 1;
    if r < p {
      MulMono(r1, p);
      assert false;
    } else if r > p {
      MulMono(p1, r);
      assert false;
    }
  }

  /** Budgets 4^k for k = 0 .. 9 (the progressive decoder's 4^(k - 1)) keep a 2^k square
      corner. */
  lemma CornerOfPowerOfFour(k: nat)
    requires k <= 9
    ensures FloorSqrt(Pow2(k) * Pow2(k)) == Pow2(k)
    ensures CornerSize(Pow2(k) * Pow2(k)) == Pow2(k)
  {
    SquareRoot(Pow2(k));
    CornerOfPower(k);
  }

  lemma CornerOfPower(k: nat)
    requires k <= 9
    ensures CornerOfSize(Pow2(k)) == Pow2(k)
  {
    LevelsOfPower(k);
  }

  /** A corner of side 2^k is reached after 9 - k levels. */
  lemma LevelsOfPower(k: nat)
    requires k <= 9
    ensures LevelsOfSize(Pow2(k)) == 9 - k
  {
    var p := Pow2(k);
    var q := Side / p;
    assert q >= 1 && LevelsOfSize(p) == FloorLog2(q) by {
      QuotientOfPower(k);
    }
    assert FloorLog2(q) == 9 - k by {
      QuotientOfPower(k);
      FloorLog2OfPower(9 - k);
    }
  }

  /** 512 / 2^k is 2^(9 - k). */
  lemma QuotientOfPower(k: nat)
    requires k <= 9
    ensures Side / Pow2(k) == Pow2(9 - k)
  {
    Pow2Split(k, 9);
    assert Pow2(9) == 512;
    DivExact(Pow2(k), Pow2(9 - k));
  }

  lemma DivExact(a: nat, b: nat)
    requires a >= 1
    ensures (a * b) / a == b
  {
    var q: nat := (a * b) / a;
    DivBounds(a * b, a);
    var q1: nat, b1: nat := q + 1, b + 1;
    if q < b {
      MulLe(q1, b, a);
      assert false;
    } else if q > b {
      MulLe(b1, q, a);
      assert false;
    }
  }

  lemma {:induction false} FloorLog2OfPower(j: nat)
    ensures FloorLog2(Pow2(j)) == j
  {
    if j > 0 {
      assert Pow2(j) == 2 * Pow2(j - 1);
      FloorLog2OfPower(j - 1);
    }
  }

  lemma PowerBelowSide(e: nat)
    requires 1 <= e <= 9
    ensures Pow2(e) <= Side && Pow2(e) == 2 * Pow2(e - 1)
  {
    Pow2Monotone(e, 9);
    assert Pow2(9) == 512;
  }

  /** The plane with every cell outside its top-left cs x cs corner set to zero. */
  function KeepCorner(g: seq<seq<real>>, w: nat, cs: int): (r: seq<seq<real>>)
    requires Rect(g, w)
    ensures |r| == |g| && Rect(r, w)
  {
    seq(|g|, i requires 0 <= i < |g| => seq(w, j requires 0 <= j < w => if i < cs && j < cs then g[i][j] else 0.0))
  }

  /** Keeping two corners one after the other keeps the smaller one. */
  lemma KeepCornerTwice(g: seq<seq<real>>, w: nat, a: int, b: int)
    requires Rect(g, w)
    ensures KeepCorner(KeepCorner(g, w, a), w, b) == KeepCorner(g, w, if a < b then a else b)
  {
    var r := KeepCorner(KeepCorner(g, w, a), w, b);
    var t := KeepCorner(g, w, if a < b then a else b);
    forall i | 0 <= i < |g|
      ensures r[i] == t[i]
    {
    }
  }

  /** A corner as large as the plane keeps the whole plane. */
  lemma KeepWholePlane(g: seq<seq<real>>, w: nat, cs: int)
    requires Rect(g, w) && |g| <= cs && w <= cs
    ensures KeepCorner(g, w, cs) == g
  {
    var r := KeepCorner(g, w, cs);
    forall i | 0 <= i < |g|
      ensures r[i] == g[i]
    {
    }
  }

  /** A larger budget never has a smaller integer square root. */
  lemma FloorSqrtMonotone(n: nat, n': nat)
    requires n <= n'
    ensures FloorSqrt(n) <= FloorSqrt(n')
  {
    var a, b := FloorSqrt(n), FloorSqrt(n');
    if b < a {
      var b1: nat := b + 1;
      MulMono(b1, a);
      assert false;
    }
  }

  /** A larger square side never zeroes more levels. */
  lemma LevelsOfSizeAntitone(size: nat, size': nat)
    requires 1 <= size <= size'
    ensures LevelsOfSize(size') <= LevelsOfSize(size)
  {
    var q, q' := Side / size, Side / size';
    DivBounds(Side, size);
    DivBounds(Side, size');
    if q' >= 1 {
      MulLe(size, size', q');
      assert q' * size <= Side;
      if q < q' {
        MulLe(q + 1, q', size);
        assert false;
      }
      FloorLog2Monotone(q', q);
    }
  }

  /** A larger budget keeps a corner at least as large: the progressive decoders never lose a
      coefficient they kept at a smaller budget. */
  lemma CornerSizeMonotone(n: int, n': int)
    requires 1 <= n <= n'
    ensures CornerSize(n) <= CornerSize(n')
  {
    FloorSqrtMonotone(n, n');
    LevelsOfSizeAntitone(FloorSqrt(n), FloorSqrt(n'));
    Pow2Monotone(9 - Levels(n), 9 - Levels(n'));
  }

  /** applyWaveletThreshold: each level halves currentSize and zeroes the three detail
      quadrants of the current extent; afterwards every cell outside the currentSize x
      currentSize corner is zeroed. */
  method ApplyWaveletThreshold(data: array2<real>, n: int)
    requires n >= 1
    requires Levels(n) >= 1 ==> data.Length0 >= Side && data.Length1 >= Side
    modifies data
    ensures forall i, j :: 0 <= i < data.Length0 && 0 <= j < data.Length1 ==>
      data[i, j] == if i < CornerSize(n) && j < CornerSize(n) then old(data[i, j]) else 0.0
    ensures GridOf(data) == KeepCorner(old(GridOf(data)), data.Length1, CornerSize(n))
  {
    ghost var g := GridOf(data);
    var levels := Levels(n);
    var currentSize := Side;
    assert Pow2(9) == Side;
    for level := 0 to levels
      invariant currentSize == Pow2(9 - level)
      invariant forall i, j :: 0 <= i < data.Length0 && 0 <= j < data.Length1 ==>
        data[i, j] == if i < Side && j < Side && (i >= currentSize || j >= currentSize) then 0.0 else old(data[i, j])
    {
      PowerBelowSide(9 - level);
      currentSize := currentSize / 2;
      forall i, j | 0 <= i < currentSize && currentSize <= j < currentSize * 2 {
        data[i, j] := 0.0;
      }
      forall i, j | currentSize <= i < currentSize * 2 && 0 <= j < currentSize * 2 {
        data[i, j] := 0.0;
      }
    }
    if levels == 0 {
      assert currentSize == Side;
    }
    forall i, j | 0 <= i < data.Length0 && 0 <= j < data.Length1 && (i >= currentSize || j >= currentSize) {
      data[i, j] := 0.0;
    }
    GridOfCells(data, KeepCorner(g, data.Length1, CornerSize(n)));
  }
}

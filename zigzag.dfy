/** The 8x8 zig-zag scan of the DCT engine (utils/ImageUtils.java, getZigzagOrder and
    applyZigzagThreshold). A cell is written (x, y) with x the horizontal index, as the
    codec's block arrays are indexed: block[x][y] holds the sample at column i+x, row j+y. */
module Zigzag {

  // The codec's BLOCK_SIZE is 8: a block has 64 cells on 15 anti-diagonals. The numbers are
  // written out in the definitions below.

  type Cell = (int, int)

  predicate InBlock(x: int, y: int) {
    0 <= x < 8 && 0 <= y < 8
  }

  /** First value of the inner counter j on anti-diagonal s (the source's z). */
  function Low(s: int): int {
    if s < 8 then 0 else s - 7
  }

  /** Number of cells on anti-diagonal s: the inner loop runs j = Low(s) .. s - Low(s). */
  function DiagLen(s: nat): (len: nat)
    requires s < 15
    ensures 1 <= len <= 8
  {
    s - 2 * Low(s) + 1
  }

  /** The cell written for counter value j on anti-diagonal s: even diagonals put j in x,
      odd ones put j in y, so the direction alternates. */
  function DiagCell(s: int, j: int): Cell {
    if s % 2 == 0 then (j, s - j) else (s - j, j)
  }

  /** Scan rank of the first cell of anti-diagonal s: the number of cells on the anti-diagonals
      before it, a triangular number counted from the top-left corner up to the main
      anti-diagonal and from the bottom-right corner after it (StartStep ties it to DiagLen). */
  function Start(s: nat): nat
    requires s <= 15
  {
    if s <= 8 then s * (s + 1) / 2 else 64 - (15 - s) * (16 - s) / 2
  }

  /** Position of cell (x, y) in the scan: the inverse of Order(). */
  function Rank(x: int, y: int): int
    requires InBlock(x, y)
  {
    var s := x + y;
    Start(s) + (if s % 2 == 0 then x else y) - Low(s)
  }

  /** Consecutive anti-diagonals start DiagLen apart: Start counts the cells the source's
      counter i has passed when anti-diagonal s begins. */
  lemma StartStep(s: nat)
    requires s < 15
    ensures Start(s + 1) == Start(s) + DiagLen(s)
  {
    assert s == 0 || s == 1 || s == 2 || s == 3 || s == 4 || s == 5 || s == 6 || s == 7 ||
      s == 8 || s == 9 || s == 10 || s == 11 || s == 12 || s == 13 || s == 14;
  }

  lemma {:induction false} StartMonotone(s: nat, s': nat)
    requires s <= s' <= 15
    ensures Start(s) <= Start(s')
    ensures s < s' ==> Start(s) < Start(s')
    decreases s' - s
  {
    if s < s' {
      StartMonotone(s, s' - 1);
      StartStep(s' - 1);
    }
  }

  /** Every anti-diagonal ends within the 64 ranks, the last one exactly at 64. */
  lemma StartWithinBlock(s: nat)
    requires s < 15
    ensures Start(s) < Start(s + 1) <= 64
    ensures s == 14 ==> Start(s + 1) == 64
  {
    StartStep(s);
    StartMonotone(s + 1, 15);
  }

  /** Scan rank k falls on anti-diagonal s. */
  predicate OnDiagonal(k: int, s: nat) {
    s < 15 && Start(s) <= k < Start(s + 1)
  }

  lemma {:induction false} DiagonalSearch(k: nat, s: nat)
    requires s < 15 && Start(s) <= k < 64
    ensures exists r: nat :: OnDiagonal(k, r)
    decreases 15 - s
  {
    StartWithinBlock(s);
    if k >= Start(s + 1) {
      DiagonalSearch(k, s + 1);
    } else {
      assert OnDiagonal(k, s);
    }
  }

  /** The anti-diagonal holding scan rank k. */
  ghost function DiagonalOf(k: nat): (s: nat)
    requires k < 64
    ensures OnDiagonal(k, s)
  {
    DiagonalSearch(k, 0);
    var s: nat :| OnDiagonal(k, s);
    s
  }

  /** The cell at scan rank k: the (k - Start(s))-th cell emitted on its anti-diagonal s. */
  ghost function CellAt(k: nat): Cell
    requires k < 64
  {
    var s := DiagonalOf(k);
    DiagCell(s, Low(s) + (k - Start(s)))
  }

  /** The complete scan order that getZigzagOrder returns. */
  ghost function Order(): seq<Cell> {
    seq(64, k requires 0 <= k < 64 => CellAt(k))
  }

  /** The ranks Start(s) .. Start(s + 1) - 1 belong to anti-diagonal s and to no other. */
  lemma DiagonalOfUnique(k: nat, s: nat)
    requires k < 64 && s < 15 && Start(s) <= k < Start(s + 1)
    ensures DiagonalOf(k) == s
  {
    var r := DiagonalOf(k);
    if r < s {
      StartMonotone(r + 1, s);
    } else if s < r {
      StartMonotone(s + 1, r);
    }
  }

  /** The t-th cell emitted on anti-diagonal s is the cell at scan rank Start(s) + t; it lies in
      the block, on anti-diagonal s. */
  lemma CellOnDiagonal(s: nat, t: nat)
    requires s < 15 && t < DiagLen(s)
    ensures Start(s) + t < 64
    ensures CellAt(Start(s) + t) == DiagCell(s, Low(s) + t)
    ensures var c := DiagCell(s, Low(s) + t);
      InBlock(c.0, c.1) && c.0 + c.1 == s && Rank(c.0, c.1) == Start(s) + t
  {
    StartWithinBlock(s);
    DiagonalOfUnique(Start(s) + t, s);
  }

  /** Order() enumerates each of the 64 cells exactly once: every entry is a cell of the block
      whose rank is its position, and every cell of the block sits at its rank. */
  lemma OrderIsBijection()
    ensures |Order()| == 64
    ensures forall k :: 0 <= k < 64 ==>
      InBlock(Order()[k].0, Order()[k].1) && Rank(Order()[k].0, Order()[k].1) == k
    ensures forall x, y :: InBlock(x, y) ==> 0 <= Rank(x, y) < 64 && Order()[Rank(x, y)] == (x, y)
  {
    forall k | 0 <= k < 64
      ensures InBlock(Order()[k].0, Order()[k].1) && Rank(Order()[k].0, Order()[k].1) == k
    {
      var s := DiagonalOf(k);
      CellOnDiagonal(s, k - Start(s));
    }
    forall x, y | InBlock(x, y)
      ensures 0 <= Rank(x, y) < 64 && Order()[Rank(x, y)] == (x, y)
    {
      var s := x + y;
      var t := (if s % 2 == 0 then x else y) - Low(s);
      CellOnDiagonal(s, t);
    }
  }

  /** Scan step k visits a cell of the block whose rank is k. */
  lemma OrderRank(k: nat)
    requires k < 64
    ensures k < |Order()| && InBlock(Order()[k].0, Order()[k].1) && Rank(Order()[k].0, Order()[k].1) == k
  {
    var s := DiagonalOf(k);
    CellOnDiagonal(s, k - Start(s));
  }

  /** No cell is visited twice, and every visited cell lies in the block. */
  lemma OrderInjective()
    ensures |Order()| == 64
    ensures forall k :: 0 <= k < 64 ==> InBlock(Order()[k].0, Order()[k].1)
    ensures forall k, k' :: 0 <= k < 64 && 0 <= k' < 64 && Order()[k] == Order()[k'] ==> k == k'
  {
    OrderIsBijection();
  }

  /** The scan starts at the DC cell (0, 0). */
  lemma OrderStartsAtOrigin()
    ensures |Order()| > 0 && Order()[0] == (0, 0)
  {
    CellOnDiagonal(0, 0);
  }

  /** Scan rank k lies on anti-diagonal DiagonalOf(k). */
  lemma OrderOnDiagonal(k: nat)
    requires k < 64
    ensures k < |Order()| && Order()[k].0 + Order()[k].1 == DiagonalOf(k)
  {
    var s := DiagonalOf(k);
    CellOnDiagonal(s, k - Start(s));
  }

  /** The anti-diagonal index x + y of the cell at scan rank k never decreases along the scan. */
  lemma OrderSumMonotone(k: nat, k': nat)
    requires k <= k' < 64
    ensures k' < |Order()| && Order()[k].0 + Order()[k].1 <= Order()[k'].0 + Order()[k'].1
  {
    OrderOnDiagonal(k);
    OrderOnDiagonal(k');
    var s, s' := DiagonalOf(k), DiagonalOf(k');
    if s' < s {
      StartMonotone(s' + 1, s);
    }
  }

  /** One step along the scan moves to the same or the next anti-diagonal. */
  lemma OrderSumStep(k: nat)
    requires k + 1 < 64
    ensures k + 1 < |Order()| && Order()[k + 1].0 + Order()[k + 1].1 <= Order()[k].0 + Order()[k].1 + 1
  {
    OrderOnDiagonal(k);
    OrderOnDiagonal(k + 1);
    var s, s' := DiagonalOf(k), DiagonalOf(k + 1);
    if s' > s + 1 {
      StartMonotone(s + 1, s');
    }
  }

  /** Along the scan x + y never decreases, and it grows by at most one per step. */
  lemma OrderDiagonalsAscend()
    ensures forall k, k' :: 0 <= k <= k' < |Order()| ==>
      Order()[k].0 + Order()[k].1 <= Order()[k'].0 + Order()[k'].1
    ensures forall k :: 0 <= k < |Order()| - 1 ==>
      Order()[k + 1].0 + Order()[k + 1].1 <= Order()[k].0 + Order()[k].1 + 1
  {
    forall k, k' | 0 <= k <= k' < |Order()|
      ensures Order()[k].0 + Order()[k].1 <= Order()[k'].0 + Order()[k'].1
    {
      OrderSumMonotone(k, k');
    }
    forall k | 0 <= k < |Order()| - 1
      ensures Order()[k + 1].0 + Order()[k + 1].1 <= Order()[k].0 + Order()[k].1 + 1
    {
      OrderSumStep(k);
    }
  }

  /** Within one anti-diagonal the scan moves by one cell, towards larger x on even
      anti-diagonals and towards larger y on odd ones. */
  lemma OrderAlternates(k: nat)
    requires k + 1 < 64
    requires Order()[k].0 + Order()[k].1 == Order()[k + 1].0 + Order()[k + 1].1
    ensures var (x, y) := Order()[k];
      Order()[k + 1] == if (x + y) % 2 == 0 then (x + 1, y - 1) else (x - 1, y + 1)
  {
    OrderOnDiagonal(k);
    OrderOnDiagonal(k + 1);
    var s := DiagonalOf(k);
    var t := k - Start(s);
    assert DiagonalOf(k + 1) == s;
    CellOnDiagonal(s, t);
    CellOnDiagonal(s, t + 1);
  }

  /** The zig-zag sequence of ITU-T T.81 (Figure A.6) in rows of eight steps: entry [r][c] is
      the row-major index row * 8 + column of the coefficient visited at step 8 * r + c. */
  const JpegZigzag: seq<seq<int>> := [
    [ 0,  1,  8, 16,  9,  2,  3, 10],
    [17, 24, 32, 25, 18, 11,  4,  5],
    [12, 19, 26, 33, 40, 48, 41, 34],
    [27, 20, 13,  6,  7, 14, 21, 28],
    [35, 42, 49, 56, 57, 50, 43, 36],
    [29, 22, 15, 23, 30, 37, 44, 51],
    [58, 59, 52, 45, 38, 31, 39, 46],
    [53, 60, 61, 54, 47, 55, 62, 63]]

  /** The JPEG entry for step 8 * r + c, in the first 32 steps, names the cell whose rank is
      that step. */
  lemma JpegUpperRank(r: nat, c: nat)
    requires 0 <= r < 4 && c < 8
    ensures var e := JpegZigzag[r][c]; InBlock(e % 8, e / 8) && Rank(e % 8, e / 8) == 8 * r + c
  {
    assert c == 0 || c == 1 || c == 2 || c == 3 || c == 4 || c == 5 || c == 6 || c == 7;
    assert r == 0 || r == 1 || r == 2 || r == 3;
  }

  /** The same for the last 32 steps. */
  lemma JpegLowerRank(r: nat, c: nat)
    requires 4 <= r < 8 && c < 8
    ensures var e := JpegZigzag[r][c]; InBlock(e % 8, e / 8) && Rank(e % 8, e / 8) == 8 * r + c
  {
    assert c == 0 || c == 1 || c == 2 || c == 3 || c == 4 || c == 5 || c == 6 || c == 7;
    assert r == 4 || r == 5 || r == 6 || r == 7;
  }

  /** The JPEG entry for step 8 * r + c names the cell whose rank is that step. */
  lemma JpegEntryRank(r: nat, c: nat)
    requires r < 8 && c < 8
    ensures var e := JpegZigzag[r][c]; InBlock(e % 8, e / 8) && Rank(e % 8, e / 8) == 8 * r + c
  {
    if r < 4 {
      JpegUpperRank(r, c);
    } else {
      JpegLowerRank(r, c);
    }
  }

  /** With x as the column and y as the row, the scan is the JPEG zig-zag sequence. */
  lemma OrderIsJpegZigzag()
    ensures |Order()| == 64
    ensures forall r, c :: 0 <= r < 8 && 0 <= c < 8 ==>
      Order()[8 * r + c] == (JpegZigzag[r][c] % 8, JpegZigzag[r][c] / 8)
  {
    OrderIsBijection();
    forall r, c | 0 <= r < 8 && 0 <= c < 8
      ensures Order()[8 * r + c] == (JpegZigzag[r][c] % 8, JpegZigzag[r][c] / 8)
    {
      JpegEntryRank(r, c);
    }
  }

  /** Scan step Start(s) + t visits the cell the source's inner loop writes for j = Low(s) + t. */
  lemma ScanStep(s: nat, t: nat)
    requires s < 15 && t < DiagLen(s)
    ensures Start(s) + t < 64 && Order()[Start(s) + t] == DiagCell(s, Low(s) + t)
  {
    CellOnDiagonal(s, t);
  }

  /** getZigzagOrder: fills a table of 64 cells with a running counter i, one anti-diagonal per
      outer iteration. */
  method GetZigzagOrder() returns (order: array<Cell>)
    ensures order.Length == 64 && order[..] == Order()
  {
    ghost var spec := Order();
    order := new Cell[64];
    var i := 0;
    for s := 0 to 15
      invariant i == Start(s)
      invariant forall k :: 0 <= k < i ==> order[k] == spec[k]
    {
      StartStep(s);
      var z := if s < 8 then 0 else s - 8 + 1;
      var j := z;
      while j <= s - z
        invariant z <= j <= s - z + 1
        invariant i == Start(s) + (j - z)
        invariant forall k :: 0 <= k < i ==> order[k] == spec[k]
      {
        ScanStep(s, j - z);
        order[i] := if s % 2 == 0 then (j, s - j) else (s - j, j);
        i := i + 1;
        j := j + 1;
      }
    }
  }
}

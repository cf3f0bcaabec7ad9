/** The block arithmetic of the DCT codec (utils/ImageUtils.java): an 8x8 block is stored as
    64 coefficients at index x * 8 + y, and decoding keeps only the first m coefficients of the
    zig-zag scan (applyZigzagThreshold). */
module DctBlocks {
  import opened Zigzag

  predicate IsBlock(b: seq<seq<real>>) {
    |b| == 8 && forall x :: 0 <= x < 8 ==> |b[x]| == 8
  }

  /** An 8x8 block of samples or coefficients: b[x][y] belongs to column offset x, row offset
      y, as in the source's double[8][8] arrays. */
  type Block = b: seq<seq<real>> | IsBlock(b) witness seq(8, _ => seq(8, _ => 0.0))

  /** The block's contents as a value. */
  function BlockOf(a: array2<real>): Block
    requires a.Length0 == 8 && a.Length1 == 8
    reads a
  {
    seq(8, x requires 0 <= x < 8 reads a => seq(8, y requires 0 <= y < 8 reads a => a[x, y]))
  }

  /** An 8x8 array holds block t when every cell agrees. */
  lemma BlockOfCells(a: array2<real>, t: Block)
    requires a.Length0 == 8 && a.Length1 == 8
    requires forall x, y :: 0 <= x < 8 && 0 <= y < 8 ==> a[x, y] == t[x][y]
    ensures BlockOf(a) == t
  {
    forall x | 0 <= x < 8
      ensures BlockOf(a)[x] == t[x]
    {
    }
  }

  lemma BlocksEqual(b: Block, t: Block)
    requires forall x, y :: 0 <= x < 8 && 0 <= y < 8 ==> b[x][y] == t[x][y]
    ensures b == t
  {
    forall x | 0 <= x < 8
      ensures b[x] == t[x]
    {
    }
  }

  // Flattening: channelBlocks[i / 8][j / 8][x * 8 + y] holds block cell (x, y).

  function FlatIndex(x: int, y: int): int {
    x * 8 + y
  }

  /** x * 8 + y maps the 64 cells of a block one to one onto 0 .. 63, with k / 8 and k % 8 as
      its inverse. */
  lemma FlatIndexBijection()
    ensures forall x, y :: InBlock(x, y) ==>
      0 <= FlatIndex(x, y) < 64 && FlatIndex(x, y) / 8 == x && FlatIndex(x, y) % 8 == y
    ensures forall k :: 0 <= k < 64 ==> InBlock(k / 8, k % 8) && FlatIndex(k / 8, k % 8) == k
  {
    forall x, y | InBlock(x, y)
      ensures 0 <= FlatIndex(x, y) < 64 && FlatIndex(x, y) / 8 == x && FlatIndex(x, y) % 8 == y
    {
      FlatIndexInverse(x, y);
    }
  }

  lemma FlatIndexInverse(x: int, y: int)
    requires InBlock(x, y)
    ensures 0 <= FlatIndex(x, y) < 64 && FlatIndex(x, y) / 8 == x && FlatIndex(x, y) % 8 == y
  {
    assert x * 8 + y == 8 * x + y;
  }

  /** encodeDCT's store loop as a value: coefficient k is block cell (k / 8, k % 8). */
  function Flatten(b: Block): (f: seq<real>)
    ensures |f| == 64
  {
    seq(64, k requires 0 <= k < 64 => b[k / 8][k % 8])
  }

  /** decodeDCT's copy loop as a value: block cell (x, y) is coefficient x * 8 + y. */
  function Unflatten(f: seq<real>): Block
    requires |f| == 64
  {
    seq(8, x requires 0 <= x < 8 => seq(8, y requires 0 <= y < 8 => f[FlatIndex(x, y)]))
  }

  /** Reading a stored block back gives the block that was stored. */
  lemma UnflattenFlatten(b: Block)
    ensures Unflatten(Flatten(b)) == b
  {
    var u := Unflatten(Flatten(b));
    forall x | 0 <= x < 8
      ensures u[x] == b[x]
    {
      forall y | 0 <= y < 8
        ensures u[x][y] == b[x][y]
      {
        FlatIndexInverse(x, y);
      }
    }
  }

  /** Storing a block read from 64 coefficients gives back the coefficients. */
  lemma FlattenUnflatten(f: seq<real>)
    requires |f| == 64
    ensures Flatten(Unflatten(f)) == f
  {
    FlatIndexBijection();
  }

  // Truncation: applyZigzagThreshold(block, m).

  /** The block with every cell of zig-zag rank m or more set to zero. */
  function Truncated(b: Block, m: int): Block {
    seq(8, x requires 0 <= x < 8 => seq(8, y requires 0 <= y < 8 => if Rank(x, y) >= m then 0.0 else b[x][y]))
  }

  /** Step k of the zig-zag scan keeps its coefficient exactly when k < m: truncation keeps the
      first m coefficients of the scan and zeroes the rest. */
  lemma TruncatedKeepsScanPrefix(b: Block, m: int)
    ensures forall k :: 0 <= k < |Order()| ==>
      Truncated(b, m)[Order()[k].0][Order()[k].1] == if k < m then b[Order()[k].0][Order()[k].1] else 0.0
  {
    OrderIsBijection();
  }

  /** A budget of 64 or more keeps the whole block; a budget of 0 or less zeroes it. */
  lemma TruncatedBounds(b: Block, m: int)
    ensures m >= 64 ==> Truncated(b, m) == b
    ensures m <= 0 ==> Truncated(b, m) == seq(8, _ => seq(8, _ => 0.0))
  {
    OrderIsBijection();
    if m >= 64 {
      BlocksEqual(Truncated(b, m), b);
    }
    if m <= 0 {
      BlocksEqual(Truncated(b, m), seq(8, _ => seq(8, _ => 0.0)));
    }
  }

  /** Truncating twice keeps the smaller budget. */
  lemma TruncatedTwice(b: Block, m1: int, m2: int)
    ensures Truncated(Truncated(b, m1), m2) == Truncated(b, if m1 < m2 then m1 else m2)
  {
    var m := if m1 < m2 then m1 else m2;
    forall x | 0 <= x < 8
      ensures Truncated(Truncated(b, m1), m2)[x] == Truncated(b, m)[x]
    {
    }
  }

  /** Truncation to m coefficients depends only on the first m steps of the zig-zag scan: two
      blocks that agree there truncate to the same block. */
  lemma TruncatedDependsOnScanPrefix(b1: Block, b2: Block, m: int)
    requires forall k :: 0 <= k < |Order()| && k < m ==>
      InBlock(Order()[k].0, Order()[k].1) &&
      b1[Order()[k].0][Order()[k].1] == b2[Order()[k].0][Order()[k].1]
    ensures Truncated(b1, m) == Truncated(b2, m)
  {
    OrderIsBijection();
    forall x, y | 0 <= x < 8 && 0 <= y < 8
      ensures Truncated(b1, m)[x][y] == Truncated(b2, m)[x][y]
    {
      var k := Rank(x, y);
      assert Order()[k] == (x, y);
    }
    BlocksEqual(Truncated(b1, m), Truncated(b2, m));
  }

  /** An array that holds zero at scan steps m .. 63 and b's cell at the others holds b
      truncated to m coefficients. */
  lemma ScanZeroedIsTruncated(block: array2<real>, b: Block, m: int)
    requires block.Length0 == 8 && block.Length1 == 8
    requires forall k :: 0 <= k < |Order()| ==>
      InBlock(Order()[k].0, Order()[k].1) &&
      block[Order()[k].0, Order()[k].1] == if m <= k then 0.0 else b[Order()[k].0][Order()[k].1]
    ensures BlockOf(block) == Truncated(b, m)
  {
    OrderIsBijection();
    forall x, y | 0 <= x < 8 && 0 <= y < 8
      ensures block[x, y] == Truncated(b, m)[x][y]
    {
      var k := Rank(x, y);
      assert Order()[k] == (x, y);
    }
    BlockOfCells(block, Truncated(b, m));
  }

  /** applyZigzagThreshold: walks the scan from step m to step 63 and zeroes each visited cell. */
  method ApplyZigzagThreshold(block: array2<real>, m: int)
    requires block.Length0 == 8 && block.Length1 == 8 && 0 <= m
    modifies block
    ensures BlockOf(block) == Truncated(old(BlockOf(block)), m)
  {
    ghost var b := BlockOf(block);
    var order := GetZigzagOrder();
    ghost var scan := order[..];
    OrderInjective();
    var i := m;
    while i < 64
      invariant m <= i && (i <= 64 || i == m)
      invariant order[..] == scan
      invariant forall k :: 0 <= k < 64 ==>
        block[scan[k].0, scan[k].1] == if m <= k < i then 0.0 else b[scan[k].0][scan[k].1]
    {
      assert order[i] == scan[i];
      var x := order[i].0;
      var y := order[i].1;
      block[x, y] := 0.0;
      i := i + 1;
    }
    ScanZeroedIsTruncated(block, b, m);
  }
}

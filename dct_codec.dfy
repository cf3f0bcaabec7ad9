/** The DCT codec (utils/ImageUtils.java, encodeDCT and decodeDCT).

    encodeDCT cuts each colour channel of the image into 8x8 blocks, transforms each block and
    stores its 64 coefficients; decodeDCT keeps the first m coefficients of every block in
    zig-zag order, transforms the block back and writes the rounded, clamped samples into a new
    image channel by channel. The forward and inverse transforms (dctTransform and
    inverseDCTTransform) are parameters of the model. */
module DctCodec {
  import opened Pixels
  import opened Samples
  import opened Images
  import opened DctBlocks

  /** The number of coefficients per block decodeDCT keeps for a budget of n coefficients over
      the 4096 blocks of a 512 x 512 image: Math.round(n / 4096.0f). */
  function DctBudget(n: int): int {
    (n + 2048) / 4096
  }

  /** DctBudget(n) is n / 4096 rounded to the nearest integer, halves rounding up, as
      Math.round does. */
  lemma DctBudgetRounds(n: int)
    ensures (DctBudget(n) as real) - 0.5 <= (n as real) / 4096.0 < (DctBudget(n) as real) + 0.5
  {
    var m := DctBudget(n);
    assert m * 4096 <= n + 2048 < m * 4096 + 4096;
  }

  /** Budgets that are multiples of 4096 give whole coefficients per block, and the budget
      grows with n. */
  lemma DctBudgetProperties(n: int, n': int, k: int)
    ensures DctBudget(k * 4096) == k
    ensures n <= n' ==> DctBudget(n) <= DctBudget(n')
    ensures DctBudget(n) >= 0 <==> n >= -2048
    ensures DctBudget(n) >= 64 <==> n >= 260096
  {
  }

  /** Blocks tile an image of w x h pixels. */
  predicate Tiled(w: int, h: int) {
    0 <= w && 0 <= h && w % 8 == 0 && h % 8 == 0
  }

  /** Block origin (i, j) lies on the block grid of the image. */
  predicate BlockOrigin(i: int, j: int, w: int, h: int) {
    0 <= i && i + 8 <= w && i % 8 == 0 && 0 <= j && j + 8 <= h && j % 8 == 0
  }

  /** A pixel at offset (x, y) in a block whose origin is on the grid lies in the image. */
  lemma BlockPixelInImage(i: int, j: int, x: int, y: int, w: nat, h: nat)
    requires BlockOrigin(i, j, w, h) && 0 <= x < 8 && 0 <= y < 8
    ensures 0 <= PixelIndex(i + x, j + y, w) < w * h
  {
    PixelIndexInImage(i + x, j + y, w, h);
  }

  /** A column or row X in the 8 pixels from grid origin i sits in block i / 8 at offset
      X - i. */
  lemma BlockOffset(i: int, X: int)
    requires i % 8 == 0 && i <= X < i + 8
    ensures X / 8 == i / 8 && X % 8 == X - i
  {
  }

  /** The samples encodeDCT extracts from channel c for the block with top-left pixel (i, j):
      cell (x, y) is the colour of pixel (i + x, j + y). */
  function SampleBlock(img: seq<bv32>, w: nat, h: nat, c: int, i: int, j: int): Block
    requires |img| == w * h && BlockOrigin(i, j, w, h)
  {
    seq(8, x requires 0 <= x < 8 =>
      seq(8, y requires 0 <= y < 8 =>
        BlockPixelInImage(i, j, x, y, w, h);
        Sample(Color(img[PixelIndex(i + x, j + y, w)], c))))
  }

  /** The 64 coefficients encodeDCT stores for the block with top-left pixel (i, j). */
  function EncodedBlock(dct: Block -> Block, img: seq<bv32>, w: nat, h: nat, c: int, i: int, j: int): (f: seq<real>)
    requires |img| == w * h && BlockOrigin(i, j, w, h)
    ensures |f| == 64
  {
    Flatten(dct(SampleBlock(img, w, h, c, i, j)))
  }

  /** The coefficients a channel's array holds for block (bi, bj): channelBlocks[bi][bj]. */
  function BlockCoeffs(a: array3<real>, bi: int, bj: int): (f: seq<real>)
    requires 0 <= bi < a.Length0 && 0 <= bj < a.Length1 && a.Length2 == 64
    reads a
    ensures |f| == 64
  {
    seq(64, k requires 0 <= k < 64 reads a => a[bi, bj, k])
  }

  /** A channel's array has one slot of 64 coefficients per block of a w x h image. */
  predicate ChannelShaped(a: array3<real>, w: int, h: int) {
    a.Length0 == w / 8 && a.Length1 == h / 8 && a.Length2 == 64
  }

  /** The list encodeDCT returns: three channel arrays, each with one slot per block. */
  predicate CoeffsShaped(coeffs: seq<array3<real>>, w: int, h: int) {
    |coeffs| == 3 && forall c :: 0 <= c < 3 ==> ChannelShaped(coeffs[c], w, h)
  }

  /** Array a holds the encoding of channel c of img: every block's slot holds that block's
      transformed samples. */
  ghost predicate EncodesChannel(a: array3<real>, dct: Block -> Block, img: seq<bv32>, w: nat, h: nat, c: int)
    requires |img| == w * h && Tiled(w, h) && ChannelShaped(a, w, h)
    reads a
  {
    forall bi, bj :: 0 <= bi < w / 8 && 0 <= bj < h / 8 ==>
      BlockCoeffs(a, bi, bj) == EncodedBlock(dct, img, w, h, c, 8 * bi, 8 * bj)
  }

  /** encodeDCT's extraction loop: a new 8x8 block holding the samples of channel c for the
      block with top-left pixel (i, j). */
  method ExtractBlock(img: array<bv32>, w: nat, h: nat, c: int, i: int, j: int) returns (block: array2<real>)
    requires img.Length == w * h && BlockOrigin(i, j, w, h)
    ensures fresh(block) && block.Length0 == 8 && block.Length1 == 8
    ensures BlockOf(block) == SampleBlock(img[..], w, h, c, i, j)
  {
    ghost var s := SampleBlock(img[..], w, h, c, i, j);
    block := new real[8, 8];
    for x := 0 to 8
      invariant forall x', y' :: 0 <= x' < x && 0 <= y' < 8 ==> block[x', y'] == s[x'][y']
    {
      for y := 0 to 8
        invariant forall x', y' :: 0 <= x' < x && 0 <= y' < 8 ==> block[x', y'] == s[x'][y']
        invariant forall y' :: 0 <= y' < y ==> block[x, y'] == s[x][y']
      {
        BlockPixelInImage(i, j, x, y, w, h);
        var pixel := img[PixelIndex(i + x, j + y, w)];
        var color := Color(pixel, c);
        block[x, y] := Sample(color);
      }
    }
    BlockOfCells(block, s);
  }

  /** encodeDCT's store loop: channelBlocks[bi][bj][x * 8 + y] = dctBlock[x][y]. Only block
      (bi, bj) changes. */
  method StoreBlock(a: array3<real>, bi: int, bj: int, b: Block)
    requires 0 <= bi < a.Length0 && 0 <= bj < a.Length1 && a.Length2 == 64
    modifies a
    ensures BlockCoeffs(a, bi, bj) == Flatten(b)
    ensures forall bi', bj', k ::
      (0 <= bi' < a.Length0 && 0 <= bj' < a.Length1 && 0 <= k < 64 && (bi', bj') != (bi, bj)) ==>
      a[bi', bj', k] == old(a[bi', bj', k])
  {
    for x := 0 to 8
      invariant forall k :: 0 <= k < 8 * x ==> a[bi, bj, k] == Flatten(b)[k]
      invariant forall bi', bj', k ::
        (0 <= bi' < a.Length0 && 0 <= bj' < a.Length1 && 0 <= k < 64 && (bi', bj') != (bi, bj)) ==>
        a[bi', bj', k] == old(a[bi', bj', k])
    {
      for y := 0 to 8
        invariant forall k :: 0 <= k < 8 * x + y ==> a[bi, bj, k] == Flatten(b)[k]
        invariant forall bi', bj', k ::
          (0 <= bi' < a.Length0 && 0 <= bj' < a.Length1 && 0 <= k < 64 && (bi', bj') != (bi, bj)) ==>
          a[bi', bj', k] == old(a[bi', bj', k])
      {
        FlatIndexInverse(x, y);
        a[bi, bj, FlatIndex(x, y)] := b[x][y];
      }
    }
  }

  /** One step of encodeDCT: extract block (i, j) of channel c, transform it and store its
      coefficients in slot (i / 8, j / 8); every other slot keeps its coefficients. */
  method EncodeBlock(img: array<bv32>, w: nat, h: nat, c: int, i: int, j: int, dct: Block -> Block,
                     a: array3<real>)
    requires img.Length == w * h && Tiled(w, h) && BlockOrigin(i, j, w, h) && ChannelShaped(a, w, h)
    modifies a
    ensures BlockCoeffs(a, i / 8, j / 8) == EncodedBlock(dct, img[..], w, h, c, i, j)
    ensures forall bi, bj :: (0 <= bi < w / 8 && 0 <= bj < h / 8 && (bi, bj) != (i / 8, j / 8)) ==>
      BlockCoeffs(a, bi, bj) == old(BlockCoeffs(a, bi, bj))
  {
    var block := ExtractBlock(img, w, h, c, i, j);
    var dctBlock := dct(BlockOf(block));
    StoreBlock(a, i / 8, j / 8, dctBlock);
    forall bi, bj | 0 <= bi < w / 8 && 0 <= bj < h / 8 && (bi, bj) != (i / 8, j / 8)
      ensures BlockCoeffs(a, bi, bj) == old(BlockCoeffs(a, bi, bj))
    {
    }
  }

  /** encodeDCT's inner loop: the blocks of the column of blocks starting at column i, from
      top to bottom; slots of other columns keep their coefficients. */
  method EncodeBlockColumn(img: array<bv32>, w: nat, h: nat, c: int, i: int, dct: Block -> Block,
                           a: array3<real>)
    requires img.Length == w * h && Tiled(w, h) && 0 <= i < w && i % 8 == 0 && ChannelShaped(a, w, h)
    modifies a
    ensures forall bj :: 0 <= bj < h / 8 ==>
      BlockCoeffs(a, i / 8, bj) == EncodedBlock(dct, img[..], w, h, c, i, 8 * bj)
    ensures forall bi, bj :: (0 <= bi < w / 8 && 0 <= bj < h / 8 && bi != i / 8) ==>
      BlockCoeffs(a, bi, bj) == old(BlockCoeffs(a, bi, bj))
  {
    var j := 0;
    while j < h
      invariant 0 <= j <= h && j % 8 == 0
      invariant forall bj :: 0 <= bj < j / 8 ==>
        BlockCoeffs(a, i / 8, bj) == EncodedBlock(dct, img[..], w, h, c, i, 8 * bj)
      invariant forall bi, bj :: (0 <= bi < w / 8 && 0 <= bj < h / 8 && bi != i / 8) ==>
        BlockCoeffs(a, bi, bj) == old(BlockCoeffs(a, bi, bj))
    {
      assert 8 * (j / 8) == j;
      EncodeBlock(img, w, h, c, i, j, dct, a);
      j := j + 8;
    }
  }

  /** encodeDCT for one channel: the columns of blocks from left to right, and in each the
      blocks from top to bottom; every block's transformed samples land in its slot. */
  method EncodeDctChannel(img: array<bv32>, w: nat, h: nat, c: int, dct: Block -> Block)
    returns (a: array3<real>)
    requires img.Length == w * h && Tiled(w, h)
    ensures fresh(a) && ChannelShaped(a, w, h)
    ensures EncodesChannel(a, dct, img[..], w, h, c)
  {
    a := new real[w / 8, h / 8, 64];
    var i := 0;
    while i < w
      invariant 0 <= i <= w && i % 8 == 0
      invariant forall bi, bj :: 0 <= bi < i / 8 && 0 <= bj < h / 8 ==>
        BlockCoeffs(a, bi, bj) == EncodedBlock(dct, img[..], w, h, c, 8 * bi, 8 * bj)
    {
      assert 8 * (i / 8) == i;
      EncodeBlockColumn(img, w, h, c, i, dct, a);
      i := i + 8;
    }
  }

  /** encodeDCT: one array of block coefficients per colour channel, red, green and blue. */
  method EncodeDct(img: array<bv32>, w: nat, h: nat, dct: Block -> Block) returns (coeffs: seq<array3<real>>)
    requires img.Length == w * h && Tiled(w, h)
    ensures CoeffsShaped(coeffs, w, h)
    ensures forall c :: 0 <= c < 3 ==> fresh(coeffs[c]) && EncodesChannel(coeffs[c], dct, img[..], w, h, c)
  {
    coeffs := [];
    for channel := 0 to 3
      invariant |coeffs| == channel
      invariant forall c :: 0 <= c < channel ==>
        fresh(coeffs[c]) && ChannelShaped(coeffs[c], w, h) && EncodesChannel(coeffs[c], dct, img[..], w, h, c)
    {
      var a := EncodeDctChannel(img, w, h, channel, dct);
      coeffs := coeffs + [a];
    }
  }

  // Decoding.

  /** The colour decodeDCT writes into channel c at pixel (X, Y), given that channel's
      coefficients a and a budget of m coefficients per block: the inverse transform of the
      truncated block holding the pixel, at the pixel's offset in the block, rounded and
      clamped. */
  function DecodedColor(idct: Block -> Block, a: array3<real>, m: int, X: int, Y: int): bv8
    requires 0 <= X && 0 <= Y && X / 8 < a.Length0 && Y / 8 < a.Length1 && a.Length2 == 64
    reads a
  {
    ColorOf(idct(Truncated(Unflatten(BlockCoeffs(a, X / 8, Y / 8)), m))[X % 8][Y % 8])
  }

  /** The colour decodeDCT writes into channel c at array index k, which holds the pixel at
      column k % w, row k / w. */
  function DecodedColorAt(idct: Block -> Block, a: array3<real>, m: int, w: nat, h: nat, k: int): bv8
    requires Tiled(w, h) && ChannelShaped(a, w, h) && 0 <= k < w * h
    reads a
  {
    PixelOfIndex(k, w, h);
    DecodedColor(idct, a, m, k % w, k / w)
  }

  /** decodeDCT's copy loop: a new 8x8 block with dctBlock[x][y] = channelBlocks[bi][bj][x * 8 + y]. */
  method CopyBlock(a: array3<real>, bi: int, bj: int) returns (block: array2<real>)
    requires 0 <= bi < a.Length0 && 0 <= bj < a.Length1 && a.Length2 == 64
    ensures fresh(block) && block.Length0 == 8 && block.Length1 == 8
    ensures BlockOf(block) == Unflatten(BlockCoeffs(a, bi, bj))
  {
    ghost var u := Unflatten(BlockCoeffs(a, bi, bj));
    block := new real[8, 8];
    for x := 0 to 8
      invariant forall x', y' :: 0 <= x' < x && 0 <= y' < 8 ==> block[x', y'] == u[x'][y']
    {
      for y := 0 to 8
        invariant forall x', y' :: 0 <= x' < x && 0 <= y' < 8 ==> block[x', y'] == u[x'][y']
        invariant forall y' :: 0 <= y' < y ==> block[x, y'] == u[x][y']
      {
        FlatIndexInverse(x, y);
        block[x, y] := a[bi, bj, FlatIndex(x, y)];
      }
    }
    BlockOfCells(block, u);
  }

  /** Pixel (X, Y) lies in the block whose top-left pixel is (i, j). */
  predicate InBlockAt(X: int, Y: int, i: int, j: int) {
    i <= X < i + 8 && j <= Y < j + 8
  }

  /** decodeDCT's write loop: for each pixel of the block with top-left pixel (i, j), read the
      pixel, replace channel c with the clamped decoded sample and store it. Index k holds the
      pixel at column k % w, row k / w. */
  method WriteBlock(out: array<bv32>, w: nat, h: nat, c: int, i: int, j: int, d: Block)
    requires out.Length == w * h && BlockOrigin(i, j, w, h)
    modifies out
    ensures forall k :: 0 <= k < w * h ==>
      out[k] == if InBlockAt(k % w, k / w, i, j)
        then Stored(SetColor(old(out[k]), c, ColorOf(d[k % w - i][k / w - j])))
        else old(out[k])
  {
    forall k | 0 <= k < w * h
      ensures PixelIndex(k % w, k / w, w) == k
    {
      PixelOfIndex(k, w, h);
    }
    for x := 0 to 8
      invariant forall k :: 0 <= k < w * h ==>
        out[k] == if InBlockAt(k % w, k / w, i, j) && k % w - i < x
          then Stored(SetColor(old(out[k]), c, ColorOf(d[k % w - i][k / w - j])))
          else old(out[k])
    {
      for y := 0 to 8
        invariant forall k :: 0 <= k < w * h ==>
          out[k] == if InBlockAt(k % w, k / w, i, j) && (k % w - i < x || (k % w - i == x && k / w - j < y))
            then Stored(SetColor(old(out[k]), c, ColorOf(d[k % w - i][k / w - j])))
            else old(out[k])
      {
        BlockPixelInImage(i, j, x, y, w, h);
        PixelIndexCoords(i + x, j + y, w);
        var pixel := out[PixelIndex(i + x, j + y, w)];
        var color := ColorOf(d[x][y]);
        pixel := SetColor(pixel, c, color);
        out[PixelIndex(i + x, j + y, w)] := Stored(pixel);
      }
    }
  }

  /** One block of decodeDCT: copy block (i, j) of channel c out of its slot, keep its first m
      coefficients in zig-zag order, transform it back and write it into channel c of the
      block's pixels; no other pixel changes. */
  method DecodeBlock(a: array3<real>, out: array<bv32>, w: nat, h: nat, c: int, m: int, i: int, j: int,
                     idct: Block -> Block)
    requires out.Length == w * h && Tiled(w, h) && BlockOrigin(i, j, w, h) && ChannelShaped(a, w, h)
    requires 0 <= m
    modifies out
    ensures forall k :: 0 <= k < w * h ==>
      out[k] == if InBlockAt(k % w, k / w, i, j)
        then Stored(SetColor(old(out[k]), c, DecodedColorAt(idct, a, m, w, h, k)))
        else old(out[k])
  {
    var dctBlock := CopyBlock(a, i / 8, j / 8);
    ApplyZigzagThreshold(dctBlock, m);
    var decodedBlock := idct(BlockOf(dctBlock));
    WriteBlock(out, w, h, c, i, j, decodedBlock);
    forall k | 0 <= k < w * h && InBlockAt(k % w, k / w, i, j)
      ensures ColorOf(decodedBlock[k % w - i][k / w - j]) == DecodedColor(idct, a, m, k % w, k / w)
    {
      BlockOffset(i, k % w);
      BlockOffset(j, k / w);
    }
  }

  /** o is the image before with channel c decoded in the blocks of column of blocks i that lie
      above row j. */
  ghost predicate BlocksDecoded(o: seq<bv32>, before: seq<bv32>, idct: Block -> Block, a: array3<real>,
                                m: int, w: nat, h: nat, c: int, i: int, j: int)
    requires Tiled(w, h) && ChannelShaped(a, w, h)
    reads a
  {
    |o| == |before| == w * h &&
    forall k :: 0 <= k < w * h ==>
      o[k] == if i <= k % w < i + 8 && k / w < j
        then Stored(SetColor(before[k], c, DecodedColorAt(idct, a, m, w, h, k)))
        else before[k]
  }

  /** decodeDCT's inner loop: the blocks of the column of blocks starting at column i, from
      top to bottom. */
  method DecodeBlockColumn(a: array3<real>, out: array<bv32>, w: nat, h: nat, c: int, m: int, i: int,
                           idct: Block -> Block)
    requires out.Length == w * h && Tiled(w, h) && 0 <= i < w && i % 8 == 0 && ChannelShaped(a, w, h)
    requires 0 <= m
    modifies out
    ensures BlocksDecoded(out[..], old(out[..]), idct, a, m, w, h, c, i, h)
  {
    ghost var before := out[..];
    NoBlocksDecoded(before, idct, a, m, w, h, c, i);
    var j := 0;
    while j < h
      invariant 0 <= j <= h && j % 8 == 0
      invariant BlocksDecoded(out[..], before, idct, a, m, w, h, c, i, j)
    {
      DecodeNextBlock(a, out, w, h, c, m, i, j, idct, before);
      j := j + 8;
    }
  }

  lemma NoBlocksDecoded(before: seq<bv32>, idct: Block -> Block, a: array3<real>, m: int, w: nat, h: nat,
                        c: int, i: int)
    requires Tiled(w, h) && ChannelShaped(a, w, h) && |before| == w * h
    ensures BlocksDecoded(before, before, idct, a, m, w, h, c, i, 0)
  {
    forall k | 0 <= k < w * h
      ensures 0 <= k / w
    {
      PixelOfIndex(k, w, h);
    }
  }

  /** One iteration of decodeDCT's inner loop: the block with origin (i, j). */
  method DecodeNextBlock(a: array3<real>, out: array<bv32>, w: nat, h: nat, c: int, m: int, i: int, j: int,
                         idct: Block -> Block, ghost before: seq<bv32>)
    requires out.Length == w * h && Tiled(w, h) && 0 <= i < w && i % 8 == 0 && ChannelShaped(a, w, h)
    requires 0 <= j < h && j % 8 == 0
    requires 0 <= m && BlocksDecoded(out[..], before, idct, a, m, w, h, c, i, j)
    modifies out
    ensures BlocksDecoded(out[..], before, idct, a, m, w, h, c, i, j + 8)
  {
    ghost var mid := out[..];
    DecodeBlock(a, out, w, h, c, m, i, j, idct);
    forall k | 0 <= k < w * h
      ensures out[..][k] == if i <= k % w < i + 8 && k / w < j + 8
        then Stored(SetColor(before[k], c, DecodedColorAt(idct, a, m, w, h, k)))
        else before[k]
    {
      var d := DecodedColorAt(idct, a, m, w, h, k);
      assert mid[k] == if i <= k % w < i + 8 && k / w < j then Stored(SetColor(before[k], c, d)) else before[k];
      assert out[k] == if InBlockAt(k % w, k / w, i, j) then Stored(SetColor(mid[k], c, d)) else mid[k];
      PixelOfIndex(k, w, h);
    }
  }

  /** o is the image before with channel c of columns 0 .. i - 1 decoded. */
  ghost predicate ColumnsDecoded(o: seq<bv32>, before: seq<bv32>, idct: Block -> Block, a: array3<real>,
                                 m: int, w: nat, h: nat, c: int, i: int)
    requires Tiled(w, h) && ChannelShaped(a, w, h)
    reads a
  {
    |o| == |before| == w * h &&
    forall k :: 0 <= k < w * h ==>
      o[k] == if k % w < i then Stored(SetColor(before[k], c, DecodedColorAt(idct, a, m, w, h, k))) else before[k]
  }

  /** decodeDCT for one channel: every pixel's channel c is replaced by its decoded colour,
      column of blocks by column of blocks. */
  method DecodeDctChannel(a: array3<real>, out: array<bv32>, w: nat, h: nat, c: int, m: int,
                          idct: Block -> Block)
    requires out.Length == w * h && Tiled(w, h) && ChannelShaped(a, w, h)
    requires 0 <= m
    modifies out
    ensures ColumnsDecoded(out[..], old(out[..]), idct, a, m, w, h, c, w)
  {
    ghost var before := out[..];
    NoColumnsDecoded(before, idct, a, m, w, h, c);
    var i := 0;
    while i < w
      invariant 0 <= i <= w && i % 8 == 0
      invariant ColumnsDecoded(out[..], before, idct, a, m, w, h, c, i)
    {
      DecodeNextColumn(a, out, w, h, c, m, i, idct, before);
      i := i + 8;
    }
  }

  lemma NoColumnsDecoded(before: seq<bv32>, idct: Block -> Block, a: array3<real>, m: int, w: nat, h: nat, c: int)
    requires Tiled(w, h) && ChannelShaped(a, w, h) && |before| == w * h
    ensures ColumnsDecoded(before, before, idct, a, m, w, h, c, 0)
  {
    forall k | 0 <= k < w * h
      ensures 0 <= k % w
    {
      PixelOfIndex(k, w, h);
    }
  }

  lemma AllColumnsDecoded(o: seq<bv32>, before: seq<bv32>, idct: Block -> Block, a: array3<real>,
                          m: int, w: nat, h: nat, c: int, i: int, k: int)
    requires Tiled(w, h) && ChannelShaped(a, w, h) && w <= i && 0 <= k < w * h
    requires ColumnsDecoded(o, before, idct, a, m, w, h, c, i)
    ensures o[k] == Stored(SetColor(before[k], c, DecodedColorAt(idct, a, m, w, h, k)))
  {
    PixelOfIndex(k, w, h);
  }

  /** One iteration of decodeDCT's outer loop over block columns. */
  method DecodeNextColumn(a: array3<real>, out: array<bv32>, w: nat, h: nat, c: int, m: int, i: int,
                          idct: Block -> Block, ghost before: seq<bv32>)
    requires out.Length == w * h && Tiled(w, h) && 0 <= i < w && i % 8 == 0 && ChannelShaped(a, w, h)
    requires 0 <= m && ColumnsDecoded(out[..], before, idct, a, m, w, h, c, i)
    modifies out
    ensures ColumnsDecoded(out[..], before, idct, a, m, w, h, c, i + 8)
  {
    ghost var mid := out[..];
    DecodeBlockColumn(a, out, w, h, c, m, i, idct);
    forall k | 0 <= k < w * h
      ensures out[..][k] == if k % w < i + 8
        then Stored(SetColor(before[k], c, DecodedColorAt(idct, a, m, w, h, k)))
        else before[k]
    {
      var d := DecodedColorAt(idct, a, m, w, h, k);
      PixelOfIndex(k, w, h);
      assert mid[k] == if k % w < i then Stored(SetColor(before[k], c, d)) else before[k];
      assert out[..][k] == if i <= k % w < i + 8 then Stored(SetColor(mid[k], c, d)) else mid[k];
    }
  }

  /** Pixel k of the image decodeDCT builds after channels 0 .. c - 1 have been written into a
      new image. */
  ghost function PartialPixel(idct: Block -> Block, coeffs: seq<array3<real>>, m: int, w: nat, h: nat,
                              k: int, c: nat): bv32
    requires Tiled(w, h) && CoeffsShaped(coeffs, w, h) && 0 <= k < w * h && c <= 3
    reads coeffs
  {
    if c == 0 then Opaque
    else Stored(SetColor(PartialPixel(idct, coeffs, m, w, h, k, c - 1), c - 1,
                         DecodedColorAt(idct, coeffs[c - 1], m, w, h, k)))
  }

  /** Pixel k of the image decodeDCT returns: the three decoded colours of the pixel. */
  function DecodedPixel(idct: Block -> Block, coeffs: seq<array3<real>>, m: int, w: nat, h: nat, k: int): bv32
    requires Tiled(w, h) && CoeffsShaped(coeffs, w, h) && 0 <= k < w * h
    reads coeffs
  {
    Decoded(DecodedColorAt(idct, coeffs[0], m, w, h, k),
            DecodedColorAt(idct, coeffs[1], m, w, h, k),
            DecodedColorAt(idct, coeffs[2], m, w, h, k))
  }

  /** f holds the pixels of the image decodeDCT returns with m coefficients per block. */
  ghost predicate IsDctFrame(f: seq<bv32>, idct: Block -> Block, coeffs: seq<array3<real>>, m: int, w: nat, h: nat)
    requires Tiled(w, h) && CoeffsShaped(coeffs, w, h)
    reads coeffs
  {
    |f| == w * h && forall k :: 0 <= k < w * h ==> f[k] == DecodedPixel(idct, coeffs, m, w, h, k)
  }

  /** After the three channel passes a pixel is the decoded pixel. */
  lemma PartialPixelComplete(idct: Block -> Block, coeffs: seq<array3<real>>, m: int, w: nat, h: nat, k: int)
    requires Tiled(w, h) && CoeffsShaped(coeffs, w, h) && 0 <= k < w * h
    ensures PartialPixel(idct, coeffs, m, w, h, k, 3) == DecodedPixel(idct, coeffs, m, w, h, k)
  {
    assert PartialPixel(idct, coeffs, m, w, h, k, 1) ==
      Stored(SetColor(Opaque, 0, DecodedColorAt(idct, coeffs[0], m, w, h, k)));
  }

  /** decodeDCT: a new image whose channels are decoded one after the other, each block keeping
      Math.round(n / 4096.0f) coefficients. A budget below -2048 rounds to a negative count,
      which the source's zig-zag loop would use as an array index; it is excluded. */
  method DecodeDct(coeffs: seq<array3<real>>, w: nat, h: nat, n: int, idct: Block -> Block)
    returns (out: array<bv32>)
    requires Tiled(w, h) && CoeffsShaped(coeffs, w, h) && n >= -2048
    ensures fresh(out) && out.Length == w * h
    ensures IsDctFrame(out[..], idct, coeffs, DctBudget(n), w, h)
  {
    var m := DctBudget(n);
    DctBudgetProperties(n, n, 0);
    out := NewImage(w, h);
    forall k | 0 <= k < w * h
      ensures out[..][k] == PartialPixel(idct, coeffs, m, w, h, k, 0)
    {
    }
    for channel := 0 to 3
      invariant PartialImage(out[..], idct, coeffs, m, w, h, channel)
    {
      DecodeNextChannel(coeffs, out, w, h, channel, m, idct);
    }
    PartialImageComplete(out[..], idct, coeffs, m, w, h);
  }

  /** One iteration of decodeDCT's loop over the three channels. */
  method DecodeNextChannel(coeffs: seq<array3<real>>, out: array<bv32>, w: nat, h: nat, c: nat, m: int,
                           idct: Block -> Block)
    requires out.Length == w * h && Tiled(w, h) && CoeffsShaped(coeffs, w, h) && c < 3 && 0 <= m
    requires PartialImage(out[..], idct, coeffs, m, w, h, c)
    modifies out
    ensures PartialImage(out[..], idct, coeffs, m, w, h, c + 1)
  {
    ghost var before := out[..];
    DecodeDctChannel(coeffs[c], out, w, h, c, m, idct);
    PartialImageStep(out[..], before, idct, coeffs, m, w, h, c);
  }

  /** o holds the image decodeDCT builds once channels 0 .. c - 1 are written. */
  ghost predicate PartialImage(o: seq<bv32>, idct: Block -> Block, coeffs: seq<array3<real>>, m: int,
                               w: nat, h: nat, c: nat)
    requires Tiled(w, h) && CoeffsShaped(coeffs, w, h) && c <= 3
    reads coeffs
  {
    |o| == w * h && forall k :: 0 <= k < w * h ==> o[k] == PartialPixel(idct, coeffs, m, w, h, k, c)
  }

  lemma PartialImageComplete(o: seq<bv32>, idct: Block -> Block, coeffs: seq<array3<real>>, m: int, w: nat, h: nat)
    requires Tiled(w, h) && CoeffsShaped(coeffs, w, h) && PartialImage(o, idct, coeffs, m, w, h, 3)
    ensures IsDctFrame(o, idct, coeffs, m, w, h)
  {
    forall k | 0 <= k < w * h
      ensures o[k] == DecodedPixel(idct, coeffs, m, w, h, k)
    {
      PartialPixelComplete(idct, coeffs, m, w, h, k);
    }
  }

  lemma PartialImageStep(o: seq<bv32>, before: seq<bv32>, idct: Block -> Block, coeffs: seq<array3<real>>,
                         m: int, w: nat, h: nat, c: nat)
    requires Tiled(w, h) && CoeffsShaped(coeffs, w, h) && c < 3
    requires PartialImage(before, idct, coeffs, m, w, h, c)
    requires ColumnsDecoded(o, before, idct, coeffs[c], m, w, h, c, w)
    ensures PartialImage(o, idct, coeffs, m, w, h, c + 1)
  {
    forall k | 0 <= k < w * h
      ensures o[k] == PartialPixel(idct, coeffs, m, w, h, k, c + 1)
    {
      AllColumnsDecoded(o, before, idct, coeffs[c], m, w, h, c, w, k);
    }
  }

  // Round trip.

  /** The block holding a pixel of a tiled image has its origin on the block grid. */
  lemma BlockOfPixel(X: int, w: nat)
    requires 0 <= X < w && w % 8 == 0
    ensures 8 * (X / 8) + 8 <= w && 8 * (X / 8) + X % 8 == X && (8 * (X / 8)) % 8 == 0
  {
  }

  /** When the inverse transform undoes the forward one and every block keeps all 64
      coefficients, the colour decodeDCT writes into channel c of a pixel is the colour
      encodeDCT read from it. */
  lemma DctRoundTripColor(dct: Block -> Block, idct: Block -> Block, img: seq<bv32>, w: nat, h: nat,
                          a: array3<real>, c: int, m: int, k: int)
    requires |img| == w * h && Tiled(w, h) && ChannelShaped(a, w, h)
    requires EncodesChannel(a, dct, img, w, h, c)
    requires forall b: Block :: idct(dct(b)) == b
    requires m >= 64 && 0 <= k < w * h
    ensures DecodedColorAt(idct, a, m, w, h, k) == Color(img[k], c)
  {
    PixelOfIndex(k, w, h);
    var X, Y := k % w, k / w;
    BlockOfPixel(X, w);
    BlockOfPixel(Y, h);
    var i, j := 8 * (X / 8), 8 * (Y / 8);
    var s := SampleBlock(img, w, h, c, i, j);
    assert BlockCoeffs(a, X / 8, Y / 8) == Flatten(dct(s));
    UnflattenFlatten(dct(s));
    TruncatedBounds(dct(s), m);
    assert idct(dct(s)) == s;
    assert s[X % 8][Y % 8] == Sample(Color(img[PixelIndex(X, Y, w)], c));
    ColorOfSample(Color(img[k], c));
  }

  /** Decoding the encoding of an image with all 64 coefficients per block and exact transforms
      gives back every pixel as getRGB reports it. */
  lemma DctRoundTrip(dct: Block -> Block, idct: Block -> Block, img: seq<bv32>, w: nat, h: nat,
                     coeffs: seq<array3<real>>, m: int, k: int)
    requires |img| == w * h && Tiled(w, h) && CoeffsShaped(coeffs, w, h)
    requires forall c :: 0 <= c < 3 ==> EncodesChannel(coeffs[c], dct, img, w, h, c)
    requires forall b: Block :: idct(dct(b)) == b
    requires m >= 64 && 0 <= k < w * h
    ensures DecodedPixel(idct, coeffs, m, w, h, k) == Stored(img[k])
  {
    DctRoundTripColor(dct, idct, img, w, h, coeffs[0], 0, m, k);
    DctRoundTripColor(dct, idct, img, w, h, coeffs[1], 1, m, k);
    DctRoundTripColor(dct, idct, img, w, h, coeffs[2], 2, m, k);
    DecodedOfColors(img[k]);
  }
}

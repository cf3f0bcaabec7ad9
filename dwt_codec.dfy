/** The DWT codec (utils/ImageUtils.java, encodeDWT and decodeDWT).

    encodeDWT copies each colour channel of the image into a plane of doubles, data[row][column],
    and runs the Haar pyramid over it; decodeDWT copies each stored plane, zeroes all but a
    top-left corner when the budget is below the pixel count, runs the inverse pyramid and
    writes the rounded, clamped samples into a new image channel by channel. The value-level
    functions take the Haar scale s as a parameter; the methods use the source's constant. */
module DwtCodec {
  import opened Pixels
  import opened Samples
  import opened Images
  import opened Haar
  import opened Dwt
  import opened WaveletBudget

  /** Channel c of the image as the plane encodeDWT fills: channelData[j][i] is the colour of
      the pixel at column i, row j. */
  function ChannelPlane(img: seq<bv32>, w: nat, h: nat, c: int): (g: seq<seq<real>>)
    requires |img| == w * h
    ensures |g| == h && Rect(g, w)
  {
    seq(h, j requires 0 <= j < h =>
      seq(w, i requires 0 <= i < w =>
        PixelIndexInImage(i, j, w, h);
        Sample(Color(img[PixelIndex(i, j, w)], c))))
  }

  /** The plane encodeDWT stores for channel c: the forward pyramid over the channel's
      samples. */
  function EncodedPlane(s: real, img: seq<bv32>, w: nat, h: nat, c: int): (g: seq<seq<real>>)
    requires |img| == w * h
    ensures |g| == h && Rect(g, w)
  {
    ForwardFrom(ChannelPlane(img, w, h, c), w, h, w, s)
  }

  /** The budgets decodeDWT accepts on a w x h plane: a budget below the pixel count goes
      through applyWaveletThreshold, which divides by floor(sqrt(n)) (so n must be at least 1)
      and, when it zeroes a level, walks the 512 x 512 corner. */
  predicate BudgetFits(n: int, w: nat, h: nat) {
    n < w * h ==> n >= 1 && (Levels(n) >= 1 ==> Side <= w && Side <= h)
  }

  /** The plane decodeDWT transforms back for budget n: the stored plane, with every cell
      outside the top-left CornerSize(n) corner zeroed when n is below the pixel count
      pixels, and untouched otherwise. */
  function Budgeted(g: seq<seq<real>>, w: nat, n: int, pixels: int): (r: seq<seq<real>>)
    requires Rect(g, w) && (n < pixels ==> n >= 1)
    ensures |r| == |g| && Rect(r, w)
  {
    if n < pixels then KeepCorner(g, w, CornerSize(n)) else g
  }

  /** The colour of array index k of an image of width w read from plane g: g[k / w][k % w],
      rounded and clamped. */
  function PlaneColorAt(g: seq<seq<real>>, w: nat, h: nat, k: int): bv8
    requires |g| == h && Rect(g, w) && 0 <= k < w * h
  {
    PixelOfIndex(k, w, h);
    ColorOf(g[k / w][k % w])
  }

  /** The colour decodeDWT writes at array index k for the stored plane g and budget n. */
  function DwtColorAt(s: real, g: seq<seq<real>>, w: nat, h: nat, n: int, k: int): bv8
    requires |g| == h && Rect(g, w) && BudgetFits(n, w, h) && 0 <= k < w * h
  {
    PlaneColorAt(InverseFrom(Budgeted(g, w, n, w * h), w, 2, 2, s), w, h, k)
  }

  /** Pixel k of the image decodeDWT returns for the three stored planes. */
  function DwtPixelAt(s: real, planes: seq<seq<seq<real>>>, w: nat, h: nat, n: int, k: int): bv32
    requires PlanesFit(planes, w, h) && BudgetFits(n, w, h) && 0 <= k < w * h
  {
    Decoded(DwtColorAt(s, planes[0], w, h, n, k),
            DwtColorAt(s, planes[1], w, h, n, k),
            DwtColorAt(s, planes[2], w, h, n, k))
  }

  /** The three stored planes have h rows of w columns. */
  predicate PlanesFit(planes: seq<seq<seq<real>>>, w: nat, h: nat) {
    |planes| == 3 && forall c :: 0 <= c < 3 ==> |planes[c]| == h && Rect(planes[c], w)
  }

  /** f holds the pixels of the image decodeDWT returns for budget n. */
  predicate IsDwtFrame(f: seq<bv32>, s: real, planes: seq<seq<seq<real>>>, w: nat, h: nat, n: int)
    requires PlanesFit(planes, w, h) && BudgetFits(n, w, h)
  {
    |f| == w * h && forall k :: 0 <= k < w * h ==> f[k] == DwtPixelAt(s, planes, w, h, n, k)
  }

  /** Every positive budget fits a plane of at least 512 x 512. */
  lemma PositiveBudgetFits(n: int, w: nat, h: nat)
    requires n >= 1 && Side <= w && Side <= h
    ensures BudgetFits(n, w, h)
  {
  }

  /** The stored coefficient arrays as values. */
  function PlanesOf(coeffs: seq<array2<real>>): (ps: seq<seq<seq<real>>>)
    reads coeffs
    ensures |ps| == |coeffs|
    ensures forall c :: 0 <= c < |coeffs| ==> ps[c] == GridOf(coeffs[c])
  {
    seq(|coeffs|, c requires 0 <= c < |coeffs| reads coeffs => GridOf(coeffs[c]))
  }

  /** The list encodeDWT returns: three planes of h rows of w columns. */
  predicate PlanesShaped(coeffs: seq<array2<real>>, w: nat, h: nat) {
    |coeffs| == 3 && forall c :: 0 <= c < 3 ==> coeffs[c].Length0 == h && coeffs[c].Length1 == w
  }

  // Encoding.

  /** encodeDWT's copy loop for channel c: over the columns i and, in each, the rows j. */
  method ChannelData(img: array<bv32>, w: nat, h: nat, c: int) returns (a: array2<real>)
    requires img.Length == w * h
    ensures fresh(a) && a.Length0 == h && a.Length1 == w
    ensures GridOf(a) == ChannelPlane(img[..], w, h, c)
  {
    ghost var p := ChannelPlane(img[..], w, h, c);
    a := new real[h, w];
    for i := 0 to w
      invariant forall j, i' :: 0 <= j < h && 0 <= i' < i ==> a[j, i'] == p[j][i']
    {
      for j := 0 to h
        invariant forall j', i' :: 0 <= j' < h && 0 <= i' < i ==> a[j', i'] == p[j'][i']
        invariant forall j' :: 0 <= j' < j ==> a[j', i] == p[j'][i]
      {
        PixelIndexInImage(i, j, w, h);
        var pixel := img[PixelIndex(i, j, w)];
        var color := Color(pixel, c);
        a[j, i] := Sample(color);
      }
    }
    GridOfCells(a, p);
  }

  /** encodeDWT: for each colour channel, red, green and blue, a new plane of the channel's
      samples run through forwardDWT. A plane without rows is refused, as forwardDWT reads
      the length of its first row. */
  method EncodeDwt(img: array<bv32>, w: nat, h: nat) returns (coeffs: seq<array2<real>>)
    requires img.Length == w * h && h >= 1
    ensures PlanesShaped(coeffs, w, h)
    ensures forall c :: 0 <= c < 3 ==> fresh(coeffs[c]) && GridOf(coeffs[c]) == EncodedPlane(HaarScale, img[..], w, h, c)
  {
    coeffs := [];
    for channel := 0 to 3
      invariant |coeffs| == channel
      invariant forall c :: 0 <= c < channel ==>
        fresh(coeffs[c]) && coeffs[c].Length0 == h && coeffs[c].Length1 == w &&
        GridOf(coeffs[c]) == EncodedPlane(HaarScale, img[..], w, h, c)
    {
      var channelData := ChannelData(img, w, h, channel);
      ForwardDwt(channelData);
      coeffs := coeffs + [channelData];
    }
  }

  // Decoding.

  /** decodeDWT's copy of a stored plane into a new one, row by row. */
  method CopyPlane(a: array2<real>) returns (b: array2<real>)
    ensures fresh(b) && b.Length0 == a.Length0 && b.Length1 == a.Length1
    ensures GridOf(b) == GridOf(a)
  {
    b := new real[a.Length0, a.Length1];
    for i := 0 to a.Length0
      invariant forall i', j :: 0 <= i' < i && 0 <= j < a.Length1 ==> b[i', j] == a[i', j]
    {
      forall j | 0 <= j < a.Length1 {
        b[i, j] := a[i, j];
      }
    }
    GridOfCells(b, GridOf(a));
  }

  /** decodeDWT's write loop for column i: each pixel of the column is read, its channel c
      replaced with the clamped sample coefficients[row][i], and stored. */
  method WriteColumn(d: array2<real>, out: array<bv32>, w: nat, h: nat, c: int, i: int)
    requires d.Length0 == h && d.Length1 == w && out.Length == w * h && 0 <= i < w
    modifies out
    ensures forall k :: 0 <= k < w * h ==>
      out[k] == if k % w == i then Stored(SetColor(old(out[k]), c, PlaneColorAt(GridOf(d), w, h, k)))
        else old(out[k])
  {
    forall k | 0 <= k < w * h
      ensures 0 <= k % w < w && 0 <= k / w < h && PixelIndex(k % w, k / w, w) == k
    {
      PixelOfIndex(k, w, h);
    }
    for j := 0 to h
      invariant forall k :: 0 <= k < w * h ==>
        out[k] == if k % w == i && k / w < j then Stored(SetColor(old(out[k]), c, PlaneColorAt(GridOf(d), w, h, k)))
          else old(out[k])
    {
      PixelIndexInImage(i, j, w, h);
      PixelIndexCoords(i, j, w);
      var pixel := out[PixelIndex(i, j, w)];
      var color := ColorOf(d[j, i]);
      pixel := SetColor(pixel, c, color);
      out[PixelIndex(i, j, w)] := Stored(pixel);
    }
  }

  /** decodeDWT's write loop: columns from left to right, each from top to bottom. */
  method WritePlane(d: array2<real>, out: array<bv32>, w: nat, h: nat, c: int)
    requires d.Length0 == h && d.Length1 == w && out.Length == w * h
    modifies out
    ensures forall k :: 0 <= k < w * h ==>
      out[k] == Stored(SetColor(old(out[k]), c, PlaneColorAt(GridOf(d), w, h, k)))
  {
    forall k | 0 <= k < w * h
      ensures 0 <= k % w < w
    {
      PixelOfIndex(k, w, h);
    }
    for i := 0 to w
      invariant forall k :: 0 <= k < w * h ==>
        out[k] == if k % w < i then Stored(SetColor(old(out[k]), c, PlaneColorAt(GridOf(d), w, h, k)))
          else old(out[k])
    {
      WriteColumn(d, out, w, h, c, i);
    }
  }

  /** One channel of decodeDWT: copy the stored plane, keep the budget's corner when n is below
      the pixel count, run inverseDWTTransform and write the samples into channel c. The stored
      plane is only read. */
  method DecodeDwtChannel(a: array2<real>, out: array<bv32>, w: nat, h: nat, c: int, n: int)
    requires a.Length0 == h && a.Length1 == w && out.Length == w * h
    requires BudgetFits(n, w, h)
    modifies out
    ensures forall k :: 0 <= k < w * h ==>
      out[k] == Stored(SetColor(old(out[k]), c, DwtColorAt(HaarScale, GridOf(a), w, h, n, k)))
  {
    var coefficients := CopyPlane(a);
    if n < w * h {
      ApplyWaveletThreshold(coefficients, n);
    }
    assert GridOf(coefficients) == Budgeted(GridOf(a), w, n, w * h);
    InverseDwt(coefficients);
    WritePlane(coefficients, out, w, h, c);
  }

  /** decodeDWT: a new image whose channels are decoded one after the other. The stored planes
      are not modified, so a later decode with another budget starts from the same
      coefficients. */
  method DecodeDwt(coeffs: seq<array2<real>>, w: nat, h: nat, n: int) returns (out: array<bv32>)
    requires PlanesShaped(coeffs, w, h) && BudgetFits(n, w, h)
    ensures fresh(out) && out.Length == w * h
    ensures forall k :: 0 <= k < w * h ==> out[k] == DwtPixelAt(HaarScale, PlanesOf(coeffs), w, h, n, k)
  {
    ghost var planes := PlanesOf(coeffs);
    out := NewImage(w, h);
    label Start:
    DecodeDwtChannel(coeffs[0], out, w, h, 0, n);
    label Red:
    DecodeDwtChannel(coeffs[1], out, w, h, 1, n);
    label Green:
    DecodeDwtChannel(coeffs[2], out, w, h, 2, n);
    forall k | 0 <= k < w * h
      ensures out[k] == DwtPixelAt(HaarScale, planes, w, h, n, k)
    {
      assert old@Start(out[k]) == Opaque;
    }
  }

  // Properties.

  /** A budget of at least the pixel count decodes the stored planes untouched; a smaller one
      sees only the coefficients in the top-left CornerSize(n) corner: planes that agree there
      decode alike. */
  lemma BudgetedCorner(g: seq<seq<real>>, g': seq<seq<real>>, w: nat, n: int, pixels: int)
    requires Rect(g, w) && Rect(g', w) && |g| == |g'| && (n < pixels ==> n >= 1)
    requires n >= pixels ==> g == g'
    requires n < pixels ==> forall i, j :: 0 <= i < |g| && 0 <= j < w && i < CornerSize(n) && j < CornerSize(n) ==>
      g[i][j] == g'[i][j]
    ensures Budgeted(g, w, n, pixels) == Budgeted(g', w, n, pixels)
    ensures n >= pixels ==> Budgeted(g, w, n, pixels) == g
  {
    if n < pixels {
      var r, r' := Budgeted(g, w, n, pixels), Budgeted(g', w, n, pixels);
      forall i | 0 <= i < |g|
        ensures r[i] == r'[i]
      {
      }
    }
  }

  /** With an exact scale and a budget of at least the pixel count, decodeDWT gives back the
      colour of channel c that encodeDWT read, on a square plane whose side is a power of two. */
  lemma {:induction false} DwtRoundTripColor(s: real, img: seq<bv32>, e: nat, c: int, n: int, k: int)
    requires |img| == Pow2(e) * Pow2(e) && ExactHaarScale(s)
    requires n >= Pow2(e) * Pow2(e) && 0 <= k < Pow2(e) * Pow2(e)
    ensures DwtColorAt(s, EncodedPlane(s, img, Pow2(e), Pow2(e), c), Pow2(e), Pow2(e), n, k) == Color(img[k], c)
  {
    var side := Pow2(e);
    var p := ChannelPlane(img, side, side, c);
    DwtRoundTrip(p, e, s);
    PixelOfIndex(k, side, side);
    assert p[k / side][k % side] == Sample(Color(img[k], c));
    ColorOfSample(Color(img[k], c));
  }

  /** With an exact scale and a budget of at least the pixel count, decoding the encoding of a
      square image whose side is a power of two (such as 512) gives back every pixel as getRGB
      reports it. */
  lemma DwtRoundTripPixel(s: real, img: seq<bv32>, e: nat, n: int, k: int)
    requires |img| == Pow2(e) * Pow2(e) && ExactHaarScale(s)
    requires n >= Pow2(e) * Pow2(e) && 0 <= k < Pow2(e) * Pow2(e)
    ensures var side := Pow2(e);
      DwtPixelAt(s, [EncodedPlane(s, img, side, side, 0), EncodedPlane(s, img, side, side, 1),
                     EncodedPlane(s, img, side, side, 2)], side, side, n, k) == Stored(img[k])
  {
    DwtRoundTripColor(s, img, e, 0, n, k);
    DwtRoundTripColor(s, img, e, 1, n, k);
    DwtRoundTripColor(s, img, e, 2, n, k);
    DecodedOfColors(img[k]);
  }
}

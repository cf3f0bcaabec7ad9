/** Images of the codec (utils/ImageUtils.java): a w x h BufferedImage of type TYPE_INT_RGB,
    held as the array of its pixels row by row, and readImageRGB, which fills one from a file
    of three planes of w * h bytes. */
module Images {
  import opened Pixels

  datatype Option<T> = None | Some(value: T)

  /** Index of the pixel at column x, row y in an image of width w. */
  function PixelIndex(x: int, y: int, w: int): int {
    y * w + x
  }

  /** A pixel inside the image has an index inside the array. */
  lemma PixelIndexInImage(x: int, y: int, w: int, h: int)
    requires 0 <= x < w && 0 <= y < h
    ensures 0 <= PixelIndex(x, y, w) < w * h
  {
    assert y * w <= (h - 1) * w by {
      assert y <= h - 1;
    }
  }

  lemma MulAtLeast(d: int, w: int)
    requires d >= 1 && w > 0
    ensures d * w >= w
  {
  }

  /** Pixel index y * w + x gives back its column as the remainder and its row as the quotient
      by w. */
  lemma PixelIndexCoords(x: int, y: int, w: int)
    requires 0 <= x < w && 0 <= y
    ensures PixelIndex(x, y, w) % w == x && PixelIndex(x, y, w) / w == y
  {
    var k := y * w + x;
    var q, r := k / w, k % w;
    assert k == q * w + r;
    assert (q - y) * w == x - r;
    if q - y >= 1 {
      MulAtLeast(q - y, w);
    } else if y - q >= 1 {
      assert (y - q) * w == r - x;
      MulAtLeast(y - q, w);
    }
  }

  /** Array index k of an image of width w holds the pixel at column k % w, row k / w. */
  lemma PixelOfIndex(k: int, w: nat, h: nat)
    requires 0 <= k < w * h
    ensures 0 <= k % w < w && 0 <= k / w < h && PixelIndex(k % w, k / w, w) == k
  {
    assert w > 0;
  }

  lemma RowStartInImage(y: int, w: nat, h: int)
    requires 0 <= y <= h
    ensures 0 <= y * w <= w * h && (y + 1) * w == y * w + w
  {
  }

  /** new BufferedImage(w, h, TYPE_INT_RGB): every pixel reads as opaque black. */
  method NewImage(w: nat, h: nat) returns (img: array<bv32>)
    ensures fresh(img)
    ensures img.Length == w * h
    ensures forall k :: 0 <= k < img.Length ==> img[k] == Opaque
  {
    img := new bv32[w * h](_ => Opaque);
  }

  /** The byte buffer readImageRGB fills: the first n bytes of the file, and zero after the
      file's end when the file is shorter. */
  function FrameBytes(file: seq<bv8>, n: nat): (bytes: seq<bv8>)
    ensures |bytes| == n
    ensures forall i :: 0 <= i < n && i < |file| ==> bytes[i] == file[i]
    ensures forall i :: |file| <= i < n ==> bytes[i] == 0
  {
    seq(n, i requires 0 <= i < n => if i < |file| then file[i] else 0)
  }

  /** The pixel readImageRGB builds from the three planes of w * h bytes each. */
  function PlanarPixel(bytes: seq<bv8>, k: nat, w: nat, h: nat): bv32
    requires k + 2 * (w * h) < |bytes|
  {
    PackRgb(bytes[k], bytes[k + w * h], bytes[k + 2 * (w * h)])
  }

  /** Pixel k of an image read from planar bytes is opaque, and its red, green and blue
      colours are byte k of the first, second and third plane. */
  lemma PlanarPixelChannels(bytes: seq<bv8>, k: nat, w: nat, h: nat)
    requires k + 2 * (w * h) < |bytes|
    ensures Stored(PlanarPixel(bytes, k, w, h)) == PlanarPixel(bytes, k, w, h)
    ensures Color(PlanarPixel(bytes, k, w, h), 0) == bytes[k]
    ensures Color(PlanarPixel(bytes, k, w, h), 1) == bytes[k + w * h]
    ensures Color(PlanarPixel(bytes, k, w, h), 2) == bytes[k + 2 * (w * h)]
  {
    PackRgbChannels(bytes[k], bytes[k + w * h], bytes[k + 2 * (w * h)]);
  }

  /** readImageRGB's loop over the byte buffer: the pixel at column x, row y is built from the
      bytes at index y * w + x of the three planes. */
  method FillFromPlanes(w: nat, h: nat, bytes: seq<bv8>, img: array<bv32>)
    requires |bytes| == 3 * (w * h) && img.Length == w * h
    modifies img
    ensures forall k :: 0 <= k < w * h ==> img[k] == PlanarPixel(bytes, k, w, h)
  {
    assert h * w == w * h && h * w * 2 == 2 * (w * h);
    var ind := 0;
    for y := 0 to h
      invariant ind == y * w <= w * h
      invariant forall k :: 0 <= k < ind ==> img[k] == PlanarPixel(bytes, k, w, h)
    {
      RowStartInImage(y, w, h);
      RowStartInImage(y + 1, w, h);
      for x := 0 to w
        invariant ind == PixelIndex(x, y, w) <= w * h
        invariant forall k :: 0 <= k < ind ==> img[k] == PlanarPixel(bytes, k, w, h)
      {
        PixelIndexInImage(x, y, w, h);
        var r := bytes[ind];
        var g := bytes[ind + h * w];
        var b := bytes[ind + h * w * 2];
        var pix := PackRgb(r, g, b);
        PlanarPixelChannels(bytes, ind, w, h);
        img[PixelIndex(x, y, w)] := Stored(pix);
        ind := ind + 1;
      }
    }
  }

  /** readImageRGB: a file that cannot be opened (None) leaves the image as it was and reports
      failure ("Image couldn't be read."); otherwise the first 3 * w * h bytes of the file, or
      the whole file followed by zeros when it is shorter, become the image. */
  method ReadImageRgb(w: nat, h: nat, file: Option<seq<bv8>>, img: array<bv32>) returns (ok: bool)
    requires img.Length == w * h
    modifies img
    ensures ok <==> file.Some?
    ensures !ok ==> img[..] == old(img[..])
    ensures ok ==> forall k :: 0 <= k < w * h ==>
      img[k] == PlanarPixel(FrameBytes(file.value, 3 * (w * h)), k, w, h)
  {
    if file.None? {
      return false;
    }
    var bytes := FrameBytes(file.value, 3 * (w * h));
    FillFromPlanes(w, h, bytes, img);
    return true;
  }
}

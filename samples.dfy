/** Samples and colours (utils/ImageUtils.java): the encoders turn a colour into a double
    sample, and the decoders turn a reconstructed sample back into a colour with
    Math.min(255, Math.max(0, (int) Math.round(v))). */
module Samples {

  /** A colour as the double sample the encoders store: block[x][y] = color. */
  function Sample(v: bv8): real {
    (v as int) as real
  }

  const LongMin: int := -0x8000_0000_0000_0000
  const LongMax: int := 0x7FFF_FFFF_FFFF_FFFF

  /** Math.round(double): the integer nearest to x, ties toward positive infinity, saturated
      to the range of long. */
  function RoundToLong(x: real): (r: int)
    ensures LongMin <= r <= LongMax
    ensures LongMin as real - 0.5 <= x < LongMax as real + 0.5 ==> r as real - 0.5 <= x < r as real + 0.5
    ensures x >= LongMax as real - 0.5 ==> r == LongMax
    ensures x < LongMin as real + 0.5 ==> r == LongMin
  {
    var f := (x + 0.5).Floor;
    if f < LongMin then LongMin else if f > LongMax then LongMax else f
  }

  /** The (int) cast of a long: the low 32 bits, read as two's complement. */
  function ToInt32(v: int): (r: int)
    ensures -0x8000_0000 <= r < 0x8000_0000
    ensures (v - r) % 0x1_0000_0000 == 0
    ensures -0x8000_0000 <= v < 0x8000_0000 ==> r == v
  {
    (v + 0x8000_0000) % 0x1_0000_0000 - 0x8000_0000
  }

  /** The colour value the decoders compute for a reconstructed sample x. */
  function ClampColor(x: real): (v: int)
    ensures 0 <= v < 256
  {
    var r := ToInt32(RoundToLong(x));
    if r < 0 then 0 else if r > 255 then 255 else r
  }

  /** The colour the decoders write for a reconstructed sample x. */
  function ColorOf(x: real): bv8 {
    ClampColor(x) as bv8
  }

  /** Within the range of int the clamp is the nearest integer forced into [0, 255]: below
      -0.5 it is 0, from 254.5 up it is 255, and in between it is the nearest integer. */
  lemma ClampColorInRange(x: real)
    requires -2147483648.0 <= x < 2147483647.0
    ensures x < -0.5 ==> ClampColor(x) == 0
    ensures x >= 254.5 ==> ClampColor(x) == 255
    ensures -0.5 <= x < 254.5 ==> ClampColor(x) as real - 0.5 <= x < ClampColor(x) as real + 0.5
  {
  }

  /** A colour turned into a sample and back is the same colour. */
  lemma ColorOfSample(v: bv8)
    ensures ColorOf(Sample(v)) == v
  {
    var i := v as int;
    assert (i as real + 0.5).Floor == i;
    assert ClampColor(Sample(v)) == i;
  }

  /** Outside the range of int the cast wraps before the clamp: a sample of 2^32 + 100
      becomes colour 100, not 255. */
  lemma ClampColorWraps()
    ensures ClampColor(4294967396.0) == 100
  {
    assert RoundToLong(4294967396.0) == 4294967396;
  }
}

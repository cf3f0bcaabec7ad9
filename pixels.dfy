/** Pixel words of the codec's images (utils/ImageUtils.java): packing bytes into an RGB word,
    extracting one 8-bit channel and overwriting it.

    A pixel is the 32-bit word that BufferedImage.getRGB reports. The codec's images are of
    type TYPE_INT_RGB, which stores no alpha: getRGB reports the alpha byte as 0xFF, so a new
    image reads 0xFF000000 everywhere and setRGB(p) reads back as p | 0xFF000000. A colour is
    the 8-bit value of one channel, which the source holds in an int between 0 and 255. */
module Pixels {

  const Opaque: bv32 := 0xFF00_0000

  /** Channel 0 is red (bits 16..23), 1 is green (bits 8..15), 2 is blue (bits 0..7). */
  predicate IsChannel(c: int) {
    0 <= c < 3
  }

  /** The colour the encoders extract from pixel p for channel c: (p >> 16) & 0xFF,
      (p >> 8) & 0xFF or p & 0xFF. */
  function Color(p: bv32, c: int): bv8 {
    if c == 0 then ((p >> 16) & 0xFF) as bv8
    else if c == 1 then ((p >> 8) & 0xFF) as bv8
    else (p & 0xFF) as bv8
  }

  /** The decoders' update of channel c of pixel p to colour v: (p & mask) | (v << shift). */
  function SetColor(p: bv32, c: int, v: bv8): bv32 {
    var b := v as bv32;
    if c == 0 then (p & 0xFF00_FFFF) | (b << 16)
    else if c == 1 then (p & 0xFFFF_00FF) | (b << 8)
    else (p & 0xFFFF_FF00) | b
  }

  /** Writing the red channel changes that byte only, and extracting it reads the colour back. */
  lemma SetRedChangesRedOnly(p: bv32, v: bv8)
    ensures Color(SetColor(p, 0, v), 0) == v
    ensures Color(SetColor(p, 0, v), 1) == Color(p, 1)
    ensures Color(SetColor(p, 0, v), 2) == Color(p, 2)
  {
  }

  /** Writing the green channel changes that byte only, and extracting it reads the colour
      back. */
  lemma SetGreenChangesGreenOnly(p: bv32, v: bv8)
    ensures Color(SetColor(p, 1, v), 0) == Color(p, 0)
    ensures Color(SetColor(p, 1, v), 1) == v
    ensures Color(SetColor(p, 1, v), 2) == Color(p, 2)
  {
  }

  /** Writing the blue channel changes that byte only, and extracting it reads the colour
      back. */
  lemma SetBlueChangesBlueOnly(p: bv32, v: bv8)
    ensures Color(SetColor(p, 2, v), 0) == Color(p, 0)
    ensures Color(SetColor(p, 2, v), 1) == Color(p, 1)
    ensures Color(SetColor(p, 2, v), 2) == v
  {
  }

  /** What getRGB reports after setRGB(p) on an image that stores no alpha. */
  function Stored(p: bv32): bv32 {
    p | Opaque
  }

  /** Storing sets the alpha byte and keeps the three colours. */
  lemma StoredKeepsColors(p: bv32)
    ensures Stored(p) & Opaque == Opaque
    ensures Color(Stored(p), 0) == Color(p, 0)
    ensures Color(Stored(p), 1) == Color(p, 1)
    ensures Color(Stored(p), 2) == Color(p, 2)
  {
  }

  /** Storing a word whose alpha byte is already set changes nothing. */
  lemma StoredOpaque(p: bv32)
    requires p & Opaque == Opaque
    ensures Stored(p) == p
  {
  }

  /** readImageRGB: 0xff000000 | ((r & 0xff) << 16) | ((g & 0xff) << 8) | (b & 0xff). */
  function PackRgb(r: bv8, g: bv8, b: bv8): bv32 {
    Opaque | ((r as bv32) << 16) | ((g as bv32) << 8) | (b as bv32)
  }

  /** The packed word is opaque, so storing it keeps it, and its three channels are the three
      bytes. */
  lemma PackRgbChannels(r: bv8, g: bv8, b: bv8)
    ensures Stored(PackRgb(r, g, b)) == PackRgb(r, g, b)
    ensures Color(PackRgb(r, g, b), 0) == r
    ensures Color(PackRgb(r, g, b), 1) == g
    ensures Color(PackRgb(r, g, b), 2) == b
  {
  }

  /** A decoded pixel: a new image's pixel with the three channels written and stored in the
      decoders' order 0, 1, 2. */
  function Decoded(v0: bv8, v1: bv8, v2: bv8): bv32 {
    Stored(SetColor(Stored(SetColor(Stored(SetColor(Opaque, 0, v0)), 1, v1)), 2, v2))
  }

  /** A decoded pixel is opaque and its colours are the ones written. */
  lemma DecodedColors(v0: bv8, v1: bv8, v2: bv8)
    ensures Decoded(v0, v1, v2) & Opaque == Opaque
    ensures Color(Decoded(v0, v1, v2), 0) == v0
    ensures Color(Decoded(v0, v1, v2), 1) == v1
    ensures Color(Decoded(v0, v1, v2), 2) == v2
  {
    var a := SetColor(Opaque, 0, v0);
    SetRedChangesRedOnly(Opaque, v0);
    StoredKeepsColors(a);
    var b := SetColor(Stored(a), 1, v1);
    SetGreenChangesGreenOnly(Stored(a), v1);
    StoredKeepsColors(b);
    var d := SetColor(Stored(b), 2, v2);
    SetBlueChangesBlueOnly(Stored(b), v2);
    StoredKeepsColors(d);
  }

  /** Two words with the same alpha byte and the same three colours are equal. */
  lemma SameColors(p: bv32, q: bv32)
    requires p & Opaque == q & Opaque
    requires Color(p, 0) == Color(q, 0) && Color(p, 1) == Color(q, 1) && Color(p, 2) == Color(q, 2)
    ensures p == q
  {
  }

  /** Decoding the three colours extracted from a pixel rebuilds that pixel as getRGB reports
      it. */
  lemma DecodedOfColors(p: bv32)
    ensures Decoded(Color(p, 0), Color(p, 1), Color(p, 2)) == Stored(p)
  {
    DecodedColors(Color(p, 0), Color(p, 1), Color(p, 2));
    StoredKeepsColors(p);
    SameColors(Decoded(Color(p, 0), Color(p, 1), Color(p, 2)), Stored(p));
  }
}

/** One level of the Haar wavelet on a row of samples (utils/ImageUtils.java, transformRow and
    inverseTransformRow): scaled pairwise sums go to the first half of the row and scaled
    pairwise differences to the second half.

    The value-level functions take the scale s as a parameter. The methods use the source's
    constant 0.7071067811865476; the round-trip lemmas hold for an exact scale, 2 s^2 = 1, which
    that constant only approximates. */
module Haar {

  /** The source's scale, an approximation of 1 / sqrt(2). */
  const HaarScale: real := 0.7071067811865476

  /** s is 1 / sqrt(2) exactly. */
  predicate ExactHaarScale(s: real) {
    2.0 * s * s == 1.0
  }

  lemma MulOne(c: real, x: real)
    requires c == 1.0
    ensures c * x == x
  {
  }

  /** Entries 2i and 2i + 1 are the even and the odd entry of pair i. */
  lemma PairIndex(i: int)
    ensures (2 * i) / 2 == i && (2 * i) % 2 == 0 && (2 * i + 1) / 2 == i && (2 * i + 1) % 2 == 1
  {
  }

  /** transformRow(v, len) as a value: entry i < len / 2 is (v[2i] + v[2i + 1]) * s, entry
      len / 2 + i is (v[2i] - v[2i + 1]) * s, an odd row's last entry becomes 0 and entries
      from len on are left alone. */
  function HaarForward(v: seq<real>, len: nat, s: real): (r: seq<real>)
    requires len <= |v|
    ensures |r| == |v|
  {
    var half := len / 2;
    seq(|v|, k requires 0 <= k < |v| =>
      if k < half then (v[2 * k] + v[2 * k + 1]) * s
      else if k < 2 * half then (v[2 * (k - half)] - v[2 * (k - half) + 1]) * s
      else if k < len then 0.0
      else v[k])
  }

  /** inverseTransformRow(v, len) as a value: entries 2i and 2i + 1 are v[i] * s + v[half + i] * s
      and v[i] * s - v[half + i] * s with half = len / 2, an odd row's last entry becomes 0 and
      entries from len on are left alone. */
  function HaarInverse(v: seq<real>, len: nat, s: real): (r: seq<real>)
    requires len <= |v|
    ensures |r| == |v|
  {
    var half := len / 2;
    seq(|v|, k requires 0 <= k < |v| =>
      if k < 2 * half then
        (if k % 2 == 0 then v[k / 2] * s + v[half + k / 2] * s
         else v[k / 2] * s - v[half + k / 2] * s)
      else if k < len then 0.0
      else v[k])
  }

  /** Scaling the sum and the difference of a pair twice and adding or subtracting them gives
      the pair scaled by 2 s^2. */
  lemma PairInverseForward(a: real, b: real, s: real)
    ensures (a + b) * s * s + (a - b) * s * s == 2.0 * s * s * a
    ensures (a + b) * s * s - (a - b) * s * s == 2.0 * s * s * b
  {
    assert (a + b) * s * s == (a + b) * (s * s);
    assert (a - b) * s * s == (a - b) * (s * s);
  }

  /** Adding and subtracting a scaled pair and scaling again gives the pair back. */
  lemma PairForwardInverse(a: real, b: real, s: real)
    requires ExactHaarScale(s)
    ensures ((a * s + b * s) + (a * s - b * s)) * s == a
    ensures ((a * s + b * s) - (a * s - b * s)) * s == b
  {
    assert (a * s + b * s) + (a * s - b * s) == 2.0 * s * a;
    assert (a * s + b * s) - (a * s - b * s) == 2.0 * s * b;
    assert 2.0 * s * a * s == (2.0 * s * s) * a;
    assert 2.0 * s * b * s == (2.0 * s * s) * b;
  }

  /** The inverse step after the forward step scales a row of even length by 2 s^2 and leaves
      the entries from len on alone. */
  lemma {:induction false} HaarInverseForwardScales(v: seq<real>, len: nat, s: real)
    requires len <= |v| && len % 2 == 0
    ensures forall k :: 0 <= k < len ==> HaarInverse(HaarForward(v, len, s), len, s)[k] == 2.0 * s * s * v[k]
    ensures forall k :: len <= k < |v| ==> HaarInverse(HaarForward(v, len, s), len, s)[k] == v[k]
  {
    var f := HaarForward(v, len, s);
    var r := HaarInverse(f, len, s);
    var half := len / 2;
    assert len == 2 * half;
    forall k | 0 <= k < len
      ensures r[k] == 2.0 * s * s * v[k]
    {
      var i := k / 2;
      assert 0 <= i < half && (k == 2 * i || k == 2 * i + 1);
      PairIndex(i);
      var a, b := v[2 * i], v[2 * i + 1];
      assert f[i] == (a + b) * s;
      assert f[half + i] == (a - b) * s;
      PairInverseForward(a, b, s);
    }
  }

  /** With an exact scale, the inverse step undoes the forward step on a row of even length. */
  lemma {:induction false} HaarInverseForward(v: seq<real>, len: nat, s: real)
    requires len <= |v| && len % 2 == 0 && ExactHaarScale(s)
    ensures HaarInverse(HaarForward(v, len, s), len, s) == v
  {
    var f := HaarForward(v, len, s);
    var r := HaarInverse(f, len, s);
    var half := len / 2;
    assert len == 2 * half;
    forall k | 0 <= k < |v|
      ensures r[k] == v[k]
    {
      if k < len {
        var i := k / 2;
        assert 0 <= i < half && (k == 2 * i || k == 2 * i + 1);
        PairIndex(i);
        var a, b := v[2 * i], v[2 * i + 1];
        assert f[i] == (a + b) * s;
        assert f[half + i] == (a - b) * s;
        PairInverseForward(a, b, s);
        MulOne(2.0 * s * s, a);
        MulOne(2.0 * s * s, b);
      }
    }
    assert r == v;
  }

  /** With an exact scale, the forward step undoes the inverse step on a row of even length. */
  lemma {:induction false} HaarForwardInverse(v: seq<real>, len: nat, s: real)
    requires len <= |v| && len % 2 == 0 && ExactHaarScale(s)
    ensures HaarForward(HaarInverse(v, len, s), len, s) == v
  {
    var g := HaarInverse(v, len, s);
    var r := HaarForward(g, len, s);
    var half := len / 2;
    assert len == 2 * half;
    forall k | 0 <= k < |v|
      ensures r[k] == v[k]
    {
      if k < len {
        var i := if k < half then k else k - half;
        assert 0 <= i < half;
        PairIndex(i);
        var a, b := v[i], v[half + i];
        assert g[2 * i] == a * s + b * s;
        assert g[2 * i + 1] == a * s - b * s;
        PairForwardInverse(a, b, s);
      }
    }
    assert r == v;
  }

  /** On a row of odd length the forward step drops the last sample: two rows that differ only
      there transform alike. */
  lemma HaarForwardDropsOddTail(v: seq<real>, len: nat, s: real, x: real)
    requires 0 < len <= |v| && len % 2 == 1
    ensures HaarForward(v[len - 1 := x], len, s) == HaarForward(v, len, s)
  {
    var u := v[len - 1 := x];
    forall k | 0 <= k < |v|
      ensures HaarForward(u, len, s)[k] == HaarForward(v, len, s)[k]
    {
    }
  }

  /** The source's constant is not an exact scale, though 2 s^2 is within 10^-10 of 1. */
  lemma HaarScaleIsApproximate()
    ensures !ExactHaarScale(HaarScale)
    ensures 0.9999999999 < 2.0 * HaarScale * HaarScale < 1.0000000001
  {
  }

  /** transformRow: the scaled sums and differences are built in a new row of zeros, then the
      first length entries are copied back. */
  method TransformRow(data: array<real>, length: int)
    requires 0 <= length <= data.Length
    modifies data
    ensures data[..] == HaarForward(old(data[..]), length, HaarScale)
  {
    ghost var f := HaarForward(data[..], length, HaarScale);
    var temp := new real[length](_ => 0.0);
    var half := length / 2;
    for i := 0 to half
      modifies temp
      invariant forall k :: 0 <= k < length ==>
        temp[k] == if k < i || half <= k < half + i then f[k] else 0.0
    {
      var idx := i * 2;
      assert f[i] == (data[idx] + data[idx + 1]) * HaarScale;
      assert f[half + i] == (data[idx] - data[idx + 1]) * HaarScale;
      temp[i] := (data[idx] + data[idx + 1]) * HaarScale;
      temp[half + i] := (data[idx] - data[idx + 1]) * HaarScale;
    }
    forall k | 0 <= k < length {
      data[k] := temp[k];
    }
    assert forall k :: 0 <= k < data.Length ==> data[k] == f[k];
    assert data[..] == f;
  }

  /** inverseTransformRow: each pair is rebuilt from its scaled average and scaled difference in
      a new row of zeros, then the first length entries are copied back. */
  method InverseTransformRow(data: array<real>, length: int)
    requires 0 <= length <= data.Length
    modifies data
    ensures data[..] == HaarInverse(old(data[..]), length, HaarScale)
  {
    ghost var g := HaarInverse(data[..], length, HaarScale);
    var temp := new real[length](_ => 0.0);
    var half := length / 2;
    for i := 0 to half
      modifies temp
      invariant forall k :: 0 <= k < length ==> temp[k] == if k < 2 * i then g[k] else 0.0
    {
      var avg := data[i] * HaarScale;
      var diff := data[half + i] * HaarScale;
      PairIndex(i);
      assert g[2 * i] == avg + diff && g[2 * i + 1] == avg - diff;
      temp[i * 2] := avg + diff;
      temp[i * 2 + 1] := avg - diff;
    }
    forall k | 0 <= k < length {
      data[k] := temp[k];
    }
    assert forall k :: 0 <= k < data.Length ==> data[k] == g[k];
    assert data[..] == g;
  }
}

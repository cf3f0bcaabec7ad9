/** The progressive decoders (utils/ImageUtils.java, progressiveDCT, progressiveDWT and
    balancedProgressiveDCTandDWT): each decodes the stored coefficients again and again with a
    growing budget and shows every decoded image as one frame. A frame is modelled as the
    pixels of the decoded image at the moment it is handed to the window; the window, the
    console lines and the 200 ms pause between frames are not part of the model. */
module Progressive {
  import opened Pixels
  import opened DctBlocks
  import opened DctCodec
  import opened Haar
  import opened Dwt
  import opened WaveletBudget
  import opened DwtCodec

  // The schedules.

  /** The budgets of progressiveDCT, m = 1 .. 64: m * 4096. */
  function DctSchedule(): (ns: seq<int>)
    ensures |ns| == 64
  {
    seq(64, i requires 0 <= i < 64 => (i + 1) * 4096)
  }

  /** Each DCT step keeps one more zig-zag coefficient per block than the step before: step i
      keeps i + 1, from 1 up to all 64. */
  lemma DctScheduleSteps()
    ensures DctSchedule()[0] == 4096 && DctSchedule()[63] == 262144
    ensures forall i :: 0 <= i < 64 ==> DctBudget(DctSchedule()[i]) == i + 1
    ensures forall i, j :: 0 <= i < j < 64 ==> DctSchedule()[i] < DctSchedule()[j]
  {
    forall i | 0 <= i < 64
      ensures DctBudget(DctSchedule()[i]) == i + 1
    {
      DctBudgetProperties(0, 0, i + 1);
    }
  }

  /** (int) Math.pow(4, e), exact for the exponents the decoder uses. */
  function Pow4(e: nat): (p: nat)
    ensures p >= 1
  {
    if e == 0 then 1 else 4 * Pow4(e - 1)
  }

  lemma {:induction false} Pow4IsSquare(e: nat)
    ensures Pow4(e) == Pow2(e) * Pow2(e)
  {
    if e > 0 {
      Pow4IsSquare(e - 1);
      assert Pow2(e) * Pow2(e) == 4 * (Pow2(e - 1) * Pow2(e - 1));
    }
  }

  /** The budgets of progressiveDWT, k = 1 .. 10: 4^(k - 1). */
  function DwtSchedule(): (ns: seq<int>)
    ensures |ns| == 10
  {
    seq(10, i requires 0 <= i < 10 => Pow4(i))
  }

  /** A DWT step quadruples the budget. Steps 1 .. 9 zero everything outside a square corner of
      side 1, 2, 4, ..., 256 (one more pyramid level each); step 10 asks for 512 * 512, which on
      the 512 x 512 plane skips the truncation. */
  lemma DwtScheduleSteps()
    ensures DwtSchedule()[0] == 1 && DwtSchedule()[9] == Side * Side
    ensures forall i :: 0 <= i < 9 ==> DwtSchedule()[i + 1] == 4 * DwtSchedule()[i]
    ensures forall i :: 0 <= i < 9 ==> 1 <= DwtSchedule()[i] < Side * Side && CornerSize(DwtSchedule()[i]) == Pow2(i)
  {
    DwtLastStep();
    forall i | 0 <= i < 9
      ensures DwtSchedule()[i + 1] == 4 * DwtSchedule()[i]
    {
      assert DwtSchedule()[i + 1] == Pow4(i + 1);
    }
    forall i | 0 <= i < 9
      ensures 1 <= DwtSchedule()[i] < Side * Side && CornerSize(DwtSchedule()[i]) == Pow2(i)
    {
      assert DwtSchedule()[i] == Pow4(i);
      DwtStep(i);
    }
  }

  lemma DwtLastStep()
    ensures Pow4(9) == Side * Side
  {
    Pow4IsSquare(9);
    assert Pow2(9) == Side;
  }

  /** Budget 4^i, for i below 9, truncates the 512 x 512 plane to a corner of side 2^i. */
  lemma DwtStep(i: nat)
    requires i < 9
    ensures Pow4(i) < Side * Side && CornerSize(Pow4(i)) == Pow2(i)
  {
    Pow4IsSquare(i);
    CornerOfPowerOfFour(i);
    Pow2Monotone(i, 8);
    assert Pow2(8) == 256;
    MulMono(Pow2(i), 256);
  }

  /** The budget pairs of balancedProgressiveDCTandDWT, iter = 1 .. 64: iter * 4096 for the DCT
      and iter * 4096 / 64 for the DWT. */
  function BalancedSchedule(): (ps: seq<(int, int)>)
    ensures |ps| == 64
  {
    seq(64, i requires 0 <= i < 64 => ((i + 1) * 4096, (i + 1) * 4096 / 64))
  }

  /** Step i of the balanced sequence keeps i + 1 DCT coefficients per block and gives the DWT a
      64th of the DCT budget, 64 (i + 1), always below the pixel count: the DWT keeps a corner
      of side between 8 and 127, the smallest power of two at or above floor(sqrt(64 (i + 1))),
      which grows with i. */
  lemma BalancedScheduleSteps()
    ensures forall i :: 0 <= i < 64 ==> DctBudget(BalancedSchedule()[i].0) == i + 1
    ensures forall i :: 0 <= i < 64 ==> BalancedSchedule()[i].1 * 64 == BalancedSchedule()[i].0
    ensures forall i :: 0 <= i < 64 ==>
      1 <= BalancedSchedule()[i].1 < Side * Side && 8 <= CornerSize(BalancedSchedule()[i].1) < 128
    ensures forall i, j :: 0 <= i <= j < 64 ==> CornerSize(BalancedSchedule()[i].1) <= CornerSize(BalancedSchedule()[j].1)
  {
    SquareRoot(8);
    SquareRoot(64);
    forall i | 0 <= i < 64
      ensures DctBudget(BalancedSchedule()[i].0) == i + 1
      ensures BalancedSchedule()[i].1 == 64 * (i + 1)
      ensures 1 <= BalancedSchedule()[i].1 < Side * Side && 8 <= CornerSize(BalancedSchedule()[i].1) < 128
    {
      DctBudgetProperties(0, 0, i + 1);
      var n := 64 * (i + 1);
      assert (i + 1) * 4096 / 64 == n;
      FloorSqrtMonotone(64, n);
      FloorSqrtMonotone(n, 4096);
      CornerCoversBudget(n);
    }
    forall i, j | 0 <= i <= j < 64
      ensures CornerSize(BalancedSchedule()[i].1) <= CornerSize(BalancedSchedule()[j].1)
    {
      CornerSizeMonotone(BalancedSchedule()[i].1, BalancedSchedule()[j].1);
    }
  }

  // The drivers.

  /** progressiveDCT: for m = 1 .. 64, decodeDCT with budget m * 4096 and show the image. Frame
      m - 1 is the image decoded with the first m zig-zag coefficients of every block. The
      stored coefficients are only read, never encoded again. */
  method ProgressiveDct(coeffs: seq<array3<real>>, w: nat, h: nat, idct: Block -> Block)
    returns (frames: seq<seq<bv32>>)
    requires Tiled(w, h) && CoeffsShaped(coeffs, w, h)
    ensures |frames| == 64
    ensures forall i :: 0 <= i < 64 ==> IsDctFrame(frames[i], idct, coeffs, i + 1, w, h)
  {
    frames := [];
    for m := 1 to 65
      invariant |frames| == m - 1
      invariant DctFramesSoFar(frames, idct, coeffs, w, h)
    {
      var frame := DctFrame(coeffs, w, h, idct, m);
      DctFramesAppend(frames, frame, idct, coeffs, w, h);
      frames := frames + [frame];
    }
  }

  /** Frame i of frames is the image decoded with i + 1 coefficients per block. */
  ghost predicate DctFramesSoFar(frames: seq<seq<bv32>>, idct: Block -> Block, coeffs: seq<array3<real>>,
                                 w: nat, h: nat)
    requires Tiled(w, h) && CoeffsShaped(coeffs, w, h)
    reads coeffs
  {
    forall i :: 0 <= i < |frames| ==> IsDctFrame(frames[i], idct, coeffs, i + 1, w, h)
  }

  lemma DctFramesAppend(frames: seq<seq<bv32>>, frame: seq<bv32>, idct: Block -> Block,
                        coeffs: seq<array3<real>>, w: nat, h: nat)
    requires Tiled(w, h) && CoeffsShaped(coeffs, w, h)
    requires DctFramesSoFar(frames, idct, coeffs, w, h)
    requires IsDctFrame(frame, idct, coeffs, |frames| + 1, w, h)
    ensures DctFramesSoFar(frames + [frame], idct, coeffs, w, h)
  {
    forall i | 0 <= i < |frames| + 1
      ensures IsDctFrame((frames + [frame])[i], idct, coeffs, i + 1, w, h)
    {
      if i < |frames| {
        assert (frames + [frame])[i] == frames[i];
      } else {
        assert (frames + [frame])[i] == frame;
      }
    }
  }

  /** One step of progressiveDCT: decodeDCT with budget m * 4096, which keeps m coefficients per
      block. */
  method DctFrame(coeffs: seq<array3<real>>, w: nat, h: nat, idct: Block -> Block, m: int)
    returns (frame: seq<bv32>)
    requires Tiled(w, h) && CoeffsShaped(coeffs, w, h) && m >= 0
    ensures IsDctFrame(frame, idct, coeffs, m, w, h)
  {
    DctBudgetProperties(0, 0, m);
    var decodedImage := DecodeDct(coeffs, w, h, m * 4096, idct);
    frame := decodedImage[..];
  }

  /** progressiveDWT: for k = 1 .. 10, decodeDWT with budget 4^(k - 1) and show the image. The
      planes must be at least 512 x 512, as the threshold walks that corner. */
  method ProgressiveDwt(coeffs: seq<array2<real>>, w: nat, h: nat) returns (frames: seq<seq<bv32>>)
    requires PlanesShaped(coeffs, w, h) && Side <= w && Side <= h
    ensures |frames| == 10 && PlanesFit(PlanesOf(coeffs), w, h)
    ensures forall i :: 0 <= i < 10 ==>
      1 <= DwtSchedule()[i] && IsDwtFrame(frames[i], HaarScale, PlanesOf(coeffs), w, h, DwtSchedule()[i])
  {
    ghost var planes := PlanesOf(coeffs);
    frames := [];
    for k := 1 to 11
      invariant |frames| == k - 1 && planes == PlanesOf(coeffs) && PlanesFit(planes, w, h)
      invariant DwtFramesSoFar(frames, planes, w, h)
    {
      var frame := DwtFrame(coeffs, w, h, Pow4(k - 1));
      DwtFramesAppend(frames, frame, planes, w, h);
      frames := frames + [frame];
    }
  }

  /** Frame i of frames is the image decoded with budget 4^i. */
  ghost predicate DwtFramesSoFar(frames: seq<seq<bv32>>, planes: seq<seq<seq<real>>>, w: nat, h: nat)
    requires PlanesFit(planes, w, h) && Side <= w && Side <= h
  {
    forall i :: 0 <= i < |frames| && i < 10 ==>
      1 <= DwtSchedule()[i] && IsDwtFrame(frames[i], HaarScale, planes, w, h, DwtSchedule()[i])
  }

  lemma DwtFramesAppend(frames: seq<seq<bv32>>, frame: seq<bv32>, planes: seq<seq<seq<real>>>, w: nat, h: nat)
    requires PlanesFit(planes, w, h) && Side <= w && Side <= h && |frames| < 10
    requires DwtFramesSoFar(frames, planes, w, h)
    requires BudgetFits(Pow4(|frames|), w, h) && IsDwtFrame(frame, HaarScale, planes, w, h, Pow4(|frames|))
    ensures DwtFramesSoFar(frames + [frame], planes, w, h)
  {
    forall i | 0 <= i < |frames| + 1
      ensures 1 <= DwtSchedule()[i] && IsDwtFrame((frames + [frame])[i], HaarScale, planes, w, h, DwtSchedule()[i])
    {
      if i < |frames| {
        assert (frames + [frame])[i] == frames[i];
      } else {
        assert (frames + [frame])[i] == frame;
      }
    }
  }

  /** One step of progressiveDWT: decodeDWT with a positive budget n. */
  method DwtFrame(coeffs: seq<array2<real>>, w: nat, h: nat, n: int) returns (frame: seq<bv32>)
    requires PlanesShaped(coeffs, w, h) && Side <= w && Side <= h && 1 <= n
    ensures PlanesFit(PlanesOf(coeffs), w, h) && BudgetFits(n, w, h)
    ensures IsDwtFrame(frame, HaarScale, PlanesOf(coeffs), w, h, n)
  {
    PositiveBudgetFits(n, w, h);
    var decodedImage := DecodeDwt(coeffs, w, h, n);
    frame := decodedImage[..];
  }

  /** One step of balancedProgressiveDCTandDWT: decodeDCT with iter * 4096 and decodeDWT with
      iter * 4096 / 64. */
  method BalancedFrame(dctCoeffs: seq<array3<real>>, dwtCoeffs: seq<array2<real>>, w: nat, h: nat,
                       idct: Block -> Block, iter: int)
    returns (frame: (seq<bv32>, seq<bv32>))
    requires Tiled(w, h) && CoeffsShaped(dctCoeffs, w, h)
    requires PlanesShaped(dwtCoeffs, w, h) && Side <= w && Side <= h && 1 <= iter
    ensures PlanesFit(PlanesOf(dwtCoeffs), w, h)
    ensures IsDctFrame(frame.0, idct, dctCoeffs, iter, w, h)
    ensures IsDwtFrame(frame.1, HaarScale, PlanesOf(dwtCoeffs), w, h, 64 * iter)
  {
    var dctFrame := DctFrame(dctCoeffs, w, h, idct, iter);
    assert iter * 4096 / 64 == 64 * iter;
    PositiveBudgetFits(64 * iter, w, h);
    var dwtImage := DecodeDwt(dwtCoeffs, w, h, iter * 4096 / 64);
    frame := (dctFrame, dwtImage[..]);
  }

  /** balancedProgressiveDCTandDWT: for iter = 1 .. 64, the DCT image with iter coefficients per
      block and the DWT image with budget 64 * iter, shown side by side. A frame is the pair of
      images combineImages places next to each other. */
  method BalancedProgressive(dctCoeffs: seq<array3<real>>, dwtCoeffs: seq<array2<real>>, w: nat, h: nat,
                             idct: Block -> Block)
    returns (frames: seq<(seq<bv32>, seq<bv32>)>)
    requires Tiled(w, h) && CoeffsShaped(dctCoeffs, w, h)
    requires PlanesShaped(dwtCoeffs, w, h) && Side <= w && Side <= h
    ensures |frames| == 64 && PlanesFit(PlanesOf(dwtCoeffs), w, h)
    ensures forall i :: 0 <= i < 64 ==>
      IsDctFrame(frames[i].0, idct, dctCoeffs, i + 1, w, h) &&
      IsDwtFrame(frames[i].1, HaarScale, PlanesOf(dwtCoeffs), w, h, 64 * (i + 1))
  {
    ghost var planes := PlanesOf(dwtCoeffs);
    frames := [];
    for iter := 1 to 65
      invariant |frames| == iter - 1 && planes == PlanesOf(dwtCoeffs) && PlanesFit(planes, w, h)
      invariant BalancedFramesSoFar(frames, idct, dctCoeffs, planes, w, h)
    {
      var frame := BalancedFrame(dctCoeffs, dwtCoeffs, w, h, idct, iter);
      BalancedFramesAppend(frames, frame, idct, dctCoeffs, planes, w, h);
      frames := frames + [frame];
    }
  }

  /** Frame i of frames pairs the DCT image with i + 1 coefficients per block and the DWT
      image with budget 64 (i + 1). */
  ghost predicate BalancedFramesSoFar(frames: seq<(seq<bv32>, seq<bv32>)>, idct: Block -> Block,
                                      dctCoeffs: seq<array3<real>>, planes: seq<seq<seq<real>>>, w: nat, h: nat)
    requires Tiled(w, h) && CoeffsShaped(dctCoeffs, w, h) && PlanesFit(planes, w, h) && Side <= w && Side <= h
    reads dctCoeffs
  {
    forall i :: 0 <= i < |frames| ==>
      IsDctFrame(frames[i].0, idct, dctCoeffs, i + 1, w, h) &&
      IsDwtFrame(frames[i].1, HaarScale, planes, w, h, 64 * (i + 1))
  }

  lemma BalancedFramesAppend(frames: seq<(seq<bv32>, seq<bv32>)>, frame: (seq<bv32>, seq<bv32>),
                             idct: Block -> Block, dctCoeffs: seq<array3<real>>, planes: seq<seq<seq<real>>>,
                             w: nat, h: nat)
    requires Tiled(w, h) && CoeffsShaped(dctCoeffs, w, h) && PlanesFit(planes, w, h) && Side <= w && Side <= h
    requires BalancedFramesSoFar(frames, idct, dctCoeffs, planes, w, h)
    requires IsDctFrame(frame.0, idct, dctCoeffs, |frames| + 1, w, h)
    requires IsDwtFrame(frame.1, HaarScale, planes, w, h, 64 * (|frames| + 1))
    ensures BalancedFramesSoFar(frames + [frame], idct, dctCoeffs, planes, w, h)
  {
    forall i | 0 <= i < |frames| + 1
      ensures IsDctFrame((frames + [frame])[i].0, idct, dctCoeffs, i + 1, w, h)
      ensures IsDwtFrame((frames + [frame])[i].1, HaarScale, planes, w, h, 64 * (i + 1))
    {
      if i < |frames| {
        assert (frames + [frame])[i] == frames[i];
      } else {
        assert (frames + [frame])[i] == frame;
      }
    }
  }
}

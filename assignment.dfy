/** The command line entry point (main/Assignment.java): main checks that it got an image path
    and a budget, rejects a budget outside the accepted ones, then reads the image, encodes it
    both ways and runs one of three modes. main is modelled as the sequence of calls it makes;
    the budget is taken as already parsed from the second argument. */
module Assignment {
  import DctCodec
  import WaveletBudget
  import DwtCodec

  /** One call main makes, in the order it makes them. */
  datatype Call =
    | InvalidInput          // prints "Invalid input"
    | InvalidCoefficient    // prints "Invalid coefficient"
    | ReadImage             // readImageRGB into a new 512 x 512 image
    | EncodeDct
    | EncodeDwt
    | DecodeDct(n: int)
    | DecodeDwt(n: int)
    | ShowImages            // the two decoded images side by side
    | ProgressiveDct
    | ProgressiveDwt
    | BalancedProgressive

  /** The side of the image main reads. */
  const Width: nat := 512
  const Height: nat := 512

  /** The budgets main accepts: -1 (the two progressive sequences), -2 (the balanced
      sequence), or a whole-image coefficient count from 4096 to 262144. */
  predicate Accepted(n: int) {
    n == -1 || n == -2 || 4096 <= n <= 262144
  }

  /** main(args) with argCount arguments, the second of which parses to n. */
  function Run(argCount: int, n: int): seq<Call> {
    if argCount != 2 then [InvalidInput]
    else if n != -1 && n != -2 && (n < 4096 || n > 262144) then [InvalidCoefficient]
    else
      [ReadImage, EncodeDct, EncodeDwt]
      + (if n > 0 then [DecodeDct(n), DecodeDwt(n), ShowImages] else [])
      + (if n == -1 then [ProgressiveDct, ProgressiveDwt] else [])
      + (if n == -2 then [BalancedProgressive] else [])
  }

  /** A call that decodes: a decoder or one of the progressive sequences. */
  predicate Decodes(c: Call) {
    c.DecodeDct? || c.DecodeDwt? || c == ProgressiveDct || c == ProgressiveDwt || c == BalancedProgressive
  }

  /** A call that starts one of the three modes. */
  predicate StartsMode(c: Call) {
    c.DecodeDct? || c == ProgressiveDct || c == BalancedProgressive
  }

  /** The number of calls in cs that start a mode. */
  function ModeStarts(cs: seq<Call>): (r: nat)
    ensures r <= |cs|
  {
    if cs == [] then 0 else (if StartsMode(cs[0]) then 1 else 0) + ModeStarts(cs[1..])
  }

  lemma {:induction false} ModeStartsAppend(a: seq<Call>, b: seq<Call>)
    ensures ModeStarts(a + b) == ModeStarts(a) + ModeStarts(b)
  {
    if a == [] {
      assert a + b == b;
    } else {
      assert (a + b)[1..] == a[1..] + b;
      ModeStartsAppend(a[1..], b);
    }
  }

  lemma ModeStartsThree(a: Call, b: Call, c: Call)
    ensures ModeStarts([a, b, c]) ==
      (if StartsMode(a) then 1 else 0) + (if StartsMode(b) then 1 else 0) + (if StartsMode(c) then 1 else 0)
  {
    assert [a, b, c] == [a] + [b] + [c];
    ModeStartsAppend([a] + [b], [c]);
    ModeStartsAppend([a], [b]);
    assert [a][1..] == [] && [b][1..] == [] && [c][1..] == [];
  }

  /** Without exactly two arguments main prints "Invalid input" and does nothing else. */
  lemma WrongArgumentCount(argCount: int, n: int)
    requires argCount != 2
    ensures Run(argCount, n) == [InvalidInput]
  {
  }

  /** With two arguments, a budget that is not accepted is reported and nothing is read,
      encoded or decoded; an accepted one is never reported. */
  lemma BudgetChecked(n: int)
    ensures !Accepted(n) <==> Run(2, n) == [InvalidCoefficient]
    ensures !Accepted(n) ==> ReadImage !in Run(2, n) && EncodeDct !in Run(2, n) && EncodeDwt !in Run(2, n)
    ensures Accepted(n) ==> InvalidCoefficient !in Run(2, n) && InvalidInput !in Run(2, n)
  {
  }

  /** For an accepted budget main reads the image, then runs each encoder once, and only then
      decodes: no call after the two encoders encodes again, and none before them decodes. */
  lemma EncodeOnceBeforeDecoding(n: int)
    requires Accepted(n)
    ensures |Run(2, n)| > 3 && Run(2, n)[..3] == [ReadImage, EncodeDct, EncodeDwt]
    ensures forall i :: 3 <= i < |Run(2, n)| ==>
      Decodes(Run(2, n)[i]) || Run(2, n)[i] == ShowImages
  {
  }

  /** A positive budget is passed unchanged to both decoders, whose images are shown together. */
  lemma DirectMode(n: int)
    requires Accepted(n) && n > 0
    ensures Run(2, n)[3..] == [DecodeDct(n), DecodeDwt(n), ShowImages]
  {
  }

  /** -1 runs the DCT sequence and then the DWT sequence; -2 runs only the balanced one. */
  lemma ProgressiveModes(n: int)
    requires Accepted(n) && n < 0
    ensures n == -1 ==> Run(2, n)[3..] == [ProgressiveDct, ProgressiveDwt]
    ensures n == -2 ==> Run(2, n)[3..] == [BalancedProgressive]
  {
  }

  /** main starts exactly one mode for an accepted budget and none otherwise. */
  lemma ExactlyOneMode(argCount: int, n: int)
    ensures ModeStarts(Run(argCount, n)) == if argCount == 2 && Accepted(n) then 1 else 0
  {
    if argCount == 2 && Accepted(n) {
      var head: seq<Call> := [ReadImage, EncodeDct, EncodeDwt];
      var direct: seq<Call> := if n > 0 then [DecodeDct(n), DecodeDwt(n), ShowImages] else [];
      var progressive: seq<Call> := if n == -1 then [ProgressiveDct, ProgressiveDwt] else [];
      var balanced: seq<Call> := if n == -2 then [BalancedProgressive] else [];
      assert Run(argCount, n) == head + direct + progressive + balanced;
      ModeStartsAppend(head + direct + progressive, balanced);
      ModeStartsAppend(head + direct, progressive);
      ModeStartsAppend(head, direct);
      assert ModeStarts(head) == 0 by {
        ModeStartsThree(ReadImage, EncodeDct, EncodeDwt);
      }
      assert ModeStarts(direct) == (if n > 0 then 1 else 0) by {
        if n > 0 {
          ModeStartsThree(DecodeDct(n), DecodeDwt(n), ShowImages);
        }
      }
      assert ModeStarts(progressive) == (if n == -1 then 1 else 0) by {
        if n == -1 {
          assert progressive == [ProgressiveDct] + [ProgressiveDwt];
          ModeStartsAppend([ProgressiveDct], [ProgressiveDwt]);
        }
      }
      assert ModeStarts(balanced) == (if n == -2 then 1 else 0) by {
        if n == -2 {
          assert balanced[1..] == [];
        }
      }
    } else {
      assert Run(argCount, n)[1..] == [];
    }
  }

  /** Every budget main hands to a decoder is one the decoder accepts on the 512 x 512 image:
      the DCT decoder keeps between 1 and 64 coefficients per block, and the DWT decoder's
      threshold gets a budget it can take the square root and logarithm of. */
  lemma DecoderBudgetsFit(n: int)
    requires Accepted(n)
    ensures forall c :: c in Run(2, n) && c.DecodeDct? ==> 1 <= DctCodec.DctBudget(c.n) <= 64
    ensures forall c :: c in Run(2, n) && c.DecodeDwt? ==> DwtCodec.BudgetFits(c.n, Width, Height)
  {
    if n > 0 {
      DctCodec.DctBudgetProperties(4096, n, 1);
      DctCodec.DctBudgetProperties(n, 262144, 64);
      DwtCodec.PositiveBudgetFits(n, Width, Height);
    }
  }
}

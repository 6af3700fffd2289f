/**
 How well the predictor of `adpcm.c` follows its input: the error after an ordinary
 sample, the progress made by a saturated one, and how long saturation can last.
*/
module AdpcmError {
  import opened Bits
  import opened Adpcm

  function Abs(x: int): nat { if x >= 0 then x else -x }

  /** The distance from the predictor to the sample about to be coded. */
  function Gap(c: Coder, sample: s16): nat { Abs(sample - c.predict) }

  /** The largest difference the three thresholds of one sample can take up. */
  function Reach(step: Step): nat { step + step / 2 + 2 * (step / 4) }

  predicate Saturates(c: Coder, sample: s16) { Gap(c, sample) >= Reach(StepAt(c.index)) }

  /** The difference that nibble 7 stands for. */
  function FullStep(step: Step): nat { step / 8 + step + step / 2 + step / 2 / 2 }

  /** The three rounds on a difference `e`: what is left over, or nibble 7. */
  lemma Leftover(e: nat, s: int, code: int)
    requires 7 <= s <= 32767
    ensures var q := QuantLoop(4, Quant(e, s / 8, code, s));
            if e < s + s / 2 + 2 * (s / 4) then -(s / 8) - 2 <= e - q.diffq <= s / 8 + 2
            else q.diffq == s / 8 + s + s / 2 + s / 2 / 2 <= e && q.code == code + 7
  {
    var q0 := Quant(e, s / 8, code, s);
    ThreeRounds(q0);
    var q1 := QuantRound(1, QuantRound(2, QuantRound(4, q0)));
    assert q1.diff + q1.diffq == e + s / 8;
    assert s / 2 / 2 == s / 4;
    if e < s + s / 2 + 2 * (s / 4) {
      assert 0 <= q1.diff <= s / 4 + 1;
    }
  }

  /** The new gap before clamping, which can only bring the predictor nearer to a 16-bit sample. */
  lemma GapAfter(c: Coder, sample: s16)
    ensures var q := Quantise(c, sample);
            && q == QuantLoop(4, Quant(Gap(c, sample), StepAt(c.index) / 8,
                                       if sample < c.predict then 8 else 0, StepAt(c.index)))
            && Gap(EncodeStep(c, sample), sample) <= Abs(Gap(c, sample) - q.diffq)
            && (0 <= q.diffq <= Gap(c, sample) ==>
                  && Gap(EncodeStep(c, sample), sample) == Gap(c, sample) - q.diffq
                  && (c.predict <= sample ==> EncodeStep(c, sample).predict <= sample)
                  && (c.predict >= sample ==> EncodeStep(c, sample).predict >= sample))
  {
  }

  /** An unsaturated sample is met to within an eighth of the step plus two, clamping included. */
  lemma TrackingError(c: Coder, sample: s16)
    requires !Saturates(c, sample)
    ensures Gap(EncodeStep(c, sample), sample) <= StepAt(c.index) / 8 + 2
  {
    GapAfter(c, sample);
    Leftover(Gap(c, sample), StepAt(c.index), if sample < c.predict then 8 else 0);
  }

  /** A saturated sample moves by the full step towards the input and never past it. */
  lemma SaturatedProgress(c: Coder, sample: s16)
    requires Saturates(c, sample)
    ensures var d := EncodeStep(c, sample);
            && Gap(d, sample) == Gap(c, sample) - FullStep(StepAt(c.index))
            && (c.predict <= sample ==> d.predict <= sample)
            && (c.predict >= sample ==> d.predict >= sample)
            && d.index == ClampIndex(c.index + 8)
    ensures Gap(EncodeStep(c, sample), sample) + 11 <= Gap(c, sample)
  {
    GapAfter(c, sample);
    Leftover(Gap(c, sample), StepAt(c.index), if sample < c.predict then 8 else 0);
    assert MoveOf(7) == 8 && MoveOf(15) == 8;
  }

  /** The state after `n` samples of a constant input. */
  function Held(c: Coder, sample: s16, n: nat): Coder
    decreases n
  {
    if n == 0 then c else Held(EncodeStep(c, sample), sample, n - 1)
  }

  /** From any state, one of the first twelve samples of a constant input is not saturated. */
  lemma SaturationEnds(c: Coder, sample: s16) returns (n: nat)
    ensures n <= 11 && !Saturates(Held(c, sample, n), sample)
  {
    n := FirstUnsaturated(c, sample, 0);
  }

  lemma FirstUnsaturated(c: Coder, sample: s16, k: nat) returns (n: nat)
    requires k <= 11 && c.index >= 8 * k && Gap(c, sample) <= 65535 - 11 * k
    ensures n <= 11 - k && !Saturates(Held(c, sample, n), sample)
    decreases 11 - k
  {
    hide EncodeStep, Saturates, StepAt;
    n := 0;
    if k == 11 {
      TopOfTable(c, sample);
    } else if Saturates(c, sample) {
      SaturatedProgress(c, sample);
      n := FirstUnsaturated(EncodeStep(c, sample), sample, k + 1);
      n := n + 1;
    }
  }

  lemma TopOfTable(c: Coder, sample: s16)
    requires c.index == 88 && Gap(c, sample) < 65532
    ensures !Saturates(c, sample)
  {
    assert STEP_TABLE[88] == 32767;
  }

  // A held sample is reproduced

  /** The table grows by a tenth, so that an eighth of a step and two stay below the step before. */
  predicate Close(i: Index) {
    && (i < 88 ==> StepAt(i) < StepAt(i + 1) && StepAt(i + 1) / 8 + 2 < StepAt(i))
    && (i < 87 ==> 11 * StepAt(i) / 10 <= StepAt(i + 1) <= 11 * StepAt(i) / 10 + 1)
  }

  lemma CloseFrom0(i: Index)
    requires i < 15
    ensures Close(i)
  {
    assert STEP_TABLE[0] == 7 && STEP_TABLE[1] == 8 && STEP_TABLE[2] == 9 && STEP_TABLE[3] == 10
        && STEP_TABLE[4] == 11 && STEP_TABLE[5] == 12 && STEP_TABLE[6] == 13 && STEP_TABLE[7] == 14
        && STEP_TABLE[8] == 16 && STEP_TABLE[9] == 17 && STEP_TABLE[10] == 19 && STEP_TABLE[11] == 21
        && STEP_TABLE[12] == 23 && STEP_TABLE[13] == 25 && STEP_TABLE[14] == 28 && STEP_TABLE[15] == 31;
  }

  lemma CloseFrom15(i: Index)
    requires 15 <= i < 30
    ensures Close(i)
  {
    assert STEP_TABLE[15] == 31 && STEP_TABLE[16] == 34 && STEP_TABLE[17] == 37 && STEP_TABLE[18] == 41
        && STEP_TABLE[19] == 45 && STEP_TABLE[20] == 50 && STEP_TABLE[21] == 55 && STEP_TABLE[22] == 60
        && STEP_TABLE[23] == 66 && STEP_TABLE[24] == 73 && STEP_TABLE[25] == 80 && STEP_TABLE[26] == 88
        && STEP_TABLE[27] == 97 && STEP_TABLE[28] == 107 && STEP_TABLE[29] == 118 && STEP_TABLE[30] == 130;
  }

  lemma CloseFrom30(i: Index)
    requires 30 <= i < 45
    ensures Close(i)
  {
    assert STEP_TABLE[30] == 130 && STEP_TABLE[31] == 143 && STEP_TABLE[32] == 157 && STEP_TABLE[33] == 173
        && STEP_TABLE[34] == 190 && STEP_TABLE[35] == 209 && STEP_TABLE[36] == 230 && STEP_TABLE[37] == 253
        && STEP_TABLE[38] == 279 && STEP_TABLE[39] == 307 && STEP_TABLE[40] == 337 && STEP_TABLE[41] == 371
        && STEP_TABLE[42] == 408 && STEP_TABLE[43] == 449 && STEP_TABLE[44] == 494 && STEP_TABLE[45] == 544;
  }

  lemma CloseFrom45(i: Index)
    requires 45 <= i < 60
    ensures Close(i)
  {
    assert STEP_TABLE[45] == 544 && STEP_TABLE[46] == 598 && STEP_TABLE[47] == 658 && STEP_TABLE[48] == 724
        && STEP_TABLE[49] == 796 && STEP_TABLE[50] == 876 && STEP_TABLE[51] == 963 && STEP_TABLE[52] == 1060
        && STEP_TABLE[53] == 1166 && STEP_TABLE[54] == 1282 && STEP_TABLE[55] == 1411 && STEP_TABLE[56] == 1552
        && STEP_TABLE[57] == 1707 && STEP_TABLE[58] == 1878 && STEP_TABLE[59] == 2066 && STEP_TABLE[60] == 2272;
  }

  lemma CloseFrom60(i: Index)
    requires 60 <= i < 75
    ensures Close(i)
  {
    assert STEP_TABLE[60] == 2272 && STEP_TABLE[61] == 2499 && STEP_TABLE[62] == 2749 && STEP_TABLE[63] == 3024
        && STEP_TABLE[64] == 3327 && STEP_TABLE[65] == 3660 && STEP_TABLE[66] == 4026 && STEP_TABLE[67] == 4428
        && STEP_TABLE[68] == 4871 && STEP_TABLE[69] == 5358 && STEP_TABLE[70] == 5894 && STEP_TABLE[71] == 6484
        && STEP_TABLE[72] == 7132 && STEP_TABLE[73] == 7845 && STEP_TABLE[74] == 8630 && STEP_TABLE[75] == 9493;
  }

  lemma CloseFrom75(i: Index)
    requires 75 <= i < 88
    ensures Close(i)
  {
    assert STEP_TABLE[75] == 9493 && STEP_TABLE[76] == 10442 && STEP_TABLE[77] == 11487 && STEP_TABLE[78] == 12635
        && STEP_TABLE[79] == 13899 && STEP_TABLE[80] == 15289 && STEP_TABLE[81] == 16818 && STEP_TABLE[82] == 18500
        && STEP_TABLE[83] == 20350 && STEP_TABLE[84] == 22385 && STEP_TABLE[85] == 24623 && STEP_TABLE[86] == 27086
        && STEP_TABLE[87] == 29794 && STEP_TABLE[88] == 32767;
  }

  lemma StepsClose(i: Index)
    ensures Close(i)
  {
    hide Close;
    if i < 15 {
      CloseFrom0(i);
    } else if i < 30 {
      CloseFrom15(i);
    } else if i < 45 {
      CloseFrom30(i);
    } else if i < 60 {
      CloseFrom45(i);
    } else if i < 75 {
      CloseFrom60(i);
    } else if i < 88 {
      CloseFrom75(i);
    } else {
      CloseLast(i);
    }
  }

  lemma CloseLast(i: Index)
    requires i == 88
    ensures Close(i)
  {
  }

  lemma {:induction false} StepsGrow(i: Index, j: Index)
    requires i <= j
    ensures StepAt(i) <= StepAt(j)
    decreases j - i
  {
    hide StepAt;
    if i < j {
      StepsClose(i);
      StepsGrow(i + 1, j);
    }
  }

  /** The sample is nearer than the step: it will be met to within an eighth of it while the index falls. */
  predicate Calm(c: Coder, sample: s16) { Gap(c, sample) < StepAt(c.index) }

  /** After an unsaturated sample the state is calm. */
  lemma UnsaturatedCalms(c: Coder, sample: s16)
    requires !Saturates(c, sample)
    ensures Calm(EncodeStep(c, sample), sample)
  {
    var d := EncodeStep(c, sample);
    IndexFallsByOne(c, sample);
    TrackingError(c, sample);
    hide EncodeStep, StepAt, Saturates;
    if c.index == 0 {
      FirstStep();
      StepsGrow(0, d.index);
    } else {
      StepsClose(c.index - 1);
      StepsGrow(c.index - 1, d.index);
    }
  }

  lemma FirstStep()
    ensures StepAt(0) == 7 && StepAt(1) == 8
  {
  }

  lemma LastStep()
    ensures StepAt(88) == 32767
  {
  }

  lemma IndexFallsByOne(c: Coder, sample: s16)
    ensures EncodeStep(c, sample).index >= ClampIndex(c.index - 1)
  {
    hide Quantise, StepAt;
  }

  /** A calm sample leaves the first bit clear, so the index falls. */
  lemma CalmFalls(c: Coder, sample: s16)
    requires Calm(c, sample)
    ensures var d := EncodeStep(c, sample);
            d.index == ClampIndex(c.index - 1) && Calm(d, sample) && Gap(d, sample) <= StepAt(c.index) / 8 + 2
  {
    TrackingError(c, sample);
    UnsaturatedCalms(c, sample);
    SmallCode(c, sample);
  }

  lemma SmallCode(c: Coder, sample: s16)
    requires Calm(c, sample)
    ensures MoveOf(Quantise(c, sample).code) == -1
  {
    ThreeRounds(StartQuant(sample - c.predict, StepAt(c.index)));
    hide StepAt;
    SmallMoves();
  }

  lemma SmallMoves()
    ensures forall code: Nibble | code % 8 < 4 :: MoveOf(code) == -1
  {
  }

  /** The fall to the smallest step. */
  lemma {:induction false} CalmSettles(c: Coder, sample: s16, k: nat)
    requires Calm(c, sample) && k >= 1 && k >= c.index
    ensures Held(c, sample, k).index == 0 && Gap(Held(c, sample, k), sample) <= 3
    decreases k
  {
    hide EncodeStep, StepAt, Calm;
    CalmFalls(c, sample);
    FirstStep();
    if k > 1 {
      CalmSettles(EncodeStep(c, sample), sample, k - 1);
    } else {
      assert Held(EncodeStep(c, sample), sample, 0) == EncodeStep(c, sample);
    }
  }

  /** At the smallest step two samples close a gap of 3, and nothing opens it again. */
  lemma GapCloses(c: Coder, sample: s16)
    requires c.index == 0 && Gap(c, sample) <= 3
    ensures var d := EncodeStep(c, sample);
            d.index == 0 && Gap(d, sample) == if Gap(c, sample) == 2 then 1 else 0
  {
    FirstStep();
    CalmFalls(c, sample);
    GapAfter(c, sample);
    ThreeRounds(Quant(Gap(c, sample), StepAt(c.index) / 8, if sample < c.predict then 8 else 0, StepAt(c.index)));
    hide EncodeStep, StepAt, Quantise;
  }

  lemma {:induction false} StaysReached(c: Coder, sample: s16, n: nat)
    requires c.index == 0 && Gap(c, sample) <= 3
    requires n >= 2 || (n == 1 && Gap(c, sample) <= 1) || Gap(c, sample) == 0
    ensures Gap(Held(c, sample, n), sample) == 0
    decreases n
  {
    hide EncodeStep;
    if n > 0 {
      GapCloses(c, sample);
      StaysReached(EncodeStep(c, sample), sample, n - 1);
    }
  }

  lemma {:induction false} HeldSum(c: Coder, sample: s16, m: nat, n: nat)
    ensures Held(c, sample, m + n) == Held(Held(c, sample, m), sample, n)
    decreases m
  {
    hide EncodeStep;
    if m > 0 {
      HeldSum(EncodeStep(c, sample), sample, m - 1, n);
    }
  }

  /** From any state, a sample held constant is reproduced exactly after 102 samples, for ever. */
  lemma HeldSampleIsReached(c: Coder, sample: s16, n: nat)
    requires n >= 102
    ensures Held(c, sample, n).predict == sample
  {
    hide EncodeStep, Saturates, StepAt, Held, Calm;
    var k := SaturationEnds(c, sample);
    var first := Held(c, sample, k);
    UnsaturatedCalms(first, sample);
    HeldOneMore(c, sample, k);
    var calm := Held(c, sample, k + 1);
    CalmSettles(calm, sample, 88);
    HeldSum(c, sample, k + 1, 88);
    var settled := Held(calm, sample, 88);
    StaysReached(settled, sample, n - k - 89);
    HeldSum(c, sample, k + 89, n - k - 89);
  }

  /** The climb from the bottom of the range at indices 0, 8, ..., 80, with the step used there. */
  const CLIMB: seq<(s16, int)> := [
    (-32768, 7), (-32757, 16), (-32727, 34), (-32664, 73), (-32528, 157), (-32235, 337),
    (-31604, 724), (-30247, 1552), (-27337, 3327), (-21101, 7132), (-7729, 15289)]

  function ClimbState(n: nat): Coder
    requires n < 11
  {
    Coder(CLIMB[n].0, 8 * n)
  }

  /** Eleven is reached: full scale from the smallest step. */
  lemma SaturationBoundIsTight(k: nat)
    requires k < 11
    ensures Saturates(Held(Coder(-32768, 0), 32767, k), 32767)
  {
    var climb := seq(11, n requires 0 <= n < 11 => ClimbState(n));
    forall n | 0 <= n < 10
      ensures EncodeStep(climb[n], 32767) == climb[n + 1]
    {
      ClimbStep(n);
    }
    FollowsRun(climb, 32767, k);
    ClimbSaturates(k);
  }

  lemma {:induction false} FollowsRun(run: seq<Coder>, sample: s16, k: nat)
    requires k < |run|
    requires forall n | 0 <= n < |run| - 1 :: EncodeStep(run[n], sample) == run[n + 1]
    ensures Held(run[0], sample, k) == run[k]
  {
    if k > 0 {
      FollowsRun(run, sample, k - 1);
      HeldOneMore(run[0], sample, k - 1);
    }
  }

  lemma {:induction false} HeldOneMore(c: Coder, sample: s16, n: nat)
    ensures Held(c, sample, n + 1) == EncodeStep(Held(c, sample, n), sample)
    decreases n
  {
    if n > 0 {
      HeldOneMore(EncodeStep(c, sample), sample, n - 1);
    }
  }

  lemma ClimbSaturates(n: nat)
    requires n < 11
    ensures StepAt(8 * n) == CLIMB[n].1
    ensures Saturates(ClimbState(n), 32767)
    ensures n < 10 ==> CLIMB[n + 1].0 == CLIMB[n].0 + FullStep(CLIMB[n].1)
  {
    ClimbTable(n);
    hide StepAt;
  }

  lemma ClimbTable(n: nat)
    requires n < 11
    ensures StepAt(8 * n) == CLIMB[n].1
  {
    assert STEP_TABLE[0] == 7 && STEP_TABLE[8] == 16 && STEP_TABLE[16] == 34 && STEP_TABLE[24] == 73
        && STEP_TABLE[32] == 157 && STEP_TABLE[40] == 337 && STEP_TABLE[48] == 724 && STEP_TABLE[56] == 1552
        && STEP_TABLE[64] == 3327 && STEP_TABLE[72] == 7132 && STEP_TABLE[80] == 15289;
  }

  lemma ClimbStep(n: nat)
    requires n < 10
    ensures EncodeStep(ClimbState(n), 32767) == ClimbState(n + 1)
  {
    ClimbSaturates(n);
    SaturatedProgress(ClimbState(n), 32767);
  }
}

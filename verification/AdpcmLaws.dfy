/**
 What one sample of `adpcm.c` does to nibble, predictor and index, and where the bytes of a
 frame stand, in plain numbers: the yardstick for the tables, the bit tests and the layouts
 that encoder and decoder share.
*/
module AdpcmLaws {
  import opened Bits
  import opened Adpcm
  import opened AdpcmError
  import opened AdpcmPacking
  import opened AdpcmFrames

  /** The smallest gap that gives a nibble of magnitude `m`, with the halvings of C. */
  function Band(m: nat, step: nat): nat {
    match m
    case 0 => 0
    case 1 => step / 4
    case 2 => step / 2
    case 3 => step / 2 + step / 4
    case 4 => step
    case 5 => step + step / 4
    case 6 => step + step / 2
    case _ => step + step / 2 + step / 4
  }

  /** The nibble is the band the gap lies in, with the sign in its top bit. */
  lemma NibbleIsBand(c: Coder, sample: s16)
    ensures var code, step := Quantise(c, sample).code, StepAt(c.index);
            && (code >= 8 <==> sample < c.predict)
            && Band(code % 8, step) <= Gap(c, sample)
            && (code % 8 < 7 ==> Gap(c, sample) < Band(code % 8 + 1, step))
  {
    var base := if sample < c.predict then 8 else 0;
    GapAfter(c, sample);
    RoundsFindBand(Gap(c, sample), StepAt(c.index), StepAt(c.index) / 8, base);
    hide *;
    Magnitude(Quantise(c, sample).code, base);
  }

  lemma Magnitude(code: int, base: int)
    requires base == 0 || base == 8
    requires 0 <= code - base < 8
    ensures code % 8 == code - base
  {
    DivModUnique(code, 8, base / 8, code - base);
  }

  /** The three comparisons of a difference `e`, each with half the step of the one before. */
  lemma RoundsFindBand(e: nat, s: nat, d: nat, base: int)
    ensures var m := QuantLoop(4, Quant(e, d, base, s)).code - base;
            0 <= m < 8 && Band(m, s) <= e && (m < 7 ==> e < Band(m + 1, s))
  {
    var q0 := Quant(e, d, base, s);
    ThreeRounds(q0);
    assert s / 2 / 2 == s / 4;
    var b4, b2 := e >= s, (if e >= s then e - s else e) >= s / 2;
    var rest := (if b4 then e - s else e) - if b2 then s / 2 else 0;
    assert QuantLoop(4, q0).code ==
           base + (if b4 then 4 else 0) + (if b2 then 2 else 0) + if rest >= s / 4 then 1 else 0;
  }

  /** The index of the next sample, limited to the table. */
  function Limited(i: int): int { if i < 0 then 0 else if i > 88 then 88 else i }

  /** One down below the step; above it up by 2, 4, 6 or 8 as the gap grows by quarters of the step. */
  lemma IndexFollowsGap(c: Coder, sample: s16)
    ensures var step, gap := StepAt(c.index), Gap(c, sample);
            EncodeStep(c, sample).index ==
            Limited(c.index + if gap < step then -1
                              else if gap < step + step / 4 then 2
                              else if gap < step + step / 2 then 4
                              else if gap < step + step / 2 + step / 4 then 6
                              else 8)
  {
    var code := Quantise(c, sample).code;
    NibbleIsBand(c, sample);
    MoveIs(code);
    MoveOfBand(code % 8, StepAt(c.index), Gap(c, sample));
    hide StepAt, Quantise, MoveOf;
  }

  lemma MoveOfBand(m: nat, step: nat, gap: nat)
    requires m < 8 && Band(m, step) <= gap && (m < 7 ==> gap < Band(m + 1, step))
    ensures (if m < 4 then -1 else 2 * (m - 3)) ==
            if gap < step then -1
            else if gap < step + step / 4 then 2
            else if gap < step + step / 2 then 4
            else if gap < step + step / 2 + step / 4 then 6
            else 8
  {
  }

  /** The two rows of the table of moves in one rule. */
  lemma MoveIs(code: Nibble)
    ensures MoveOf(code) == if code % 8 < 4 then -1 else 2 * (code % 8 - 3)
  {
  }

  /** Every nibble moves the decoder by an eighth of the step and its band, and the index by its magnitude. */
  lemma DecoderMoves(c: Coder, code: Nibble)
    ensures var d, step := DecodeStep(c, code), StepAt(c.index);
            var p := if code >= 8 then c.predict - (step / 8 + Band(code % 8, step))
                     else c.predict + (step / 8 + Band(code % 8, step));
            && d.predict == (if p > 32767 then 32767 else if p < -32768 then -32768 else p)
            && d.index == Limited(c.index + if code % 8 < 4 then -1 else 2 * (code % 8 - 3))
  {
    RebuildIsBand(code, StepAt(c.index));
    MoveIs(code);
    hide StepAt, MoveOf, Rebuild, Band;
  }

  lemma RebuildIsBand(code: Nibble, step: Step)
    ensures Rebuild(code, step) == step / 8 + Band(code % 8, step) && (And(code, 8) != 0 <==> code >= 8)
  {
    NibbleBits(code);
    HalfOfHalf(step);
    hide And;
    BandBits(code % 8, step, And(code, 4) != 0, And(code, 2) != 0, And(code, 1) != 0);
  }

  lemma BandBits(m: nat, step: nat, b4: bool, b2: bool, b1: bool)
    requires m == (if b4 then 4 else 0) + (if b2 then 2 else 0) + if b1 then 1 else 0
    ensures Band(m, step) == (if b4 then step else 0) + (if b2 then step / 2 else 0) + if b1 then step / 4 else 0
  {
  }

  lemma NibbleBits(code: Nibble)
    ensures And(code, 8) != 0 <==> code >= 8
    ensures code % 8 == (if And(code, 4) != 0 then 4 else 0) + (if And(code, 2) != 0 then 2 else 0)
                        + if And(code, 1) != 0 then 1 else 0
  {
    AndOneBit(code);
    hide And;
    var q, h := code / 2, code / 2 / 2;
    assert code / 4 == h && code / 8 == h / 2;
    DivModUnique(code, 8, h / 2, h % 2 * 4 + q % 2 * 2 + code % 2);
  }

  lemma HalfOfHalf(s: int)
    ensures s / 2 / 2 == s / 4
  {
  }

  /** The steps run from 7 to 32767, each a tenth above the one before, rounded up or down, but for the last. */
  lemma StepsByTenths(i: Index)
    ensures StepAt(0) == 7 && StepAt(88) == 32767
    ensures i < 87 ==> 11 * StepAt(i) / 10 <= StepAt(i + 1) <= 11 * StepAt(i) / 10 + 1
  {
    FirstStep();
    LastStep();
    StepsClose(i);
    hide StepAt;
  }

  // The bytes of a frame

  /** Nibble `i` of a frame comes from sample `i` in the state that the samples before it leave. */
  lemma {:induction false} CodeAt(c: Coder, samples: seq<s16>, i: nat)
    requires i < |samples|
    ensures Codes(c, samples)[i] == Quantise(Encoded(c, samples[..i]), samples[i]).code
    decreases i
  {
    hide Quantise, EncodeStep;
    if i > 0 {
      CodeAt(EncodeStep(c, samples[0]), samples[1..], i - 1);
      assert samples[..i][1..] == samples[1..][..i - 1];
    }
  }

  /** A word from its bytes, read as a signed number. */
  function SignedOf(low: u8, high: u8): int {
    (if high < 0x80 then 0 else -0x1_0000) + 0x100 * high + low
  }

  /** Telink: predictor low byte first, index, 124; then two samples to a byte, the earlier one low. */
  lemma TelinkLayout(c: Coder, samples: seq<s16>, k: nat)
    requires k < |samples| / 2
    ensures var f, codes := Frame(Telink, c, samples), Codes(c, samples);
            && |f| == 4 + |samples| / 2
            && SignedOf(f[0], f[1]) == c.predict && f[2] == c.index && f[3] == 124
            && f[4 + k] % 16 == codes[2 * k] && f[4 + k] / 16 == codes[2 * k + 1]
  {
    hide Codes;
    PackedNibble(Codes(c, samples)[2 * k], Codes(c, samples)[2 * k + 1]);
    WordBytes(c.predict);
  }

  /** Google 0.4: serial number, 0, predictor, each high byte first, index; the earlier sample is the high nibble. */
  lemma GoogleLayout(serial: u16, c: Coder, samples: seq<s16>, k: nat)
    requires k < |samples| / 2
    ensures var f, codes := Frame(Google(serial), c, samples), Codes(c, samples);
            && |f| == 6 + |samples| / 2
            && 0x100 * f[0] as int + f[1] as int == serial && f[2] == 0
            && SignedOf(f[4], f[3]) == c.predict && f[5] == c.index
            && f[6 + k] / 16 == codes[2 * k] && f[6 + k] % 16 == codes[2 * k + 1]
  {
    hide Codes;
    BareLayout(Codes(c, samples), k);
    WordBytes(c.predict);
  }

  /** The HID build and Google 1.0 have the same order of nibbles without a header. */
  lemma BareLayout(codes: seq<Nibble>, k: nat)
    requires k < |codes| / 2
    ensures var bytes := Packed(codes, true);
            |bytes| == |codes| / 2 && bytes[k] / 16 == codes[2 * k] && bytes[k] % 16 == codes[2 * k + 1]
  {
    var a: int, b: int := codes[2 * k], codes[2 * k + 1];
    DivModUnique(a * 16 + b, 16, a, b);
  }

  lemma WordBytes(p: s16)
    ensures SignedOf(Wrap16(p) % 0x100, Wrap16(p) / 0x100) == p
  {
    DivModUnique(p, 0x1_0000, if p < 0 then -1 else 0, if p < 0 then p + 0x1_0000 else p);
  }
}

/**
 The IMA ADPCM step shared by all builds of `adpcm.c` (called DVI4 in section 4.5.1 of
 RFC 3551): the tables, the encoder's quantiser, the decoder's reconstruction, and the
 proof that both move the predictor and the step index in the same way for ever.
*/
module Adpcm {
  import opened Bits

  type Step = s: int | 7 <= s <= 32767 witness 7
  type IndexMove = m: int | -1 <= m <= 8

  const INDEX_TABLE: seq<IndexMove> := [-1, -1, -1, -1, 2, 4, 6, 8, -1, -1, -1, -1, 2, 4, 6, 8]

  const STEP_TABLE: seq<Step> :=
    [7, 8, 9, 10, 11, 12, 13, 14, 16, 17]
    + [19, 21, 23, 25, 28, 31, 34, 37, 41, 45]
    + [50, 55, 60, 66, 73, 80, 88, 97, 107, 118]
    + [130, 143, 157, 173, 190, 209, 230, 253, 279, 307]
    + [337, 371, 408, 449, 494, 544, 598, 658, 724, 796]
    + [876, 963, 1060, 1166, 1282, 1411, 1552, 1707, 1878, 2066]
    + [2272, 2499, 2749, 3024, 3327, 3660, 4026, 4428, 4871, 5358]
    + [5894, 6484, 7132, 7845, 8630, 9493, 10442, 11487, 12635, 13899]
    + [15289, 16818, 18500, 20350, 22385, 24623, 27086, 29794, 32767]

  type Index = i: int | 0 <= i <= 88
  type Nibble = c: int | 0 <= c < 16

  function StepAt(i: Index): Step { STEP_TABLE[i] }

  function MoveOf(code: Nibble): IndexMove { INDEX_TABLE[code] }

  /** The state both sides keep: `predict` and `predict_idx`. */
  datatype Coder = Coder(predict: s16, index: Index)

  function ClampSample(p: int): s16 {
    if p > 32767 then 32767 else if p < -32768 then -32768 else p
  }

  function ClampIndex(i: int): Index {
    if i < 0 then 0 else if i > 88 then 88 else i
  }

  /** What the encoder's loop over `j = 4, 2, 1` leaves in `diff`, `diffq`, `code` and `step`. */
  datatype Quant = Quant(diff: int, diffq: int, code: int, step: int)

  /** One round of that loop. */
  function QuantRound(j: nat, q: Quant): Quant {
    if q.diff >= q.step then Quant(q.diff - q.step, q.diffq + q.step, q.code + j, q.step / 2)
    else q.(step := q.step / 2)
  }

  function QuantLoop(j: nat, q: Quant): Quant {
    if j == 0 then q else QuantLoop(j / 2, QuantRound(j, q))
  }

  lemma LoopRound(j: nat, q: Quant)
    ensures QuantLoop(j, q) == if j == 0 then q else QuantLoop(j / 2, QuantRound(j, q))
  {
  }

  lemma ThreeRounds(q: Quant)
    ensures QuantLoop(4, q) == QuantRound(1, QuantRound(2, QuantRound(4, q)))
  {
    var q2 := QuantRound(2, QuantRound(4, q));
    assert QuantLoop(4, q) == QuantLoop(2, QuantRound(4, q)) == QuantLoop(1, q2) == QuantLoop(0, QuantRound(1, q2));
  }

  function StartQuant(diff: int, step: Step): Quant {
    if diff >= 0 then Quant(diff, step / 8, 0, step) else Quant(-diff, step / 8, 8, step)
  }

  /** The nibble and the quantised difference that the encoder chooses for a sample. */
  function Quantise(c: Coder, sample: s16): (q: Quant)
    ensures 0 <= q.code < 16
    ensures q.code >= 8 <==> sample < c.predict
  {
    ThreeRounds(StartQuant(sample - c.predict, StepAt(c.index)));
    QuantLoop(4, StartQuant(sample - c.predict, StepAt(c.index)))
  }

  /** The encoder's update, from the quantised difference it accumulated. */
  function EncodeStep(c: Coder, sample: s16): Coder {
    var q := Quantise(c, sample);
    Coder(ClampSample(if q.code >= 8 then c.predict - q.diffq else c.predict + q.diffq),
          ClampIndex(c.index + MoveOf(q.code)))
  }

  /** The decoder's difference, rebuilt from the bits of the nibble. */
  function Rebuild(code: Nibble, step: Step): int {
    step / 8 + (if And(code, 4) != 0 then step else 0)
             + (if And(code, 2) != 0 then step / 2 else 0)
             + (if And(code, 1) != 0 then step / 2 / 2 else 0)
  }

  function DecodeStep(c: Coder, code: Nibble): Coder {
    var diffq := Rebuild(code, StepAt(c.index));
    Coder(ClampSample(if And(code, 8) != 0 then c.predict - diffq else c.predict + diffq),
          ClampIndex(c.index + MoveOf(code)))
  }

  /** Encoder and decoder agree on every sample from every state. */
  lemma SameStep(c: Coder, sample: s16)
    ensures DecodeStep(c, Quantise(c, sample).code) == EncodeStep(c, sample)
  {
    hide StepAt, MoveOf, Rebuild;
    SameDifference(sample - c.predict, StepAt(c.index));
  }

  lemma SameDifference(diff: int, step: Step)
    ensures var q := QuantLoop(4, StartQuant(diff, step));
            0 <= q.code < 16 && q.diffq == Rebuild(q.code, step) && (And(q.code, 8) != 0 <==> q.code >= 8)
  {
    var q0 := StartQuant(diff, step);
    ThreeRounds(q0);
    var q4 := QuantRound(4, q0);
    var q2 := QuantRound(2, q4);
    var q1 := QuantRound(1, q2);
    assert q1.code == Pack(diff < 0, q0.diff >= step, q4.diff >= step / 2, q2.diff >= step / 2 / 2);
    PackBits(diff < 0, q0.diff >= step, q4.diff >= step / 2, q2.diff >= step / 2 / 2);
  }

  function Pack(b8: bool, b4: bool, b2: bool, b1: bool): Nibble {
    (if b8 then 8 else 0) + (if b4 then 4 else 0) + (if b2 then 2 else 0) + (if b1 then 1 else 0)
  }

  lemma PackBits(b8: bool, b4: bool, b2: bool, b1: bool)
    ensures var code := Pack(b8, b4, b2, b1);
            && (And(code, 8) != 0 <==> b8) && (And(code, 4) != 0 <==> b4)
            && (And(code, 2) != 0 <==> b2) && (And(code, 1) != 0 <==> b1)
            && (code >= 8 <==> b8)
  {
    AndOneBit(Pack(b8, b4, b2, b1));
  }

  function Codes(c: Coder, samples: seq<s16>): (codes: seq<Nibble>)
    ensures |codes| == |samples|
    decreases |samples|
  {
    if samples == [] then []
    else [Quantise(c, samples[0]).code] + Codes(EncodeStep(c, samples[0]), samples[1..])
  }

  /** The state after encoding all samples. */
  function Encoded(c: Coder, samples: seq<s16>): Coder
    decreases |samples|
  {
    if samples == [] then c else Encoded(EncodeStep(c, samples[0]), samples[1..])
  }

  /** The encoder's own predictor after each sample. */
  function Tracked(c: Coder, samples: seq<s16>): (ps: seq<s16>)
    ensures |ps| == |samples|
    decreases |samples|
  {
    if samples == [] then []
    else var d := EncodeStep(c, samples[0]); [d.predict] + Tracked(d, samples[1..])
  }

  /** The state after decoding all nibbles. */
  function Decoded(c: Coder, codes: seq<Nibble>): Coder
    decreases |codes|
  {
    if codes == [] then c else Decoded(DecodeStep(c, codes[0]), codes[1..])
  }

  /** The samples the decoder outputs. */
  function Replayed(c: Coder, codes: seq<Nibble>): (ps: seq<s16>)
    ensures |ps| == |codes|
    decreases |codes|
  {
    if codes == [] then []
    else var d := DecodeStep(c, codes[0]); [d.predict] + Replayed(d, codes[1..])
  }

  lemma {:induction false} SameRun(c: Coder, samples: seq<s16>)
    ensures Replayed(c, Codes(c, samples)) == Tracked(c, samples)
    ensures Decoded(c, Codes(c, samples)) == Encoded(c, samples)
    decreases |samples|
  {
    if samples != [] {
      SameStep(c, samples[0]);
      SameRun(EncodeStep(c, samples[0]), samples[1..]);
      assert Codes(c, samples)[1..] == Codes(EncodeStep(c, samples[0]), samples[1..]);
    }
  }
}

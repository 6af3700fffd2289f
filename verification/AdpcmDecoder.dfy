/**
 `adpcm_to_pcm` of `adpcm.c`: the decoder's own loop, which keeps one byte of nibbles in a
 register and reads the next byte ahead of its use.
*/
module AdpcmDecoder {
  import opened Bits
  import opened Adpcm
  import opened AdpcmPacking
  import opened AdpcmFrames

  /** `((code >> 4) & 0x0f) | ((code << 4) & 0xf0)` */
  function ExchangeNibbles(code: u8): (r: u8)
    ensures r == SwapByte(code)
  {
    ExchangeFields(code);
    Or(And(code / 16, 0x0f), And(code * 16, 0xf0))
  }

  lemma ExchangeFields(code: u8)
    ensures Or(And(code / 16, 0x0f), And(code * 16, 0xf0)) == SwapByte(code)
  {
    hide And, Or;
    var h, l := code / 16, code % 16;
    LowNibble(h);
    LowNibble(code);
    assert h % 16 == h;
    AndNibbleUp(code * 16, 0x0f);
    assert code * 16 / 16 == code;
    assert And(code * 16, 0xf0) == 16 * l;
    OrZeroLeft(l, h);
  }

  /** The decoder's step on the whole register: only its low nibble is looked at. */
  method DecodeOne(c: Coder, code: u8) returns (d: Coder)
    ensures d == DecodeStep(c, code % 16)
  {
    hide StepAt, MoveOf;
    RegisterBits(code);
    var step: int := StepAt(c.index);
    var diffq := step / 8;
    if And(code, 4) != 0 {
      diffq := diffq + step;
    }
    step := step / 2;
    if And(code, 2) != 0 {
      diffq := diffq + step;
    }
    step := step / 2;
    if And(code, 1) != 0 {
      diffq := diffq + step;
    }
    assert diffq == Rebuild(code % 16, StepAt(c.index));
    var predict: int := if And(code, 8) != 0 then c.predict - diffq else c.predict + diffq;
    if predict > 32767 {
      predict := 32767;
    } else if predict < -32768 {
      predict := -32768;
    }
    var index: int := c.index + MoveOf(And(code, 15));
    if index < 0 {
      index := 0;
    } else if index > 88 {
      index := 88;
    }
    d := Coder(predict, index);
  }

  lemma RegisterBits(code: u8)
    ensures And(code, 15) == code % 16
    ensures And(code, 1) == And(code % 16, 1) && And(code, 2) == And(code % 16, 2)
    ensures And(code, 4) == And(code % 16, 4) && And(code, 8) == And(code % 16, 8)
  {
    hide And;
    LowNibble(code);
    AndOneBit(code);
    AndOneBit(code % 16);
    LowBits(code / 16, code % 16);
  }

  lemma LowBits(h: nat, l: nat)
    requires l < 16
    ensures var x := 16 * h + l;
            x % 2 == l % 2 && x / 2 % 2 == l / 2 % 2 && x / 4 % 2 == l / 4 % 2 && x / 8 % 2 == l / 8 % 2
  {
    var x := 16 * h + l;
    assert x % 2 == l % 2 by { Turns(l, 2, 8 * h); }
    assert x / 2 % 2 == l / 2 % 2 by {
      DivModUnique(x, 2, 8 * h + l / 2, l % 2);
      Turns(l / 2, 2, 4 * h);
    }
    assert x / 4 % 2 == l / 4 % 2 by {
      DivModUnique(x, 4, 4 * h + l / 4, l % 4);
      Turns(l / 4, 2, 2 * h);
    }
    assert x / 8 % 2 == l / 8 % 2 by {
      DivModUnique(x, 8, 2 * h + l / 8, l % 8);
      Turns(l / 8, 2, h);
    }
  }

  /** The register before sample `i`. */
  function Register(bytes: seq<u8>, i: nat, swap: bool): u8
    requires i / 2 < |bytes|
  {
    var b := if swap then SwapByte(bytes[i / 2]) else bytes[i / 2];
    if i % 2 == 0 then b else b / 16
  }

  /** The sample loop. One byte past the last nibble is read, so it must exist. */
  method DecodeSamples(c0: Coder, bytes: seq<u8>, len: nat, swap: bool, pd: array<s16>) returns (c: Coder)
    requires len / 2 < |bytes| && len <= pd.Length
    modifies pd
    ensures c == Decoded(c0, Unpacked(bytes, len, swap))
    ensures pd[..len] == Replayed(c0, Unpacked(bytes, len, swap))
    ensures pd[len..] == old(pd[len..])
  {
    hide DecodeStep, Decoded, Replayed, SwapByte;
    ghost var codes := Unpacked(bytes, len, swap);
    c := c0;
    var pcode := 0;
    var code := bytes[pcode];
    pcode := pcode + 1;
    if swap {
      code := ExchangeNibbles(code);
    }
    NothingDecoded(c0, codes);
    var i := 0;
    while i < len
      invariant 0 <= i <= len && pcode == i / 2 + 1
      invariant code == Register(bytes, i, swap)
      invariant c == Decoded(c0, codes[..i]) && pd[..i] == Replayed(c0, codes[..i])
      invariant pd[len..] == old(pd[len..])
    {
      assert codes[i] == code % 16;
      c := DecodeOne(c, code);
      OneMoreDecoded(c0, codes, i);
      if i % 2 == 1 {
        code := bytes[pcode];
        pcode := pcode + 1;
        if swap {
          code := ExchangeNibbles(code);
        }
      } else {
        code := code / 16;
      }
      pd[i] := c.predict;
      i := i + 1;
    }
    assert codes[..i] == codes;
  }

  lemma NothingDecoded(c: Coder, codes: seq<Nibble>)
    ensures Decoded(c, codes[..0]) == c && Replayed(c, codes[..0]) == []
  {
  }

  lemma OneMoreDecoded(c: Coder, codes: seq<Nibble>, i: nat)
    requires i < |codes|
    ensures Decoded(c, codes[..i + 1]) == DecodeStep(Decoded(c, codes[..i]), codes[i])
    ensures Replayed(c, codes[..i + 1]) == Replayed(c, codes[..i]) + [Decoded(c, codes[..i + 1]).predict]
  {
    hide DecodeStep;
    assert codes[..i + 1] == codes[..i] + [codes[i]];
    DecodedAppend(c, codes[..i], codes[i]);
  }

  lemma {:induction false} DecodedAppend(c: Coder, codes: seq<Nibble>, code: Nibble)
    ensures var d := DecodeStep(Decoded(c, codes), code);
            Decoded(c, codes + [code]) == d && Replayed(c, codes + [code]) == Replayed(c, codes) + [d.predict]
    decreases |codes|
  {
    hide DecodeStep;
    if codes == [] {
      assert codes + [code] == [code] && [code][1..] == [];
      assert Decoded(DecodeStep(c, code), []) == DecodeStep(c, code);
      assert Replayed(DecodeStep(c, code), []) == [];
    } else {
      assert (codes + [code])[1..] == codes[1..] + [code];
      DecodedAppend(DecodeStep(c, codes[0]), codes[1..], code);
    }
  }

  /** The Telink build and the Google build of version 0.4: the state comes from the frame. */
  method FrameToPcm(h: Header, ps: seq<u8>, pd: array<s16>, len: nat)
    requires Readable(h, ps, len) && HeaderLength(h) + len / 2 < |ps| && len <= pd.Length
    modifies pd
    ensures pd[..len] == DecodeFrame(h, ps, len)
    ensures pd[len..] == old(pd[len..])
  {
    hide Unpacked, Replayed, Decoded, LoadHeader;
    var c := LoadHeader(h, ps);
    c := DecodeSamples(c, ps[HeaderLength(h)..], len, h.Google?, pd);
  }

  /** The globals of the HID build and of the Google build of version 1.0. */
  class Decoder {
    var predict: s16
    var predictIdx: Index

    function State(): Coder
      reads this
    {
      Coder(predict, predictIdx)
    }

    constructor ()
      ensures State() == Coder(0, 0)
    {
      predict, predictIdx := 0, 0;
    }

    method BareToPcm(ps: seq<u8>, pd: array<s16>, len: nat)
      requires len / 2 < |ps| && len <= pd.Length
      modifies this, pd
      ensures State() == Decoded(old(State()), Unpacked(ps, len, true))
      ensures pd[..len] == Replayed(old(State()), Unpacked(ps, len, true))
      ensures pd[len..] == old(pd[len..])
    {
      hide Unpacked, Replayed, Decoded;
      var c := DecodeSamples(State(), ps, len, true, pd);
      predict, predictIdx := c.predict, c.index;
    }
  }
}

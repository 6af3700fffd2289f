/**
 Nibbles to bytes and back in `adpcm.c`: the 16-bit shift register of the encoder, the
 nibble exchange of the Google and HID builds, and the frames with and without header.
*/
module AdpcmPacking {
  import opened Bits
  import opened Adpcm

  function SwapByte(b: u8): u8 { b % 16 * 16 + b / 16 }

  /** Two nibbles to a byte, first sample low; the Google and HID builds exchange them. */
  function PackByte(first: Nibble, second: Nibble, swap: bool): u8 {
    if swap then first * 16 + second else first + second * 16
  }

  function Packed(codes: seq<Nibble>, swap: bool): (bytes: seq<u8>)
    ensures |bytes| == |codes| / 2
  {
    seq(|codes| / 2, k requires 0 <= k < |codes| / 2 => PackByte(codes[2 * k], codes[2 * k + 1], swap))
  }

  /** The nibble that the decoder's register shows for sample `i`. */
  function NibbleAt(bytes: seq<u8>, i: nat, swap: bool): Nibble
    requires i / 2 < |bytes|
  {
    var b := if swap then SwapByte(bytes[i / 2]) else bytes[i / 2];
    if i % 2 == 0 then b % 16 else b / 16
  }

  function Unpacked(bytes: seq<u8>, len: nat, swap: bool): (codes: seq<Nibble>)
    requires len <= 2 * |bytes|
    ensures |codes| == len
  {
    seq(len, i requires 0 <= i < len => NibbleAt(bytes, i, swap))
  }

  lemma UnpackPacked(codes: seq<Nibble>, swap: bool, tail: seq<u8>)
    requires |codes| % 2 == 0
    ensures Unpacked(Packed(codes, swap) + tail, |codes|, swap) == codes
  {
    forall i | 0 <= i < |codes|
      ensures NibbleAt(Packed(codes, swap) + tail, i, swap) == codes[i]
    {
      PackedNibble(codes[i / 2 * 2], codes[i / 2 * 2 + 1]);
    }
  }

  lemma PackedNibble(a: Nibble, b: Nibble)
    ensures SwapByte(PackByte(a, b, true)) == PackByte(a, b, false) == a + 16 * b
    ensures PackByte(a, b, true) == SwapByte(a + 16 * b)
    ensures (a + 16 * b) % 16 == a && (a + 16 * b) / 16 == b
  {
    DivModUnique(a + 16 * b, 16, b, a);
    DivModUnique(a * 16 + b, 16, a, b);
  }

  // The encoder's register

  /** `(code16 >> 4) | (code << 12)` */
  function PushNibble(code16: u16, code: Nibble): (r: u16)
    ensures r == code16 / 16 + code * 0x1000
  {
    NibbleOr(code, code16 / 16);
    Or(code16 / 16, code * 0x1000)
  }

  lemma NibbleOr(code: Nibble, low: nat)
    requires low < 0x1000
    ensures Or(low, code * 0x1000) == low + code * 0x1000
  {
    var p := Pow2(12);
    assert p == 0x1000 by { Pow2Values(); Pow2Add(8, 4); }
    OrDisjoint(code * 0x1000, low, 12);
    OrCommutes(low, code * 0x1000);
  }

  /** What a word of four nibbles becomes in the Google and HID builds. */
  function SwapWord(w: u16): int {
    Or(Or(Or(And(w, 0x0f) * 16, And(w, 0xf0) / 16), And(w, 0x0f00) * 16), And(w, 0xf000) / 16)
  }

  lemma SwapWordNibbles(w: u16)
    ensures SwapWord(w) == SwapByte(w % 0x100) + SwapByte(w / 0x100) * 0x100
  {
    var n0, n1, n2, n3 := w % 16, w / 16 % 16, w / 0x100 % 16, w / 0x1000;
    FieldMask0(w);
    FieldMask1(w);
    FieldMask2(w);
    FieldMask3(w);
    assert SwapWord(w) == Or(Or(Or(n0 * 16, n1), n2 * 0x1000), n3 * 0x100);
    OrFields(n0, n1, n2, n3);
    NibblesOfWord(w);
  }

  lemma NibblesOfWord(w: u16)
    ensures w % 0x100 % 16 == w % 16 && w % 0x100 / 16 == w / 16 % 16
    ensures w / 0x100 / 16 == w / 0x1000
  {
    var low, high := w % 0x100, w / 0x100;
    DivModUnique(w, 16, 16 * high + low / 16, low % 16);
    DivModUnique(w / 16, 16, high, low / 16);
    DivModUnique(w, 0x1000, high / 16, high % 16 * 0x100 + low);
  }

  /** The three disjunctions of the exchange never meet. */
  lemma OrFields(n0: Nibble, n1: Nibble, n2: Nibble, n3: Nibble)
    ensures Or(Or(Or(n0 * 16, n1), n2 * 0x1000), n3 * 0x100) == n0 * 16 + n1 + n3 * 0x100 + n2 * 0x1000
  {
    var low := n0 * 16 + n1;
    assert Or(n0 * 16, n1) == low by {
      OrZeroLeft(n0, n1);
    }
    assert Or(low, n2 * 0x1000) == n2 * 0x1000 + low by { NibbleOr(n2, low); }
    OrThirdField(n0, n1, n2, n3);
  }

  lemma OrThirdField(n0: Nibble, n1: Nibble, n2: Nibble, n3: Nibble)
    ensures Or(n2 * 0x1000 + (n0 * 16 + n1), n3 * 0x100) == n2 * 0x1000 + (n0 * 16 + n1) + n3 * 0x100
  {
    hide Or;
    var all, top := n2 * 0x1000 + (n0 * 16 + n1), n3 * 0x100;
    var mid := 16 * (16 * n2) + n0;
    OrZeroLeft(n2, n3);
    assert Or(16 * n3, mid) == 16 * (16 * n2 + n3) + n0 by { OrNibbleUp(n3, 16 * n2, n0); }
    assert all == 16 * mid + n1 && top == 16 * (16 * n3);
    OrNibbleUp(16 * n3, mid, n1);
    OrCommutes(all, top);
  }

  /** `a | b` for a word with an empty low nibble and a nibble. */
  lemma OrZeroLeft(a: Nibble, b: Nibble)
    ensures Or(16 * a, b) == 16 * a + b && Or(b, 16 * a) == 16 * a + b
  {
    OrCommutes(16 * a, b);
    OrNibbleUp(a, 0, b);
    OrZero(a);
  }

  lemma FieldMask0(w: u16)
    ensures And(w, 0x0f) == w % 16
  {
    LowNibble(w);
  }

  lemma FieldMask1(w: u16)
    ensures And(w, 0xf0) / 16 == w / 16 % 16
  {
    AndNibbleUp(w, 0x0f);
    LowNibble(w / 16);
  }

  lemma FieldMask2(w: u16)
    ensures And(w, 0x0f00) * 16 == w / 0x100 % 16 * 0x1000
  {
    AndNibbleUp(w, 0xf0);
    AndNibbleUp(w / 16, 0x0f);
    assert w / 16 / 16 == w / 0x100;
    LowNibble(w / 0x100);
  }

  lemma FieldMask3(w: u16)
    ensures And(w, 0xf000) / 16 == w / 0x1000 * 0x100
  {
    hide And;
    AndNibbleUp(w, 0x0f00);
    var y := w / 16;
    FieldMask2(y);
    assert And(y, 0x0f00) * 16 == y / 0x100 % 16 * 0x1000;
  }

  lemma LowNibble(x: nat)
    ensures And(x, 0x0f) == x % 16
  {
    assert Pow2(4) == 16 by { Pow2Values(); }
    AndLowMask(x, 4);
  }
}

/**
 Frames of the three audio builds: what a receiver recovers from one frame, from a stream
 with losses, from a stream without headers, and from a decoder that clamps differently.
*/
module AdpcmFrames {
  import opened Bits
  import opened Adpcm
  import opened AdpcmPacking

  // Frames with a header: the Telink build and the Google build of version 0.4

  datatype Header = Telink | Google(serial: u16)

  /** The two bytes of a 16-bit store, low byte first. */
  function StoreWord(w: u16): seq<u8> { [w % 0x100, w / 0x100] }

  /** `ADPCM_PACKET_LEN - 4` */
  const TELINK_DATA_LEN: u8 := 124

  function HeaderBytes(h: Header, c: Coder): (bytes: seq<u8>)
    ensures |bytes| == HeaderLength(h)
  {
    var p := Wrap16(c.predict);
    match h
    case Telink => StoreWord(p) + [c.index, TELINK_DATA_LEN]
    case Google(serial) => [serial / 0x100, serial % 0x100] + [0, p / 0x100] + [p % 0x100, c.index]
  }

  function HeaderLength(h: Header): nat { if h.Telink? then 4 else 6 }

  /** What a decoder needs of a frame: the header, a table index, and bytes for `len` samples. */
  predicate Readable(h: Header, frame: seq<u8>, len: nat) {
    && |frame| >= HeaderLength(h)
    && len <= 2 * (|frame| - HeaderLength(h))
    && (if h.Telink? then frame[2] else frame[5]) <= 88
  }

  /** The state that the decoders of `adpcm.c` load from the header. */
  function LoadHeader(h: Header, frame: seq<u8>): Coder
    requires Readable(h, frame, 0)
  {
    if h.Telink? then Coder(Signed16(WordOf(frame[0], frame[1])), frame[2])
    else Coder(Signed16(WordOf(frame[4], frame[3])), frame[5])
  }

  function WordOf(low: u8, high: u8): u16 {
    var l: int := low;
    var h: int := high;
    h * 0x100 + l
  }

  function Frame(h: Header, c: Coder, samples: seq<s16>): seq<u8> {
    HeaderBytes(h, c) + Packed(Codes(c, samples), h.Google?)
  }

  function DecodeFrame(h: Header, frame: seq<u8>, len: nat): seq<s16>
    requires Readable(h, frame, len)
  {
    Replayed(LoadHeader(h, frame), Unpacked(frame[HeaderLength(h)..], len, h.Google?))
  }

  predicate DecodesTo(h: Header, frame: seq<u8>, len: nat, pcm: seq<s16>) {
    Readable(h, frame, len) && DecodeFrame(h, frame, len) == pcm
  }

  lemma HeaderLoads(h: Header, c: Coder, rest: seq<u8>)
    ensures Readable(h, HeaderBytes(h, c) + rest, 0)
    ensures LoadHeader(h, HeaderBytes(h, c) + rest) == c
  {
    var p := Wrap16(c.predict);
    assert Signed16(WordOf(p % 0x100, p / 0x100)) == c.predict;
  }

  /** A frame alone gives back the encoder's own predictors, whatever follows it in memory. */
  lemma FrameDecodes(h: Header, c: Coder, samples: seq<s16>, tail: seq<u8>)
    requires |samples| % 4 == 0
    ensures DecodesTo(h, Frame(h, c, samples) + tail, |samples|, Tracked(c, samples))
  {
    hide *;
    var codes := Codes(c, samples);
    EvenCodes(|samples|);
    FrameIs(h, c, samples);
    FrameParts(h, c, codes, tail);
    UnpackPacked(codes, h.Google?, tail);
    SameRun(c, samples);
    PartsDecode(h, Frame(h, c, samples) + tail, codes, Packed(codes, h.Google?) + tail);
  }

  lemma EvenCodes(n: nat)
    requires n % 4 == 0
    ensures n % 2 == 0
  {
    DivModUnique(n, 2, 2 * (n / 4), 0);
  }

  lemma FrameIs(h: Header, c: Coder, samples: seq<s16>)
    ensures Frame(h, c, samples) == HeaderBytes(h, c) + Packed(Codes(c, samples), h.Google?)
  {
  }

  lemma PartsDecode(h: Header, f: seq<u8>, codes: seq<Nibble>, data: seq<u8>)
    requires Readable(h, f, |codes|) && f[HeaderLength(h)..] == data && Unpacked(data, |codes|, h.Google?) == codes
    ensures DecodesTo(h, f, |codes|, Replayed(LoadHeader(h, f), codes))
  {
    hide Replayed, Unpacked, LoadHeader;
  }

  lemma FrameParts(h: Header, c: Coder, codes: seq<Nibble>, tail: seq<u8>)
    requires |codes| % 2 == 0
    ensures var f := HeaderBytes(h, c) + Packed(codes, h.Google?) + tail;
            && Readable(h, f, |codes|)
            && LoadHeader(h, f) == c
            && f[HeaderLength(h)..] == Packed(codes, h.Google?) + tail
  {
    var head, data := HeaderBytes(h, c), Packed(codes, h.Google?) + tail;
    assert head + Packed(codes, h.Google?) + tail == head + data;
    HeaderLoads(h, c, data);
  }

  function Flat(blocks: seq<seq<s16>>): seq<s16> {
    if blocks == [] then [] else blocks[0] + Flat(blocks[1..])
  }

  /** The header of the following call: the Google build counts its serial number up. */
  function Next(h: Header): Header { if h.Telink? then Telink else Google(Wrap16(h.serial + 1)) }

  /** The frames an encoder sends for consecutive blocks; every header records the state at its start. */
  function Stream(h: Header, c: Coder, blocks: seq<seq<s16>>): (frames: seq<seq<u8>>)
    ensures |frames| == |blocks|
    decreases |blocks|
  {
    if blocks == [] then []
    else [Frame(h, c, blocks[0])] + Stream(Next(h), Encoded(c, blocks[0]), blocks[1..])
  }

  /** Any frame of a stream decodes to its own part of the encoder's track, whichever others were lost. */
  lemma {:induction false} LossyStream(h: Header, c: Coder, blocks: seq<seq<s16>>, k: nat, tail: seq<u8>)
    requires k < |blocks|
    requires forall b | b in blocks :: |b| % 4 == 0
    ensures var at, track := |Flat(blocks[..k])|, Tracked(c, Flat(blocks));
            && at + |blocks[k]| <= |track|
            && DecodesTo(h, Stream(h, c, blocks)[k] + tail, |blocks[k]|, track[at..at + |blocks[k]|])
    decreases k
  {
    hide *;
    var first, rest := blocks[0], blocks[1..];
    var d := Encoded(c, first);
    StreamCons(h, c, blocks);
    var head, track := Tracked(c, first), Tracked(d, Flat(rest));
    if k == 0 {
      FrameDecodes(h, c, first, tail);
      FlatTake(blocks, 0);
      assert (head + track)[..|first|] == head;
    } else {
      LossyStream(Next(h), d, rest, k - 1, tail);
      var at, len := |Flat(rest[..k - 1])|, |rest[k - 1]|;
      SerialIgnored(h, Stream(Next(h), d, rest)[k - 1] + tail, len, track[at..at + len]);
      FlatTake(blocks, k);
      SliceOfSecond(head, track, |Flat(rest[..k - 1])|, |blocks[k]|);
    }
  }

  /** The decoder does not look at the serial number. */
  lemma SerialIgnored(h: Header, frame: seq<u8>, len: nat, pcm: seq<s16>)
    ensures DecodesTo(Next(h), frame, len, pcm) <==> DecodesTo(h, frame, len, pcm)
  {
  }

  lemma StreamCons(h: Header, c: Coder, blocks: seq<seq<s16>>)
    requires blocks != []
    ensures Stream(h, c, blocks) == [Frame(h, c, blocks[0])] + Stream(Next(h), Encoded(c, blocks[0]), blocks[1..])
    ensures Tracked(c, Flat(blocks)) == Tracked(c, blocks[0]) + Tracked(Encoded(c, blocks[0]), Flat(blocks[1..]))
  {
    TrackedAppend(c, blocks[0], Flat(blocks[1..]));
  }

  lemma FlatTake(blocks: seq<seq<s16>>, k: nat)
    requires k < |blocks|
    ensures |Flat(blocks[..k])| == if k == 0 then 0 else |blocks[0]| + |Flat(blocks[1..][..k - 1])|
  {
    if k > 0 {
      assert blocks[..k][1..] == blocks[1..][..k - 1];
    }
  }

  lemma SliceOfSecond<T>(a: seq<T>, b: seq<T>, at: nat, len: nat)
    requires at + len <= |b|
    ensures (a + b)[|a| + at..|a| + at + len] == b[at..at + len]
  {
  }

  lemma {:induction false} TrackedAppend(c: Coder, a: seq<s16>, b: seq<s16>)
    ensures Tracked(c, a + b) == Tracked(c, a) + Tracked(Encoded(c, a), b)
    ensures Codes(c, a + b) == Codes(c, a) + Codes(Encoded(c, a), b)
    ensures Encoded(c, a + b) == Encoded(Encoded(c, a), b)
    decreases |a|
  {
    hide EncodeStep, Quantise;
    if a == [] {
      assert a + b == b;
    } else {
      assert (a + b)[1..] == a[1..] + b;
      TrackedAppend(EncodeStep(c, a[0]), a[1..], b);
    }
  }

  // Frames without header: the HID build and the Google build of version 1.0

  function BareStream(c: Coder, blocks: seq<seq<s16>>): (frames: seq<seq<u8>>)
    ensures |frames| == |blocks|
    decreases |blocks|
  {
    if blocks == [] then []
    else [Packed(Codes(c, blocks[0]), true)] + BareStream(Encoded(c, blocks[0]), blocks[1..])
  }

  /** A decoder that keeps its state from frame to frame. */
  function BareDecode(c: Coder, frames: seq<seq<u8>>): seq<s16>
    decreases |frames|
  {
    if frames == [] then []
    else
      var codes := Unpacked(frames[0], 2 * |frames[0]|, true);
      Replayed(c, codes) + BareDecode(Decoded(c, codes), frames[1..])
  }

  lemma {:induction false} BareStreamDecodes(c: Coder, blocks: seq<seq<s16>>)
    requires forall b | b in blocks :: |b| % 4 == 0
    ensures BareDecode(c, BareStream(c, blocks)) == Tracked(c, Flat(blocks))
    decreases |blocks|
  {
    hide Packed, Unpacked, Replayed, Decoded, Codes, Encoded, EncodeStep, DecodeStep, Quantise;
    if blocks != [] {
      var codes := Codes(c, blocks[0]);
      UnpackPacked(codes, true, []);
      assert Packed(codes, true) + [] == Packed(codes, true);
      SameRun(c, blocks[0]);
      TrackedAppend(c, blocks[0], Flat(blocks[1..]));
      BareStreamDecodes(Encoded(c, blocks[0]), blocks[1..]);
      assert BareStream(c, blocks)[1..] == BareStream(Encoded(c, blocks[0]), blocks[1..]);
    }
  }

  /**
   Version 1.0 of the Google build starts its encoder at index 1 and its decoder at index 0:
   the first decoded sample is already wrong, so the two agree on the empty stream only.
  */
  lemma ColdStartMismatch(samples: seq<s16>)
    ensures Replayed(Coder(0, 0), Codes(Coder(0, 1), samples)) == Tracked(Coder(0, 1), samples) <==> samples == []
  {
    if samples != [] {
      var code := Quantise(Coder(0, 1), samples[0]).code;
      SameStep(Coder(0, 1), samples[0]);
      ColdRebuild(code);
      assert STEP_TABLE[0] == 7 && STEP_TABLE[1] == 8;
      assert Replayed(Coder(0, 0), Codes(Coder(0, 1), samples))[0] == DecodeStep(Coder(0, 0), code).predict;
    }
  }

  lemma ColdRebuild(code: Nibble)
    ensures 0 <= Rebuild(code, 7) < Rebuild(code, 8) <= 15
  {
  }

  // The decoder of `vendor/common/tl_audio.c`

  /** Same step, but the predictor is kept above -32768. */
  function VendorStep(c: Coder, code: Nibble): Coder {
    var d := DecodeStep(c, code);
    if d.predict == -32768 then d.(predict := -32767) else d
  }

  function VendorReplayed(c: Coder, codes: seq<Nibble>): (ps: seq<s16>)
    ensures |ps| == |codes|
    decreases |codes|
  {
    if codes == [] then []
    else var d := VendorStep(c, codes[0]); [d.predict] + VendorReplayed(d, codes[1..])
  }

  /** It follows the encoder exactly when the encoder's predictor never reaches the bottom of the range. */
  lemma {:induction false} VendorAgrees(c: Coder, samples: seq<s16>)
    ensures VendorReplayed(c, Codes(c, samples)) == Tracked(c, samples) <==> -32768 !in Tracked(c, samples)
    decreases |samples|
  {
    if samples != [] {
      SameStep(c, samples[0]);
      var d := EncodeStep(c, samples[0]);
      var codes := Codes(c, samples);
      assert codes[1..] == Codes(d, samples[1..]);
      assert VendorReplayed(c, codes)[0] != -32768;
      if d.predict != -32768 {
        VendorAgrees(d, samples[1..]);
        assert VendorReplayed(c, codes)[1..] == VendorReplayed(d, codes[1..]);
        assert Tracked(c, samples)[1..] == Tracked(d, samples[1..]);
      } else {
        assert Tracked(c, samples)[0] == -32768;
      }
    }
  }

  /** A held sample at the bottom of the range, from rest there. */
  lemma VendorDiffers()
    ensures var c, samples := Coder(-32768, 0), [-32768];
            Tracked(c, samples) == [-32768] && VendorReplayed(c, Codes(c, samples)) == [-32767]
  {
    var c, samples := Coder(-32768, 0), [-32768];
    assert STEP_TABLE[0] == 7;
    assert EncodeStep(c, -32768).predict == -32768;
    SameStep(c, -32768);
    hide EncodeStep, DecodeStep, Quantise;
    assert samples[1..] == [] && Codes(c, samples) == [Quantise(c, -32768).code] + Codes(EncodeStep(c, -32768), []);
    assert Codes(c, samples)[1..] == [];
  }
}

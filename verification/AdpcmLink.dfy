/**
 Encoder and decoder of `adpcm.c` on the two ends of one frame buffer: what the calls of
 the sending side write, and what the receiving side makes of it.
*/
module AdpcmLink {
  import opened Bits
  import opened Adpcm
  import opened AdpcmFrames
  import opened AdpcmCodec
  import opened AdpcmDecoder

  /** The header of the next frame in the Google build of version 0.4 or in the Telink build. */
  function HeaderOf(google: bool, serial: u16): Header { if google then Google(serial) else Telink }

  /** One frame at the start of the buffer. */
  method SendFrame(e: Encoder, google: bool, ps: seq<s16>, out: array<u8>)
    requires |ps| % 4 == 0 && HeaderLength(HeaderOf(google, e.serial)) + |ps| / 4 * 2 <= out.Length
    modifies e, out
    ensures e.State() == Encoded(old(e.State()), ps)
    ensures HeaderOf(google, e.serial) == Next(HeaderOf(google, old(e.serial)))
    ensures Sent(out[..], e.pd, HeaderOf(google, old(e.serial)), old(e.State()), ps)
    ensures e.pd <= out.Length && out[..e.pd] == Frame(HeaderOf(google, old(e.serial)), old(e.State()), ps)
  {
    hide Frame, Encoded;
    if google {
      e.SplitGoogle(ps, out, 0, 1);
    } else {
      e.SplitTelink(ps, out, 0, true);
    }
  }

  ghost predicate Sent(out: seq<u8>, pd: nat, h: Header, c: Coder, ps: seq<s16>) {
    pd == HeaderLength(h) + |ps| / 4 * 2 && pd <= |out| && out[..pd] == Frame(h, c, ps)
  }

  /** Successive calls send the stream of frames of their blocks. */
  method SendAll(e: Encoder, google: bool, blocks: seq<seq<s16>>, out: array<u8>) returns (frames: seq<seq<u8>>)
    requires forall b | b in blocks :: |b| % 4 == 0 && 6 + |b| / 4 * 2 <= out.Length
    modifies e, out
    ensures frames == Stream(HeaderOf(google, old(e.serial)), old(e.State()), blocks)
    ensures e.State() == Encoded(old(e.State()), Flat(blocks))
  {
    hide Frame, Encoded, Stream, Flat, Next, Sent;
    frames := [];
    var i := 0;
    assert blocks[0..] == blocks;
    while i < |blocks|
      invariant 0 <= i <= |blocks|
      invariant frames + Stream(HeaderOf(google, e.serial), e.State(), blocks[i..]) ==
                Stream(HeaderOf(google, old(e.serial)), old(e.State()), blocks)
      invariant Encoded(e.State(), Flat(blocks[i..])) == Encoded(old(e.State()), Flat(blocks))
    {
      assert blocks[i] in blocks;
      OneMoreFrame(HeaderOf(google, e.serial), e.State(), blocks, i, frames);
      SendFrame(e, google, blocks[i], out);
      frames := frames + [out[..e.pd]];
      i := i + 1;
    }
    NoMoreFrames(HeaderOf(google, e.serial), e.State(), blocks, frames);
  }

  lemma OneMoreFrame(h: Header, c: Coder, blocks: seq<seq<s16>>, i: nat, frames: seq<seq<u8>>)
    requires i < |blocks|
    ensures frames + Stream(h, c, blocks[i..]) ==
            frames + [Frame(h, c, blocks[i])] + Stream(Next(h), Encoded(c, blocks[i]), blocks[i + 1..])
    ensures Encoded(c, Flat(blocks[i..])) == Encoded(Encoded(c, blocks[i]), Flat(blocks[i + 1..]))
  {
    hide Frame, Encoded, Codes, Tracked;
    assert blocks[i..][1..] == blocks[i + 1..];
    TrackedAppend(c, blocks[i], Flat(blocks[i + 1..]));
  }

  lemma NoMoreFrames(h: Header, c: Coder, blocks: seq<seq<s16>>, frames: seq<seq<u8>>)
    ensures frames + Stream(h, c, blocks[|blocks|..]) == frames
    ensures Encoded(c, Flat(blocks[|blocks|..])) == c
  {
  }

  /** One frame sent and decoded where it lies, with the one byte behind it that the decoder fetches. */
  method SendAndDecode(e: Encoder, google: bool, ps: seq<s16>, out: array<u8>, pd: array<s16>)
    requires |ps| % 4 == 0 && HeaderLength(HeaderOf(google, e.serial)) + |ps| / 4 * 2 < out.Length
    requires |ps| <= pd.Length
    modifies e, out, pd
    ensures pd[..|ps|] == Tracked(old(e.State()), ps) && pd[|ps|..] == old(pd[|ps|..])
    ensures e.State() == Encoded(old(e.State()), ps)
  {
    hide Frame, Encoded, Tracked, DecodeFrame, Readable;
    ghost var h, c := HeaderOf(google, e.serial), e.State();
    var header := HeaderOf(google, e.serial);
    SendFrame(e, google, ps, out);
    var frame := out[..e.pd + 1];
    ghost var slack := out[e.pd..e.pd + 1];
    assert frame == Frame(h, c, ps) + slack;
    FrameDecodes(h, c, ps, slack);
    HalfOf(|ps|);
    FrameToPcm(header, frame, pd, |ps|);
  }

  lemma HalfOf(n: nat)
    requires n % 4 == 0
    ensures n / 2 == n / 4 * 2
  {
    DivModUnique(n, 2, n / 4 * 2, 0);
  }
}

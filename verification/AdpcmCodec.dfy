/**
 The loops of `adpcm.c`: `mic_to_adpcm_split` in its three builds and `adpcm_to_pcm` in its
 three builds, over byte memory, proved against the frames of `AdpcmFrames`.
*/
module AdpcmCodec {
  import opened Bits
  import opened Adpcm
  import opened AdpcmPacking
  import opened AdpcmFrames

  /** The statics of the microphone side; `pd` is the output position kept between calls. */
  class Encoder {
    var predict: s16
    var predictIdx: Index
    var pd: nat
    var serial: u16

    function State(): Coder
      reads this
    {
      Coder(predict, predictIdx)
    }

    constructor (index: Index)
      ensures State() == Coder(0, index) && serial == 0
    {
      predict, predictIdx, pd, serial := 0, index, 0, 0;
    }

    /** The sign, the three thresholds and the accumulated difference of one sample. */
    method QuantiseSample(di: s16) returns (code: Nibble, diffq: int)
      ensures code == Quantise(State(), di).code && diffq == Quantise(State(), di).diffq
    {
      hide StepAt, QuantLoop;
      var step: int := StepAt(predictIdx);
      var diff := di - predict;
      var c := 0;
      if diff < 0 {
        diff := -diff;
        c := 8;
      }
      diffq := step / 8;
      ghost var start := StartQuant(di - predict, StepAt(predictIdx));
      ghost var q := Quant(diff, diffq, c, step);
      assert q == start;
      var j := 4;
      while j > 0
        invariant j >= 0 && q == Quant(diff, diffq, c, step)
        invariant QuantLoop(j, q) == QuantLoop(4, start)
      {
        LoopRound(j, q);
        q := QuantRound(j, q);
        if diff >= step {
          diff := diff - step;
          diffq := diffq + step;
          c := c + j;
        }
        step := step / 2;
        j := j / 2;
      }
      LoopRound(0, q);
      assert q == Quantise(State(), di);
      code := c;
    }

    /** One sample: the predictor moves by what the encoder itself accumulated. */
    method EncodeSample(di: s16) returns (code: Nibble)
      modifies this`predict, this`predictIdx
      ensures code == Quantise(old(State()), di).code
      ensures State() == EncodeStep(old(State()), di)
    {
      hide Quantise, MoveOf;
      var diffq;
      code, diffq := QuantiseSample(di);
      var p: int := if code >= 8 then predict - diffq else predict + diffq;
      if p > 32767 {
        p := 32767;
      } else if p < -32768 {
        p := -32768;
      }
      predict := p;
      var i: int := predictIdx + MoveOf(code);
      if i < 0 {
        i := 0;
      } else if i > 88 {
        i := 88;
      }
      predictIdx := i;
    }

    /** `*pd++ = code16`, after the nibble exchange where the build has it. */
    method StoreGroup(code16: u16, out: array<u8>, swap: bool)
      requires pd + 2 <= out.Length
      modifies this`pd, out
      ensures pd == old(pd) + 2
      ensures out[pd - 2] == (if swap then SwapByte(code16 % 0x100) else code16 % 0x100)
      ensures out[pd - 1] == (if swap then SwapByte(code16 / 0x100) else code16 / 0x100)
      ensures forall k | 0 <= k < out.Length && k != pd - 2 && k != pd - 1 :: out[k] == old(out[k])
    {
      var w: int := code16;
      if swap {
        SwapWordNibbles(code16);
        w := SwapWord(code16);
        DivModUnique(w, 0x100, SwapByte(code16 / 0x100), SwapByte(code16 % 0x100));
      }
      hide SwapWord, SwapByte;
      out[pd] := w % 0x100;
      out[pd + 1] := w / 0x100;
      pd := pd + 2;
    }

    /** The body of the sample loop: every fourth nibble completes the register, which is then stored. */
    method PutSample(i: nat, code16: u16, ghost codes: seq<Nibble>, di: s16, out: array<u8>, swap: bool)
        returns (code: Nibble, r: u16)
      requires Holds(code16, codes) && |codes| == i
      requires i % 4 == 3 ==> pd + 2 <= out.Length
      modifies this`pd, this`predict, this`predictIdx, out
      ensures code == Quantise(old(State()), di).code && State() == EncodeStep(old(State()), di)
      ensures Holds(r, codes + [code])
      ensures pd == old(pd) + if i % 4 == 3 then 2 else 0
      ensures i % 4 == 3 ==>
                GroupAt(out[..], pd - 2, codes + [code], swap) && SameBut(old(out[..]), out[..], pd - 2)
      ensures i % 4 != 3 ==> out[..] == old(out[..])
    {
      hide Quantise, EncodeStep, SwapByte, PackByte, Holds;
      code := EncodeSample(di);
      Pushed(code16, codes, code);
      r := PushNibble(code16, code);
      if i % 4 == 3 {
        FullGroup(r, codes + [code], swap);
        StoreGroup(r, out, swap);
      }
    }

    /** The sample loop; only complete groups of four nibbles are stored. */
    method EncodeSamples(ps: seq<s16>, out: array<u8>, swap: bool)
      requires pd + |ps| / 4 * 2 <= out.Length
      modifies this`pd, this`predict, this`predictIdx, out
      ensures State() == Encoded(old(State()), ps)
      ensures pd == old(pd) + |ps| / 4 * 2
      ensures Wrote(old(out[..]), out[..], old(pd), pd, Packed(FullGroups(Codes(old(State()), ps)), swap))
    {
      hide Quantise, EncodeStep, Holds, Codes, Encoded, Stored, Untouched, GroupAt, SameBut, Packed;
      ghost var c0, pd0, groups, was := State(), pd, 0, out[..];
      ghost var codes: seq<Nibble> := [];
      var code16: u16 := 0;
      var i := 0;
      NothingYet(code16, c0, ps);
      NothingStored(was, pd0, swap);
      NothingTouched(was, pd0);
      while i < |ps|
        invariant 0 <= i <= |ps| && pd == pd0 + 2 * groups && 4 * groups <= i < 4 * groups + 4
        invariant codes == Codes(c0, ps[..i]) && |codes| == i && State() == Encoded(c0, ps[..i])
        invariant Holds(code16, codes)
        invariant Stored(out[..], pd0, codes, 2 * groups, swap)
        invariant Untouched(was, out[..], pd0, pd)
      {
        OneMore(c0, ps, i);
        RoomForGroup(groups, i, |ps|);
        ghost var bytes := out[..];
        var code: Nibble;
        code, code16 := PutSample(i, code16, codes, ps[i], out, swap);
        codes := codes + [code];
        if i == 4 * groups + 3 {
          GroupAdded(bytes, out[..], pd0, codes, 2 * groups, swap);
          TwoMore(was, bytes, out[..], pd0, pd - 2);
          groups := groups + 1;
        } else {
          CodeAdded(bytes, pd0, codes[..i], code, 2 * groups, swap);
        }
        i := i + 1;
      }
      assert ps[..i] == ps;
      AllGroups(codes, groups);
      StoredIsPacked(out[..], pd0, codes, 2 * groups, swap);
      WroteAll(was, out[..], pd0, pd);
    }

    /** The header writes of the Telink build and of the Google build, version 0.4. */
    method WriteHeader(h: Header, out: array<u8>, pds: nat)
      requires pds + HeaderLength(h) <= out.Length
      modifies this`pd, out
      ensures pd == pds + HeaderLength(h)
      ensures Wrote(old(out[..]), out[..], pds, pd, HeaderBytes(h, State()))
    {
      hide Wrap16, Wrote, Untouched;
      ghost var was := out[..];
      pd := pds;
      if h.Telink? {
        PutWord(out, Wrap16(predict) % 0x100, Wrap16(predict) / 0x100);
        ghost var first := out[..];
        PutWord(out, predictIdx, TELINK_DATA_LEN);
        TwoParts(was, first, out[..], pds, pds + 2, pd, first[pds..pds + 2], [predictIdx, TELINK_DATA_LEN]);
      } else {
        PutWord(out, h.serial / 0x100, h.serial % 0x100);
        ghost var first := out[..];
        PutWord(out, 0, Wrap16(predict) / 0x100);
        ghost var second := out[..];
        PutWord(out, Wrap16(predict) % 0x100, predictIdx);
        TwoParts(was, first, second, pds, pds + 2, pds + 4, first[pds..pds + 2], second[pds + 2..pds + 4]);
        TwoParts(was, second, out[..], pds, pds + 4, pd,
                 first[pds..pds + 2] + second[pds + 2..pds + 4], [Wrap16(predict) % 0x100, predictIdx]);
      }
    }

    /** Two bytes at the output pointer. */
    method PutWord(out: array<u8>, first: u8, second: u8)
      requires pd + 2 <= out.Length
      modifies this`pd, out
      ensures pd == old(pd) + 2
      ensures Wrote(old(out[..]), out[..], old(pd), pd, [first, second])
      ensures out[old(pd)..pd] == [first, second]
    {
      out[pd], out[pd + 1] := first, second;
      pd := pd + 2;
    }

    /** A header and the samples after it. */
    method WriteFrame(h: Header, ps: seq<s16>, out: array<u8>, pds: nat)
      requires pds + HeaderLength(h) + |ps| / 4 * 2 <= out.Length
      modifies this`pd, this`predict, this`predictIdx, out
      ensures State() == Encoded(old(State()), ps)
      ensures pd == pds + HeaderLength(h) + |ps| / 4 * 2
      ensures Untouched(old(out[..]), out[..], pds, pd)
      ensures |ps| % 4 == 0 ==> Wrote(old(out[..]), out[..], pds, pd, Frame(h, old(State()), ps))
    {
      hide HeaderBytes, Packed, Codes, Encoded, Wrote, Untouched;
      ghost var was := out[..];
      WriteHeader(h, out, pds);
      ghost var mid, before, codes := pd, out[..], Codes(State(), ps);
      EncodeSamples(ps, out, h.Google?);
      TwoParts(was, before, out[..], pds, mid, pd, HeaderBytes(h, old(State())), Packed(FullGroups(codes), h.Google?));
      WholeRun(codes);
    }

    /** Samples without a header. */
    method BareSamples(ps: seq<s16>, out: array<u8>, swap: bool)
      requires pd + |ps| / 4 * 2 <= out.Length
      modifies this`pd, this`predict, this`predictIdx, out
      ensures State() == Encoded(old(State()), ps)
      ensures pd == old(pd) + |ps| / 4 * 2
      ensures Untouched(old(out[..]), out[..], old(pd), pd)
      ensures |ps| % 4 == 0 ==> Wrote(old(out[..]), out[..], old(pd), pd, Packed(Codes(old(State()), ps), swap))
    {
      hide Packed, Codes, Encoded;
      ghost var codes := Codes(State(), ps);
      EncodeSamples(ps, out, swap);
      WholeRun(codes);
    }

    /** Where a call begins to write. */
    function From(pds: nat, start: bool): nat
      reads this`pd
    {
      if start then pds else pd
    }

    /** Telink build: `start` writes the header with the state before the first sample. */
    method SplitTelink(ps: seq<s16>, out: array<u8>, pds: nat, start: bool)
      requires From(pds, start) + (if start then 4 else 0) + |ps| / 4 * 2 <= out.Length
      modifies this, out
      ensures State() == Encoded(old(State()), ps)
      ensures pd == old(From(pds, start)) + (if start then 4 else 0) + |ps| / 4 * 2
      ensures Untouched(old(out[..]), out[..], old(From(pds, start)), pd)
      ensures |ps| % 4 == 0 ==>
                Wrote(old(out[..]), out[..], old(From(pds, start)), pd,
                      if start then Frame(Telink, old(State()), ps) else Packed(Codes(old(State()), ps), false))
    {
      hide Frame, Packed, Codes, Encoded, Wrote, Untouched;
      if start {
        WriteFrame(Telink, ps, out, pds);
      } else {
        BareSamples(ps, out, false);
      }
    }

    /** Google build: header for version 0.4, none for version 1.0; every call takes a serial number. */
    method SplitGoogle(ps: seq<s16>, out: array<u8>, pds: nat, start: int)
      requires From(pds, start == 1 || start == 2) + (if start == 1 then 6 else 0) + |ps| / 4 * 2 <= out.Length
      modifies this, out
      ensures State() == Encoded(old(State()), ps) && serial == Wrap16(old(serial) + 1)
      ensures pd == old(From(pds, start == 1 || start == 2)) + (if start == 1 then 6 else 0) + |ps| / 4 * 2
      ensures Untouched(old(out[..]), out[..], old(From(pds, start == 1 || start == 2)), pd)
      ensures |ps| % 4 == 0 ==>
                Wrote(old(out[..]), out[..], old(From(pds, start == 1 || start == 2)), pd,
                      if start == 1 then Frame(Google(old(serial)), old(State()), ps)
                      else Packed(Codes(old(State()), ps), true))
    {
      hide Frame, Packed, Codes, Encoded, Wrote, Untouched;
      if start == 1 {
        WriteFrame(Google(serial), ps, out, pds);
      } else {
        if start == 2 {
          pd := pds;
        }
        BareSamples(ps, out, true);
      }
      serial := Wrap16(serial + 1);
    }

    /** HID build: no header. */
    method SplitHid(ps: seq<s16>, out: array<u8>, pds: nat)
      requires pds + |ps| / 4 * 2 <= out.Length
      modifies this, out
      ensures State() == Encoded(old(State()), ps)
      ensures pd == pds + |ps| / 4 * 2
      ensures Untouched(old(out[..]), out[..], pds, pd)
      ensures |ps| % 4 == 0 ==> Wrote(old(out[..]), out[..], pds, pd, Packed(Codes(old(State()), ps), true))
    {
      hide Packed, Codes, Encoded, Wrote, Untouched;
      pd := pds;
      BareSamples(ps, out, true);
    }
  }

  ghost predicate Untouched(before: seq<u8>, after: seq<u8>, from: nat, to: nat) {
    && from <= to <= |after| && |before| == |after|
    && after[..from] == before[..from] && after[to..] == before[to..]
  }

  /** The bytes from `from` to `to` are `data`, all others as they were. */
  ghost predicate Wrote(before: seq<u8>, after: seq<u8>, from: nat, to: nat, data: seq<u8>) {
    Untouched(before, after, from, to) && after[from..to] == data
  }

  /** The nibbles that fill groups of four. */
  function FullGroups(codes: seq<Nibble>): seq<Nibble> {
    var n := |codes| / 4;
    codes[..4 * n]
  }

  lemma WholeRun(codes: seq<Nibble>)
    ensures |codes| % 4 == 0 ==> FullGroups(codes) == codes
  {
  }

  lemma AllGroups(codes: seq<Nibble>, groups: nat)
    requires 4 * groups <= |codes| < 4 * groups + 4
    ensures groups == |codes| / 4 && FullGroups(codes) == codes[..4 * groups]
  {
  }

  lemma RoomForGroup(groups: nat, i: nat, n: nat)
    requires 4 * groups <= i < 4 * groups + 4 && i < n
    ensures i % 4 == 3 <==> i == 4 * groups + 3
    ensures i % 4 == 3 ==> 2 * groups + 2 <= n / 4 * 2
  {
    DivModUnique(i, 4, groups, i - 4 * groups);
    assert n == 4 * (n / 4) + n % 4;
  }

  lemma NothingTouched(was: seq<u8>, at: nat)
    requires at <= |was|
    ensures Untouched(was, was, at, at)
  {
  }

  lemma TwoMore(was: seq<u8>, before: seq<u8>, after: seq<u8>, from: nat, to: nat)
    requires Untouched(was, before, from, to) && to + 2 <= |after| && SameBut(before, after, to)
    ensures Untouched(was, after, from, to + 2)
  {
    assert after[..from] == before[..from];
    assert after[to + 2..] == before[to + 2..] == before[to..][2..] == was[to..][2..] == was[to + 2..];
  }

  lemma WroteAll(was: seq<u8>, after: seq<u8>, from: nat, to: nat)
    requires Untouched(was, after, from, to)
    ensures from <= to <= |after| && Wrote(was, after, from, to, after[from..to])
  {
  }

  /** Two writes, one behind the other. */
  lemma TwoParts(was: seq<u8>, before: seq<u8>, after: seq<u8>, from: nat, mid: nat, to: nat,
                 head: seq<u8>, data: seq<u8>)
    requires Wrote(was, before, from, mid, head) && Wrote(before, after, mid, to, data)
    ensures Wrote(was, after, from, to, head + data) && Untouched(was, after, from, to)
  {
    assert after[from..mid] == after[..mid][from..] == before[..mid][from..] == before[from..mid];
    assert after[..from] == after[..mid][..from] == before[..mid][..from] == before[..from];
    assert after[to..] == before[to..] == before[mid..][to - mid..] == was[mid..][to - mid..] == was[to..];
    assert after[from..to] == after[from..mid] + after[mid..to];
  }

  function Word(a: int, b: int, c: int, d: int): int { a + 16 * b + 0x100 * c + 0x1000 * d }

  function Top(word: nat, unit: nat): nat
    requires unit > 0
  {
    word / unit
  }

  /** The code `k` places before the end. */
  function Back(codes: seq<Nibble>, k: nat): Nibble
    requires k < |codes|
  {
    codes[|codes| - 1 - k]
  }

  /** The shift register ends in the last four nibbles, as far as there are any. */
  ghost predicate Holds(code16: u16, codes: seq<Nibble>) {
    var i := |codes|;
    && (i >= 1 ==> Top(code16, 0x1000) == Word(Back(codes, 0), 0, 0, 0))
    && (i >= 2 ==> Top(code16, 0x100) == Word(Back(codes, 1), Back(codes, 0), 0, 0))
    && (i >= 3 ==> Top(code16, 0x10) == Word(Back(codes, 2), Back(codes, 1), Back(codes, 0), 0))
    && (i >= 4 ==> code16 == Word(Back(codes, 3), Back(codes, 2), Back(codes, 1), Back(codes, 0)))
  }

  /** The first `n` bytes from `at` on hold the codes in pairs. */
  ghost predicate Stored(bytes: seq<u8>, at: nat, codes: seq<Nibble>, n: nat, swap: bool) {
    && at + n <= |bytes| && 2 * n <= |codes|
    && forall k | 0 <= k < n :: bytes[at + k] == PackByte(codes[2 * k], codes[2 * k + 1], swap)
  }

  lemma NothingStored(bytes: seq<u8>, at: nat, swap: bool)
    requires at <= |bytes|
    ensures Stored(bytes, at, [], 0, swap)
  {
  }

  lemma CodeAdded(bytes: seq<u8>, at: nat, codes: seq<Nibble>, code: Nibble, n: nat, swap: bool)
    requires Stored(bytes, at, codes, n, swap)
    ensures Stored(bytes, at, codes + [code], n, swap)
  {
    hide PackByte;
  }

  /** The two bytes at `at` hold the last four codes. */
  ghost predicate GroupAt(bytes: seq<u8>, at: nat, codes: seq<Nibble>, swap: bool) {
    var i := |codes|;
    && at + 2 <= |bytes| && i >= 4
    && bytes[at] == PackByte(codes[i - 4], codes[i - 3], swap)
    && bytes[at + 1] == PackByte(codes[i - 2], codes[i - 1], swap)
  }

  ghost predicate SameBut(before: seq<u8>, after: seq<u8>, at: nat) {
    |after| == |before| && forall k | 0 <= k < |after| && k != at && k != at + 1 :: after[k] == before[k]
  }

  lemma GroupAdded(before: seq<u8>, after: seq<u8>, at: nat, codes: seq<Nibble>, n: nat, swap: bool)
    requires |codes| == 2 * n + 4 && Stored(before, at, codes[..2 * n + 3], n, swap)
    requires SameBut(before, after, at + n) && GroupAt(after, at + n, codes, swap)
    ensures Stored(after, at, codes, n + 2, swap)
  {
    hide PackByte;
    assert 2 * (n + 1) == 2 * n + 2;
  }

  lemma StoredIsPacked(bytes: seq<u8>, at: nat, codes: seq<Nibble>, n: nat, swap: bool)
    requires Stored(bytes, at, codes, n, swap)
    ensures at + n <= |bytes| && 2 * n <= |codes| && bytes[at..at + n] == Packed(codes[..2 * n], swap)
  {
    hide PackByte;
  }

  lemma NothingYet(code16: u16, c: Coder, ps: seq<s16>)
    ensures Holds(code16, [])
    ensures Codes(c, ps[..0]) == [] && Encoded(c, ps[..0]) == c
  {
  }

  lemma Pushed(code16: u16, codes: seq<Nibble>, code: Nibble)
    requires Holds(code16, codes)
    ensures Holds(PushNibble(code16, code), codes + [code])
  {
    RegisterShift(code16, code, PushNibble(code16, code));
    HoldsNext(code16, PushNibble(code16, code), codes, code);
  }

  lemma HoldsNext(code16: u16, r: u16, codes: seq<Nibble>, code: Nibble)
    requires Holds(code16, codes)
    requires Top(r, 0x1000) == code
    requires Top(r, 0x100) == Top(code16, 0x1000) + code * 0x10
    requires Top(r, 0x10) == Top(code16, 0x100) + code * 0x100
    requires r == Top(code16, 0x10) + code * 0x1000
    ensures Holds(r, codes + [code])
  {
    var more, i := codes + [code], |codes|;
    assert |more| == i + 1 && Back(more, 0) == code;
    assert i >= 1 ==> Back(more, 1) == Back(codes, 0);
    assert i >= 2 ==> Back(more, 2) == Back(codes, 1);
    assert i >= 3 ==> Back(more, 3) == Back(codes, 2);
    WordPush(if i >= 1 then Back(codes, 0) else 0, if i >= 2 then Back(codes, 1) else 0,
             if i >= 3 then Back(codes, 2) else 0, code);
    hide Top, Word, Back;
  }

  /** A nibble pushed behind one, two and three others. */
  lemma WordPush(c: int, b: int, a: int, code: int)
    ensures Word(code, 0, 0, 0) == code
    ensures Word(c, code, 0, 0) == Word(c, 0, 0, 0) + code * 0x10
    ensures Word(b, c, code, 0) == Word(b, c, 0, 0) + code * 0x100
    ensures Word(a, b, c, code) == Word(a, b, c, 0) + code * 0x1000
  {
  }

  lemma RegisterShift(code16: u16, code: int, r: int)
    requires 0 <= code < 16 && r == code16 / 16 + code * 0x1000
    ensures r >= 0
    ensures Top(r, 0x1000) == code
    ensures Top(r, 0x100) == Top(code16, 0x1000) + code * 0x10
    ensures Top(r, 0x10) == Top(code16, 0x100) + code * 0x100
    ensures r == Top(code16, 0x10) + code * 0x1000
  {
    DivModUnique(r, 0x1000, code, code16 / 16);
    DivModUnique(r, 0x100, code16 / 0x1000 + code * 0x10, code16 / 16 % 0x100);
    DivModUnique(r, 0x10, code16 / 0x100 + code * 0x100, code16 / 16 % 0x10);
  }

  lemma FullGroup(code16: u16, codes: seq<Nibble>, swap: bool)
    requires |codes| >= 4 && Holds(code16, codes)
    ensures var i := |codes|;
            && PackByte(codes[i - 4], codes[i - 3], swap) == (if swap then SwapByte(code16 % 0x100) else code16 % 0x100)
            && PackByte(codes[i - 2], codes[i - 1], swap) == (if swap then SwapByte(code16 / 0x100) else code16 / 0x100)
  {
    hide Top, Word, SwapByte, PackByte;
    var i := |codes|;
    var n0, n1, n2, n3 := codes[i - 4], codes[i - 3], codes[i - 2], codes[i - 1];
    assert n0 == Back(codes, 3) && n1 == Back(codes, 2) && n2 == Back(codes, 1) && n3 == Back(codes, 0);
    assert code16 == Word(n0, n1, n2, n3);
    hide Holds, Back;
    PackedWord(code16, n0, n1, n2, n3, swap);
  }

  lemma PackedWord(code16: u16, n0: Nibble, n1: Nibble, n2: Nibble, n3: Nibble, swap: bool)
    requires code16 == Word(n0, n1, n2, n3)
    ensures PackByte(n0, n1, swap) == if swap then SwapByte(code16 % 0x100) else code16 % 0x100
    ensures PackByte(n2, n3, swap) == if swap then SwapByte(code16 / 0x100) else code16 / 0x100
  {
    WordBytes(n0, n1, n2, n3);
    PackedNibble(n0, n1);
    PackedNibble(n2, n3);
    hide *;
  }

  lemma WordBytes(a: Nibble, b: Nibble, c: Nibble, d: Nibble)
    ensures Word(a, b, c, d) % 0x100 == a + 16 * b && Word(a, b, c, d) / 0x100 == c + 16 * d
  {
    DivModUnique(Word(a, b, c, d), 0x100, c + 16 * d, a + 16 * b);
  }

  lemma OneMore(c: Coder, ps: seq<s16>, i: nat)
    requires i < |ps|
    ensures Codes(c, ps[..i + 1]) == Codes(c, ps[..i]) + [Quantise(Encoded(c, ps[..i]), ps[i]).code]
    ensures Encoded(c, ps[..i + 1]) == EncodeStep(Encoded(c, ps[..i]), ps[i])
  {
    hide EncodeStep, Quantise;
    assert ps[..i + 1] == ps[..i] + [ps[i]];
    TrackedAppend(c, ps[..i], [ps[i]]);
    var d := Encoded(c, ps[..i]);
    assert [ps[i]][1..] == [];
    assert Codes(d, [ps[i]]) == [Quantise(d, ps[i]).code] + Codes(EncodeStep(d, ps[i]), []);
  }
}

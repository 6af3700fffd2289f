/**
 `adc_sample_and_get_result` of `drivers/B85/adc.c`: eight samples sorted as they arrive, the mean
 of the middle four, and its conversion to millivolts in 32-bit arithmetic.
*/
module Adc {
  import opened Bits

  type s8 = x: int | -0x80 <= x < 0x80

  // One sample

  /** A converter word: bit 13 is the sign, the 13 bits below are the reading. */
  function SampleOf(word: u32): u16 {
    if And(word, 0x2000) != 0 then 0
    else
      Low13(word % 0x1_0000);
      And(word % 0x1_0000, 0x1fff)
  }

  lemma Low13(x: nat)
    ensures And(x, 0x1fff) == x % 0x2000
  {
    hide And;
    assert Pow2(13) == 0x2000 by { Pow2Values(); Pow2Add(8, 5); }
    AndLowMask(x, 13);
  }

  lemma Bit13(x: nat)
    ensures And(x, 0x2000) == 0x2000 * (x / 0x2000 % 2)
  {
    hide And;
    AndNibbleUp(x, 0x200);
    AndNibbleUp(x / 16, 0x20);
    AndNibbleUp(x / 256, 2);
    AndOneBit(x / 4096);
    assert x / 16 / 16 == x / 256 && x / 256 / 16 == x / 4096 && x / 4096 / 2 == x / 0x2000;
  }

  /** The 14-bit two's complement reading of the word. */
  function Reading(word: u32): int {
    var low := word % 0x4000;
    if low < 0x2000 then low else low - 0x4000
  }

  /** A negative voltage counts as 0, any other as itself. */
  lemma SampleIsClamped(word: u32)
    ensures SampleOf(word) == if Reading(word) < 0 then 0 else Reading(word)
  {
    hide And;
    Bit13(word);
    Low13(word % 0x1_0000);
    ModOfMod(word, 0x1_0000, 0x2000, 8);
    var q, r := word / 0x2000, word % 0x2000;
    DivModUnique(word, 0x4000, q / 2, 0x2000 * (q % 2) + r);
  }

  // Sorting while sampling

  /** Puts `x` behind every element that is not greater. */
  function Inserted(s: seq<u16>, x: u16): seq<u16> {
    if s == [] || s[|s| - 1] <= x then s + [x]
    else Inserted(s[..|s| - 1], x) + [s[|s| - 1]]
  }

  function SortedOf(s: seq<u16>): (r: seq<u16>)
  {
    if s == [] then [] else Inserted(SortedOf(s[..|s| - 1]), s[|s| - 1])
  }

  /** The insertion branch: shifts the greater elements of the sorted prefix up by one. */
  method InsertLast(a: array<u16>, i: nat)
    requires 0 < i < a.Length
    modifies a
    ensures a[..i + 1] == Inserted(old(a[..i]), old(a[i]))
    ensures a[i + 1..] == old(a[i + 1..])
  {
    hide Inserted;
    ghost var s, tail, x := a[..i], a[i + 1..], a[i];
    if a[i] < a[i - 1] {
      var temp := a[i];
      a[i] := a[i - 1];
      var j := i - 1;
      while j >= 0 && a[j] > temp
        invariant -1 <= j < i
        invariant forall k | 0 <= k <= j :: a[k] == s[k]
        invariant forall k | j + 2 <= k <= i :: a[k] == s[k - 1]
        invariant a[i + 1..] == tail
        invariant forall k | j < k < i :: s[k] > temp
      {
        a[j + 1] := a[j];
        j := j - 1;
      }
      a[j + 1] := temp;
      InsertedIs(s, temp, j + 1, a[..i + 1]);
    } else {
      InsertedIs(s, x, i, a[..i + 1]);
    }
  }

  /** Where the insertion puts its element. */
  lemma {:induction false} InsertedIs(s: seq<u16>, x: u16, p: nat, r: seq<u16>)
    requires p <= |s| && (p > 0 ==> s[p - 1] <= x)
    requires forall k | p <= k < |s| :: s[k] > x
    requires |r| == |s| + 1 && r[p] == x
    requires forall k | 0 <= k < p :: r[k] == s[k]
    requires forall k | p < k <= |s| :: r[k] == s[k - 1]
    ensures r == Inserted(s, x)
    decreases |s|
  {
    if p == |s| {
      assert r == s + [x];
    } else {
      InsertedIs(s[..|s| - 1], x, p, r[..|s|]);
      assert r == r[..|s|] + [s[|s| - 1]];
    }
  }

  /** The samples in the order the array holds them after each turn of the sampling loop. */
  method SortSamples(words: seq<u32>) returns (sample: array<u16>)
    requires |words| == 8
    ensures fresh(sample) && sample.Length == 8 && sample[..] == SortedOf(Samples(words))
  {
    hide SampleOf, SortedOf, Inserted, Samples;
    sample := new u16[8](_ => 0);
    var i := 0;
    NoSamples(words);
    while i < 8
      invariant 0 <= i <= 8
      invariant sample[..i] == SortedOf(Samples(words[..i]))
    {
      ghost var before := sample[..i];
      sample[i] := SampleOf(words[i]);
      OneMoreSample(words, i);
      if i > 0 {
        InsertLast(sample, i);
      } else {
        assert sample[..1] == [sample[0]];
      }
      i := i + 1;
    }
    assert words[..8] == words && sample[..8] == sample[..];
  }

  lemma NoSamples(words: seq<u32>)
    ensures Samples(words[..0]) == [] && SortedOf([]) == []
  {
  }

  lemma OneMoreSample(words: seq<u32>, i: nat)
    requires i < |words|
    ensures SortedOf(Samples(words[..i + 1])) == Inserted(SortedOf(Samples(words[..i])), SampleOf(words[i]))
    ensures SortedOf(Samples(words[..0])) == [] && Inserted([], SampleOf(words[i])) == [SampleOf(words[i])]
  {
    hide SampleOf, Inserted;
    var w, s := words[..i + 1], Samples(words[..i]);
    assert w[..i] == words[..i] && w[i] == words[i];
    assert (s + [SampleOf(words[i])])[..|s|] == s;
    NoSamples(words);
    InsertedNone(SampleOf(words[i]));
  }

  lemma InsertedNone(x: u16)
    ensures Inserted([], x) == [x]
  {
  }

  function Samples(words: seq<u32>): (r: seq<u16>)
    ensures |r| == |words|
  {
    if words == [] then [] else Samples(words[..|words| - 1]) + [SampleOf(words[|words| - 1])]
  }

  ghost predicate IsSorted(s: seq<u16>) {
    forall i, j | 0 <= i < j < |s| :: s[i] <= s[j]
  }

  lemma {:induction false} InsertedBounded(s: seq<u16>, x: u16, m: u16)
    requires x <= m && forall i | 0 <= i < |s| :: s[i] <= m
    ensures forall i | 0 <= i < |Inserted(s, x)| :: Inserted(s, x)[i] <= m
    decreases |s|
  {
    if s != [] && s[|s| - 1] > x {
      InsertedBounded(s[..|s| - 1], x, m);
    }
  }

  lemma {:induction false} InsertedSorted(s: seq<u16>, x: u16)
    requires IsSorted(s)
    ensures IsSorted(Inserted(s, x))
    decreases |s|
  {
    if s != [] && s[|s| - 1] > x {
      var t, last := s[..|s| - 1], s[|s| - 1];
      InsertedSorted(t, x);
      InsertedBounded(t, x, last);
    }
  }

  lemma {:induction false} InsertedPermutes(s: seq<u16>, x: u16)
    ensures multiset(Inserted(s, x)) == multiset(s) + multiset{x} && |Inserted(s, x)| == |s| + 1
    decreases |s|
  {
    if s != [] && s[|s| - 1] > x {
      var t, last := s[..|s| - 1], s[|s| - 1];
      InsertedPermutes(t, x);
      assert s == t + [last];
    }
  }

  /** Every prefix read so far is kept as a sorted permutation of its samples. */
  lemma {:induction false} SortedOfSorts(s: seq<u16>)
    ensures IsSorted(SortedOf(s)) && multiset(SortedOf(s)) == multiset(s) && |SortedOf(s)| == |s|
    decreases |s|
  {
    if s != [] {
      var t := s[..|s| - 1];
      SortedOfSorts(t);
      InsertedSorted(SortedOf(t), s[|s| - 1]);
      InsertedPermutes(SortedOf(t), s[|s| - 1]);
      assert s == t + [s[|s| - 1]];
    }
  }

  // The trimmed mean

  function TrimmedMean(samples: seq<u16>): int
    requires |samples| == 8
  {
    SortedOfSorts(samples);
    var s: seq<int> := SortedOf(samples);
    (s[2] + s[3] + s[4] + s[5]) / 4
  }

  /** How many of the samples lie below `lo`, or above `hi`. */
  function Below(s: seq<u16>, lo: int): nat {
    if s == [] then 0 else Below(s[..|s| - 1], lo) + if s[|s| - 1] < lo then 1 else 0
  }

  function Above(s: seq<u16>, hi: int): nat {
    if s == [] then 0 else Above(s[..|s| - 1], hi) + if s[|s| - 1] > hi then 1 else 0
  }

  lemma {:induction false} InsertedCounts(s: seq<u16>, x: u16, v: int)
    ensures Below(Inserted(s, x), v) == Below(s + [x], v)
    ensures Above(Inserted(s, x), v) == Above(s + [x], v)
    decreases |s|
  {
    assert (s + [x])[..|s|] == s;
    if s != [] && s[|s| - 1] > x {
      var t, last := s[..|s| - 1], s[|s| - 1];
      InsertedCounts(t, x, v);
      assert (t + [x])[..|t|] == t;
      assert (Inserted(t, x) + [last])[..|Inserted(t, x)|] == Inserted(t, x);
    }
  }

  lemma {:induction false} SortedCounts(s: seq<u16>, v: int)
    ensures Below(SortedOf(s), v) == Below(s, v) && Above(SortedOf(s), v) == Above(s, v)
    decreases |s|
  {
    if s != [] {
      var t, x := s[..|s| - 1], s[|s| - 1];
      SortedCounts(t, v);
      InsertedCounts(SortedOf(t), x, v);
      assert (SortedOf(t) + [x])[..|SortedOf(t)|] == SortedOf(t);
    }
  }

  /** In a sorted row the small elements come first: element `k` is one of them exactly when there are more than `k`. */
  lemma {:induction false} FirstAreBelow(s: seq<u16>, lo: int, k: nat)
    requires IsSorted(s) && k < |s|
    ensures s[k] < lo <==> Below(s, lo) > k
    decreases |s|
  {
    var t := s[..|s| - 1];
    if k < |t| {
      FirstAreBelow(t, lo, k);
    } else {
      BelowAtMost(t, lo);
      if k > 0 {
        FirstAreBelow(t, lo, k - 1);
      }
    }
  }

  lemma {:induction false} BelowAtMost(s: seq<u16>, v: int)
    ensures Below(s, v) <= |s| && Above(s, v) <= |s|
    decreases |s|
  {
    if s != [] {
      BelowAtMost(s[..|s| - 1], v);
    }
  }

  lemma {:induction false} LastAreAbove(s: seq<u16>, hi: int, k: nat)
    requires IsSorted(s) && k < |s|
    ensures s[k] > hi <==> Above(s, hi) >= |s| - k
    decreases |s|
  {
    var t := s[..|s| - 1];
    if k < |t| {
      LastAreAbove(t, hi, k);
    } else {
      BelowAtMost(t, hi);
      if k > 0 {
        LastAreAbove(t, hi, k - 1);
      }
    }
  }

  /** The four values averaged lie in a range exactly when at most two samples miss it on either side. */
  lemma MiddleFourExactly(samples: seq<u16>, lo: int, hi: int)
    requires |samples| == 8
    ensures |SortedOf(samples)| == 8
    ensures (forall k | 2 <= k <= 5 :: lo <= SortedOf(samples)[k] <= hi) <==>
            Below(samples, lo) <= 2 && Above(samples, hi) <= 2
  {
    SortedOfSorts(samples);
    SortedCounts(samples, lo);
    SortedCounts(samples, hi);
    var s := SortedOf(samples);
    hide Below, Above, SortedOf;
    FirstAreBelow(s, lo, 2);
    LastAreAbove(s, hi, 5);
    assert s[2] <= s[3] <= s[4] <= s[5];
  }

  /** Two samples may be too small and two too large, by any amount: the mean stays between the others. */
  lemma OutliersDoNotMatter(samples: seq<u16>, lo: int, hi: int)
    requires |samples| == 8 && Below(samples, lo) <= 2 && Above(samples, hi) <= 2
    ensures lo <= TrimmedMean(samples) <= hi
  {
    MiddleFourExactly(samples, lo, hi);
    hide Below, Above, SortedOf;
  }

  // Millivolts

  /** `(code * scale * vref >> 13) + offset` in `int` arithmetic, stored in an unsigned word. */
  function MilliVolts(code: nat, scale: u8, vref: u16, offset: s8): u32 {
    if code == 0 then 0
    else Wrap32(Signed32(Wrap32(code * (scale * vref as nat))) / 0x2000 + offset)
  }

  lemma InWord(x: nat)
    requires x < 0x8000_0000
    ensures Signed32(Wrap32(x)) == x
  {
    DivModUnique(x, 0x1_0000_0000, 0, x);
  }

  lemma SignedBelow(w: u32)
    ensures Signed32(w) < 0x8000_0000
  {
  }

  /** The product fits in an `int` for every code the converter can give exactly under this bound. */
  lemma ProductFitsExactly(k: nat)
    ensures (forall code: nat | code < 0x2000 :: Signed32(Wrap32(code * k)) == code * k) <==>
            0x1fff * k < 0x8000_0000
  {
    hide Signed32, Wrap32;
    if 0x1fff * k < 0x8000_0000 {
      forall code: nat | code < 0x2000
        ensures Signed32(Wrap32(code * k)) == code * k
      {
        MulMono(k, code, 0x1fff);
        InWord(code * k);
      }
    } else {
      SignedBelow(Wrap32(0x1fff * k));
      assert Signed32(Wrap32(0x1fff * k)) != 0x1fff * k;
    }
  }

  /** At prescale 8 the largest code gives a negative product exactly from a reference of 32773 on. */
  lemma LargeReferenceOverflows(vref: u16)
    ensures Signed32(Wrap32(0x1fff * (8 * vref as nat))) < 0 <==> vref >= 32773
  {
    var x := 0x1fff * (8 * vref as nat);
    DivModUnique(x, 0x1_0000_0000, 0, x);
  }

  /** The voltage before it is stored: negative where a negative offset outweighs a small code. */
  function Voltage(code: nat, k: nat, offset: s8): int { code * k / 0x2000 + offset }

  lemma VoltageMonotone(a: nat, b: nat, k: nat, offset: s8)
    requires a <= b
    ensures Voltage(a, k, offset) <= Voltage(b, k, offset)
  {
    MulMono(k, a, b);
    assert a * k <= b * k;
  }

  lemma MilliVoltsAre(code: nat, scale: u8, vref: u16, offset: s8)
    requires 0 < code < 0x2000 && 0x1fff * (scale * vref as nat) < 0x8000_0000
    ensures var v := Voltage(code, scale * vref as nat, offset);
            MilliVolts(code, scale, vref, offset) == if v < 0 then v + 0x1_0000_0000 else v
  {
    var k := scale * vref as nat;
    MulMono(k, code, 0x1fff);
    assert code * k <= 0x1fff * k;
    InWord(code * k);
    var v := Voltage(code, k, offset);
    DivModUnique(v, 0x1_0000_0000, if v < 0 then -1 else 0, if v < 0 then v + 0x1_0000_0000 else v);
  }

  ghost predicate Monotone(scale: u8, vref: u16, offset: s8) {
    forall a: nat, b: nat | a <= b < 0x2000 ::
      MilliVolts(a, scale, vref, offset) <= MilliVolts(b, scale, vref, offset)
  }

  /**
   The conversion is monotone in the code exactly unless the offset makes the smallest voltage negative
   and leaves the largest one not: then the unsigned result of a small code wraps above all others.
  */
  lemma MonotoneExactly(scale: u8, vref: u16, offset: s8)
    requires 0x1fff * (scale * vref as nat) < 0x8000_0000
    ensures var k := scale * vref as nat;
            Monotone(scale, vref, offset) <==> !(Voltage(1, k, offset) < 0 <= Voltage(0x1fff, k, offset))
  {
    var k := scale * vref as nat;
    hide Voltage, MilliVolts;
    if Voltage(1, k, offset) < 0 <= Voltage(0x1fff, k, offset) {
      MilliVoltsAre(1, scale, vref, offset);
      MilliVoltsAre(0x1fff, scale, vref, offset);
      VoltageBelow(k, offset);
      assert !(MilliVolts(1, scale, vref, offset) <= MilliVolts(0x1fff, scale, vref, offset));
    } else {
      forall a: nat, b: nat | a <= b < 0x2000
        ensures MilliVolts(a, scale, vref, offset) <= MilliVolts(b, scale, vref, offset)
      {
        CodeZero(scale, vref, offset);
        if a > 0 {
          MilliVoltsAre(a, scale, vref, offset);
          MilliVoltsAre(b, scale, vref, offset);
          VoltageMonotone(1, a, k, offset);
          VoltageMonotone(a, b, k, offset);
          VoltageMonotone(b, 0x1fff, k, offset);
        }
      }
    }
  }

  /** Prescale 8, the default reference and an offset of -10 mV: code 1 reads far above all large codes. */
  lemma SmallOffsetWraps()
    ensures !Monotone(8, 1175, -10)
  {
    assert Voltage(1, 9400, -10) == -9 && Voltage(0x1fff, 9400, -10) >= 0;
    hide *;
    MonotoneExactly(8, 1175, -10);
  }

  /** Under every monotone setting the robustness of the mean carries over to the millivolts. */
  lemma OutliersInMilliVolts(samples: seq<u16>, lo: nat, hi: nat, scale: u8, vref: u16, offset: s8)
    requires |samples| == 8 && Below(samples, lo) <= 2 && Above(samples, hi) <= 2 && hi < 0x2000
    requires Monotone(scale, vref, offset)
    ensures var code := TrimmedMean(samples);
            && lo <= code <= hi
            && MilliVolts(lo, scale, vref, offset) <= MilliVolts(code, scale, vref, offset)
            && MilliVolts(code, scale, vref, offset) <= MilliVolts(hi, scale, vref, offset)
  {
    hide Below, Above, TrimmedMean, MilliVolts;
    OutliersDoNotMatter(samples, lo, hi);
  }

  /** That covers every offset that is not negative, as long as the product fits. */
  lemma NoNegativeOffsetIsMonotone(scale: u8, vref: u16, offset: s8)
    requires offset >= 0 && 0x1fff * (scale * vref as nat) < 0x8000_0000
    ensures Monotone(scale, vref, offset)
  {
    assert Voltage(1, scale * vref as nat, offset) >= 0;
    hide *;
    MonotoneExactly(scale, vref, offset);
  }

  lemma CodeZero(scale: u8, vref: u16, offset: s8)
    ensures MilliVolts(0, scale, vref, offset) == 0
  {
  }

  lemma VoltageBelow(k: nat, offset: s8)
    requires 0x1fff * k < 0x8000_0000
    ensures -0x80 <= Voltage(1, k, offset) && Voltage(0x1fff, k, offset) < 0x4_0080
  {
  }

  // What comes out, without the order of the computation

  /** What the words measure, negative voltages as 0. */
  function Readings(words: seq<u32>): (r: seq<u16>)
    ensures |r| == |words|
  {
    seq(|words|, k requires 0 <= k < |words| => if Reading(words[k]) < 0 then 0 else Reading(words[k]))
  }

  lemma {:induction false} SamplesAreReadings(words: seq<u32>)
    ensures Samples(words) == Readings(words)
    decreases |words|
  {
    hide SampleOf, Reading;
    if words != [] {
      var t := words[..|words| - 1];
      SamplesAreReadings(t);
      SampleIsClamped(words[|words| - 1]);
      assert Readings(words) == Readings(t) + [SampleOf(words[|words| - 1])];
    }
  }

  /** A row can be sorted in one way only. */
  lemma {:induction false} SortedOneWay(s: seq<u16>, t: seq<u16>)
    requires IsSorted(s) && IsSorted(t) && multiset(s) == multiset(t)
    ensures s == t
    decreases |s|
  {
    LengthOfContent(s, t);
    if s != [] {
      SameLast(s, t);
      WithoutLast(s);
      WithoutLast(t);
      hide IsSorted;
      SortedOneWay(s[..|s| - 1], t[..|t| - 1]);
    }
  }

  lemma LengthOfContent(s: seq<u16>, t: seq<u16>)
    requires multiset(s) == multiset(t)
    ensures |s| == |t|
  {
    assert |multiset(s)| == |s| && |multiset(t)| == |t|;
  }

  lemma SameLast(s: seq<u16>, t: seq<u16>)
    requires IsSorted(s) && IsSorted(t) && multiset(s) == multiset(t) && s != [] && t != []
    ensures s[|s| - 1] == t[|t| - 1]
  {
    var x, y := s[|s| - 1], t[|t| - 1];
    assert x in multiset(s) && y in multiset(t);
    hide IsSorted;
    LastIsLargest(s, y);
    LastIsLargest(t, x);
  }

  lemma WithoutLast(s: seq<u16>)
    requires IsSorted(s) && s != []
    ensures var t, x := s[..|s| - 1], s[|s| - 1];
            IsSorted(t) && multiset(t) == multiset(s) - multiset{x} && s == t + [x]
  {
    assert s == s[..|s| - 1] + [s[|s| - 1]];
  }

  lemma LastIsLargest(s: seq<u16>, x: u16)
    requires IsSorted(s) && x in multiset(s)
    ensures x <= s[|s| - 1]
  {
    var i :| 0 <= i < |s| && s[i] == x;
  }

  /** The code is the mean of the four middle readings, rounded down, in whatever way they are sorted. */
  ghost predicate IsMiddleMean(readings: seq<u16>, code: int) {
    forall t: seq<u16> | |t| == 8 && IsSorted(t) && multiset(t) == multiset(readings) ::
      4 * code <= t[2] as int + t[3] as int + t[4] as int + t[5] as int < 4 * code + 4
  }

  lemma MeanOfMiddle(samples: seq<u16>)
    requires |samples| == 8
    ensures IsMiddleMean(samples, TrimmedMean(samples))
  {
    SortedOfSorts(samples);
    forall t: seq<u16> | |t| == 8 && IsSorted(t) && multiset(t) == multiset(samples)
      ensures var code := TrimmedMean(samples);
              4 * code <= t[2] as int + t[3] as int + t[4] as int + t[5] as int < 4 * code + 4
    {
      SortedOneWay(t, SortedOf(samples));
    }
  }

  /**
   For every setting: the product as an `int`, also where it overflows, is measured in units of 1/0x2000
   millivolt, rounded down, above the offset; `v` is the result read as a signed number.
  */
  lemma MeasuredVoltage(code: nat, scale: u8, vref: u16, offset: s8, p: int, wraps: int)
    requires code > 0 && -0x8000_0000 <= p < 0x8000_0000
    requires p == code * (scale * vref as nat) + 0x1_0000_0000 * wraps
    ensures var v := Signed32(MilliVolts(code, scale, vref, offset));
            0x2000 * (v - offset) <= p < 0x2000 * (v - offset + 1)
  {
    var x := code * (scale * vref as nat);
    SignedOfWrapped(x, p, wraps);
    hide Signed32, Wrap32;
    SignedOfWrapped(p / 0x2000 + offset, p / 0x2000 + offset, 0);
  }

  lemma SignedOfWrapped(x: int, p: int, wraps: int)
    requires -0x8000_0000 <= p < 0x8000_0000 && p == x + 0x1_0000_0000 * wraps
    ensures Signed32(Wrap32(x)) == p
  {
    if p < 0 {
      DivModUnique(x, 0x1_0000_0000, -wraps - 1, p + 0x1_0000_0000);
    } else {
      DivModUnique(x, 0x1_0000_0000, -wraps, p);
    }
  }

  /** The result of a product that fits, for a voltage that is not negative. */
  ghost predicate IsVoltageOf(code: nat, scale: u8, vref: u16, offset: s8, mv: u32) {
    var p := code * (scale * vref as nat);
    p < 0x8000_0000 && p + 0x2000 * offset >= 0 ==> 0x2000 * (mv - offset) <= p < 0x2000 * (mv - offset + 1)
  }

  lemma MilliVoltsOfFitting(code: nat, scale: u8, vref: u16, offset: s8)
    requires code > 0
    ensures IsVoltageOf(code, scale, vref, offset, MilliVolts(code, scale, vref, offset))
  {
    var p := code * (scale * vref as nat);
    var mv := MilliVolts(code, scale, vref, offset);
    if p < 0x8000_0000 && p + 0x2000 * offset >= 0 {
      MeasuredVoltage(code, scale, vref, offset, p, 0);
      hide MilliVolts;
      assert mv >= 0x8000_0000 ==> 0x2000 * (mv - 0x1_0000_0000 - offset + 1) > p;
    }
  }

  /** The whole function; the converter words stand for the buffer the hardware fills. */
  method SampleAndGetResult(words: seq<u32>, scale: u8, vref: u16, offset: s8) returns (adcCode: u16, mv: u32)
    requires |words| == 8
    ensures adcCode == TrimmedMean(Samples(words))
    ensures mv == MilliVolts(adcCode, scale, vref, offset)
    ensures IsMiddleMean(Readings(words), adcCode)
    ensures if adcCode == 0 then mv == 0 else IsVoltageOf(adcCode, scale, vref, offset, mv)
  {
    SamplesAreReadings(words);
    MeanOfMiddle(Samples(words));
    hide Samples, SortedOf, IsMiddleMean, IsVoltageOf, Readings;
    var sample := SortSamples(words);
    SortedOfSorts(Samples(words));
    ghost var s := SortedOf(Samples(words));
    assert sample[2] == s[2] && sample[3] == s[3] && sample[4] == s[4] && sample[5] == s[5];
    var sum: int := 0;
    sum := sum + sample[2];
    sum := sum + sample[3];
    sum := sum + sample[4];
    sum := sum + sample[5];
    adcCode := sum / 4;
    if adcCode == 0 {
      return adcCode, 0;
    }
    MilliVoltsOfFitting(adcCode, scale, vref, offset);
    var code: int := adcCode;
    mv := Wrap32(Signed32(Wrap32(code * (scale * vref as nat))) / 0x2000 + offset);
  }
}

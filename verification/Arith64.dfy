/**
 64-bit arithmetic on a 32-bit core without a long multiply: `utility.c` and
 `utility.h`. Every intermediate result is wrapped at the width the C code gives it.
*/
module Arith64 {
  import opened Bits

  /** `mul64_32x32`: four half-word products; all 32-bit partial sums are wrapped. */
  function Mul64By32(u: u32, v: u32): (r: u64)
    ensures r == u * v
  {
    var u0, u1 := u % 0x1_0000, u / 0x1_0000;
    var v0, v1 := v % 0x1_0000, v / 0x1_0000;
    HalfWordProducts(u, v, u0 * v0, u1 * v0, u0 * v1, u1 * v1);
    MulCombine(u * v, u0 * v0, u1 * v0, u0 * v1, u1 * v1)
  }

  function MulCombine(total: nat, p00: u32, p10: u32, p01: u32, p11: u32): (r: u64)
    requires p00 <= 0xFFFE_0001 && p10 <= 0xFFFE_0001 && p01 <= 0xFFFE_0001 && p11 <= 0xFFFE_0001
    requires total == p11 * 0x1_0000_0000 + (p10 + p01) * 0x1_0000 + p00 < 0x1_0000_0000_0000_0000
    ensures r == total
  {
    var x := MulHigh(total, Wrap32(p00), Wrap32(p10), Wrap32(p01), Wrap32(p11));
    var y := Wrap32(total);
    OrWords(x, y);
    Or(x * 0x1_0000_0000, y)
  }

  /** The high word of the product: no 32-bit sum wraps, so every carry arrives. */
  function MulHigh(ghost total: nat, p00: u32, p10: u32, p01: u32, p11: u32): (x: u32)
    requires p00 <= 0xFFFE_0001 && p10 <= 0xFFFE_0001 && p01 <= 0xFFFE_0001 && p11 <= 0xFFFE_0001
    requires total == p11 * 0x1_0000_0000 + (p10 + p01) * 0x1_0000 + p00 < 0x1_0000_0000_0000_0000
    ensures x == total / 0x1_0000_0000
  {
    CarryChain(total, p00, p10, p01, p11);
    var w0 := p00;
    var t := Wrap32(p10 + w0 / 0x1_0000);
    var w1 := t % 0x1_0000;
    var w2 := t / 0x1_0000;
    var w1' := Wrap32(p01 + w1);
    Wrap32(p11 + w2 + w1' / 0x1_0000)
  }

  /** None of the three sums wraps, and the last one is the high word of the product. */
  lemma CarryChain(total: nat, p00: u32, p10: u32, p01: u32, p11: u32)
    requires p00 <= 0xFFFE_0001 && p10 <= 0xFFFE_0001 && p01 <= 0xFFFE_0001 && p11 <= 0xFFFE_0001
    requires total == p11 * 0x1_0000_0000 + (p10 + p01) * 0x1_0000 + p00 < 0x1_0000_0000_0000_0000
    ensures var t := p10 + p00 / 0x1_0000;
            var w := p01 + t % 0x1_0000;
            var x := p11 + t / 0x1_0000 + w / 0x1_0000;
            Wrap32(t) == t && Wrap32(w) == w && Wrap32(x) == x == total / 0x1_0000_0000
  {
    var t := p10 + p00 / 0x1_0000;
    var w := p01 + t % 0x1_0000;
    var low := w % 0x1_0000 * 0x1_0000 + p00 % 0x1_0000;
    assert p00 == p00 / 0x1_0000 * 0x1_0000 + p00 % 0x1_0000;
    assert t == t / 0x1_0000 * 0x1_0000 + t % 0x1_0000;
    assert w == w / 0x1_0000 * 0x1_0000 + w % 0x1_0000;
    Fits32(t);
    Fits32(w);
    DivModUnique(total, 0x1_0000_0000, p11 + t / 0x1_0000 + w / 0x1_0000, low);
    Fits32(p11 + t / 0x1_0000 + w / 0x1_0000);
  }

  /** `((u64)x << 32) | y` for 32-bit halves. */
  lemma OrWords(x: nat, y: u32)
    ensures Or(x * 0x1_0000_0000, y) == x * 0x1_0000_0000 + y
  {
    var p := Pow2(32);
    assert p == 0x1_0000_0000 by { Pow2Values(); }
    assert (x * 0x1_0000_0000) % p == 0;
    OrDisjoint(x * 0x1_0000_0000, y, 32);
  }

  lemma HalfWordProducts(u: u32, v: u32, p00: int, p10: int, p01: int, p11: int)
    requires p00 == (u % 0x1_0000) * (v % 0x1_0000) && p10 == (u / 0x1_0000) * (v % 0x1_0000)
    requires p01 == (u % 0x1_0000) * (v / 0x1_0000) && p11 == (u / 0x1_0000) * (v / 0x1_0000)
    ensures 0 <= p00 <= 0xFFFE_0001 && 0 <= p10 <= 0xFFFE_0001
    ensures 0 <= p01 <= 0xFFFE_0001 && 0 <= p11 <= 0xFFFE_0001
    ensures 0 <= u * v < 0x1_0000_0000_0000_0000
    ensures u * v == p11 * 0x1_0000_0000 + (p10 + p01) * 0x1_0000 + p00
  {
    var u0, u1, v0, v1 := u % 0x1_0000, u / 0x1_0000, v % 0x1_0000, v / 0x1_0000;
    MulBound(u0, v0, 0xFFFF, 0xFFFF);
    MulBound(u1, v0, 0xFFFF, 0xFFFF);
    MulBound(u0, v1, 0xFFFF, 0xFFFF);
    MulBound(u1, v1, 0xFFFF, 0xFFFF);
    MulBound(u, v, 0xFFFF_FFFF, 0xFFFF_FFFF);
    SplitProduct(u1, u0, v1, v0, 0x1_0000);
  }

  lemma MulBound(a: nat, b: nat, m: nat, n: nat)
    requires a <= m && b <= n
    ensures 0 <= a * b <= m * n
  {
    MulMono(a, b, n);
    MulMono(n, a, m);
  }

  lemma SplitProduct(a1: int, a0: int, b1: int, b0: int, h: int)
    ensures (a1 * h + a0) * (b1 * h + b0) == a1 * b1 * (h * h) + (a1 * b0 + a0 * b1) * h + a0 * b0
  {
  }

  /** The 128-bit product held by `mul_u64_u64_shr` as a low and a high 64-bit word. */
  datatype Wide = Wide(lo: u64, hi: u64)

  /** First half of `mul_u64_u64_shr`: the full product from four 32-bit ones. */
  function Product128(a: u64, b: u64): (w: Wide)
    ensures w.hi * 0x1_0000_0000_0000_0000 + w.lo == a * b
  {
    var a0, a1 := Wrap32(a), a / 0x1_0000_0000;
    var b0, b1 := Wrap32(b), b / 0x1_0000_0000;
    WordProducts(a, b, a1, a0, b1, b0);
    AddColumns(a * b, Mul64By32(a0, b0), Mul64By32(a0, b1), Mul64By32(a1, b0), Mul64By32(a1, b1))
  }

  /** The two 64-bit column sums with their carries, put together to two words. */
  function AddColumns(ghost total: nat, rl: u64, rm: u64, rn: u64, rh: u64): (w: Wide)
    requires total == rh * 0x1_0000_0000_0000_0000 + (rm + rn) * 0x1_0000_0000 + rl
    requires total < 0x1_0000_0000_0000_0000_0000_0000_0000_0000
    ensures w.hi * 0x1_0000_0000_0000_0000 + w.lo == total
  {
    ColumnsFit(total, rl, rm, rn, rh);
    hide *;
    var c := LowColumn(rl, rm, rn);
    Wide(Join(c, rl), TopColumn(HighColumn(c, rm, rn, rh), rh))
  }

  function LowColumn(rl: u64, rm: u64, rn: u64): u64 {
    Wrap64(rl / 0x1_0000_0000 + Wrap32(rm) + Wrap32(rn))
  }

  function HighColumn(c: u64, rm: u64, rn: u64, rh: u64): u64 {
    Wrap64(c / 0x1_0000_0000 + rm / 0x1_0000_0000 + rn / 0x1_0000_0000 + Wrap32(rh))
  }

  function TopColumn(c: u64, rh: u64): u64 {
    Join(Wrap32(c / 0x1_0000_0000 + rh / 0x1_0000_0000), c)
  }

  /** The low halves of two words as one word. */
  function Join(high: u64, low: u64): u64 {
    Wrap32(high) * 0x1_0000_0000 + Wrap32(low)
  }

  /** No column sum wraps, and the words they leave are those of the total. */
  lemma ColumnsFit(total: nat, rl: u64, rm: u64, rn: u64, rh: u64)
    requires total == rh * 0x1_0000_0000_0000_0000 + (rm + rn) * 0x1_0000_0000 + rl
    requires total < 0x1_0000_0000_0000_0000_0000_0000_0000_0000
    ensures var c := LowColumn(rl, rm, rn);
            total == TopColumn(HighColumn(c, rm, rn, rh), rh) * 0x1_0000_0000_0000_0000 + Join(c, rl)
  {
    Words(rl);
    Words(rm);
    Words(rn);
    Words(rh);
    hide Wrap32, Wrap64;
    var c := LowColumn(rl, rm, rn);
    Fits64(rl / 0x1_0000_0000 + Wrap32(rm) + Wrap32(rn));
    Words(c);
    var d := HighColumn(c, rm, rn, rh);
    Fits64(c / 0x1_0000_0000 + rm / 0x1_0000_0000 + rn / 0x1_0000_0000 + Wrap32(rh));
    Words(d);
    var high := d / 0x1_0000_0000 + rh / 0x1_0000_0000;
    ColumnSum(total, rl, rm, rn, rh, c, d);
    Fits32(high);
    assert TopColumn(d, rh) == Wrap32(Wrap32(high)) * 0x1_0000_0000 + Wrap32(d);
  }

  lemma Fits64(x: nat)
    requires x < 0x1_0000_0000_0000_0000
    ensures Wrap64(x) == x
  {
    DivModUnique(x, 0x1_0000_0000_0000_0000, 0, x);
  }

  lemma Fits32(x: nat)
    requires x < 0x1_0000_0000
    ensures Wrap32(x) == x
  {
    DivModUnique(x, 0x1_0000_0000, 0, x);
  }

  lemma ColumnSum(total: nat, rl: u64, rm: u64, rn: u64, rh: u64, c: u64, d: u64)
    requires total == rh * 0x1_0000_0000_0000_0000 + (rm + rn) * 0x1_0000_0000 + rl
    requires total < 0x1_0000_0000_0000_0000_0000_0000_0000_0000
    requires c == rl / 0x1_0000_0000 + Wrap32(rm) + Wrap32(rn)
    requires d == c / 0x1_0000_0000 + rm / 0x1_0000_0000 + rn / 0x1_0000_0000 + Wrap32(rh)
    ensures total == ((d / 0x1_0000_0000 + rh / 0x1_0000_0000) * 0x1_0000_0000 + Wrap32(d)) * 0x1_0000_0000_0000_0000
                     + Wrap32(c) * 0x1_0000_0000 + Wrap32(rl)
    ensures d / 0x1_0000_0000 + rh / 0x1_0000_0000 < 0x1_0000_0000
  {
    Words(rl);
    Words(rm);
    Words(rn);
    Words(rh);
    Words(c);
    Words(d);
    hide Wrap32;
  }

  lemma Words(x: u64)
    ensures x == x / 0x1_0000_0000 * 0x1_0000_0000 + Wrap32(x)
    ensures 0 <= x / 0x1_0000_0000 < 0x1_0000_0000
  {
  }

  lemma WordProducts(a: u64, b: u64, a1: u32, a0: u32, b1: u32, b0: u32)
    requires a == a1 * 0x1_0000_0000 + a0 && b == b1 * 0x1_0000_0000 + b0
    ensures a * b == a1 * b1 * 0x1_0000_0000_0000_0000 + (a0 * b1 + a1 * b0) * 0x1_0000_0000 + a0 * b0
    ensures 0 <= a * b < 0x1_0000_0000_0000_0000_0000_0000_0000_0000
  {
    SplitProduct(a1, a0, b1, b0, 0x1_0000_0000);
    MulBound(a, b, 0xFFFF_FFFF_FFFF_FFFF, 0xFFFF_FFFF_FFFF_FFFF);
  }

  /** `mul_u64_u64_shr` */
  function MulShr(a: u64, b: u64, shift: u32): (r: u64)
    ensures shift < 128 ==> r == a * b / Pow2(shift) % 0x1_0000_0000_0000_0000
    ensures shift >= 64 ==> r == a * b / Pow2(64 + shift % 64)
  {
    var w := Product128(a, b);
    if shift == 0 then
      ShiftByZero(a * b, w);
      w.lo
    else if shift < 64 then
      ShiftLow(a * b, w, shift);
      Or(w.lo / Pow2(shift), Wrap64(w.hi * Pow2(64 - shift)))
    else
      ShiftHigh(a * b, w, shift);
      w.hi / Pow2(And(shift, 63))
  }

  lemma ShiftByZero(total: nat, w: Wide)
    requires w.hi * 0x1_0000_0000_0000_0000 + w.lo == total
    ensures w.lo == total / Pow2(0) % 0x1_0000_0000_0000_0000
  {
    assert total / 1 == total;
  }

  lemma ShiftLow(total: nat, w: Wide, s: nat)
    requires 0 < s < 64
    requires w.hi * 0x1_0000_0000_0000_0000 + w.lo == total
    ensures 0 <= w.lo / Pow2(s)
    ensures Or(w.lo / Pow2(s), Wrap64(w.hi * Pow2(64 - s))) == total / Pow2(s) % 0x1_0000_0000_0000_0000
  {
    var p, q, m := Pow2(s), Pow2(64 - s), 0x1_0000_0000_0000_0000;
    assert p * q == m by { Pow2Add(s, 64 - s); Pow2Values(); }
    FunnelShift(total, w.hi, w.lo, p, q, m);
    OrCommutes(w.lo / p, w.hi * q % m);
    OrDisjoint(w.hi * q % m, w.lo / p, 64 - s);
  }

  /** The two halves that a right shift by `p` takes from a double word do not overlap. */
  lemma FunnelShift(total: nat, hi: nat, lo: nat, p: nat, q: nat, m: nat)
    requires p > 0 && q > 0 && m == p * q && lo < m && total == hi * m + lo
    ensures 0 <= lo / p < q
    ensures 0 <= hi * q % m && hi * q % m % q == 0
    ensures total / p % m == hi * q % m + lo / p
  {
    var l1, h1, h0 := lo / p, hi / p, hi % p;
    DivLess(lo, p, q);
    KeptHigh(hi, p, q, m, h1, h0);
    ShiftedSum(total, hi, lo, p, q, m);
    assert hi * q + l1 == m * h1 + (q * h0 + l1);
    DivModUnique(hi * q + l1, m, h1, q * h0 + l1);
    DivModUnique(q * h0, q, h0, 0);
  }

  lemma KeptHigh(hi: nat, p: nat, q: nat, m: nat, h1: int, h0: int)
    requires p > 0 && q > 0 && m == p * q && h1 == hi / p && h0 == hi % p
    ensures hi * q == m * h1 + q * h0
    ensures 0 <= q * h0 && q * h0 + q <= m
    ensures hi * q % m == q * h0
  {
    Distribute(p, h1, h0, q);
    MulMono(q, 0, h0);
    MulMono(q, h0, p);
    DivModUnique(hi * q, m, h1, q * h0);
  }

  lemma ShiftedSum(total: nat, hi: nat, lo: nat, p: nat, q: nat, m: nat)
    requires p > 0 && m == p * q && total == hi * m + lo
    ensures total / p == hi * q + lo / p
  {
    var k := hi * q;
    assert hi * m == p * k by { Rotate(hi, p, q); }
    var l1, l0 := lo / p, lo % p;
    assert p * (k + l1) == p * k + p * l1;
    DivModUnique(total, p, k + l1, l0);
  }

  lemma Distribute(p: int, a: int, b: int, q: int)
    ensures (p * a + b) * q == (p * q) * a + q * b
  {
  }

  lemma Rotate(a: int, p: int, q: int)
    ensures a * (p * q) == p * (a * q)
  {
  }

  lemma DivLess(x: nat, p: nat, q: nat)
    requires p > 0 && x < p * q
    ensures 0 <= x / p < q
  {
    var d := x / p;
    assert x == p * d + x % p;
    if d >= q {
      MulMono(p, q, d);
    } else if d < 0 {
      MulMono(p, d, 0);
    }
  }

  lemma ShiftHigh(total: nat, w: Wide, shift: nat)
    requires shift >= 64
    requires w.hi * 0x1_0000_0000_0000_0000 + w.lo == total
    ensures And(shift, 63) == shift % 64
    ensures 0 <= w.hi / Pow2(shift % 64) < 0x1_0000_0000_0000_0000
    ensures w.hi / Pow2(shift % 64) == total / Pow2(64 + shift % 64)
    ensures shift < 128 ==> w.hi / Pow2(shift % 64) == total / Pow2(shift) % 0x1_0000_0000_0000_0000
  {
    hide And, Pow2;
    ShiftMask(shift);
    HighWord(total, w.hi, w.lo, shift % 64);
    if shift < 128 {
      assert 64 + shift % 64 == shift;
    }
  }

  lemma HighWord(total: nat, hi: u64, lo: u64, s: nat)
    requires total == hi * 0x1_0000_0000_0000_0000 + lo
    ensures 0 <= hi / Pow2(s) < 0x1_0000_0000_0000_0000
    ensures hi / Pow2(s) == total / Pow2(64 + s)
    ensures hi / Pow2(s) == total / Pow2(64 + s) % 0x1_0000_0000_0000_0000
  {
    var p, mp := Pow2(s), Pow2(64 + s);
    assert mp == 0x1_0000_0000_0000_0000 * p by {
      Pow2Add(64, s);
      Pow2Values();
    }
    DropLowWord(total, hi, lo, p, mp);
  }

  lemma DropLowWord(total: nat, hi: u64, lo: u64, p: nat, mp: nat)
    requires p > 0 && mp == 0x1_0000_0000_0000_0000 * p && total == hi * 0x1_0000_0000_0000_0000 + lo
    ensures 0 <= hi / p < 0x1_0000_0000_0000_0000
    ensures total / mp == hi / p
    ensures hi / p == total / mp % 0x1_0000_0000_0000_0000
  {
    Quotient(hi, p);
    var h1, h0 := hi / p, hi % p;
    assert total == mp * h1 + (h0 * 0x1_0000_0000_0000_0000 + lo) by {
      Associate(0x1_0000_0000_0000_0000, p, h1);
    }
    DivModUnique(total, mp, h1, h0 * 0x1_0000_0000_0000_0000 + lo);
  }

  lemma Quotient(n: nat, d: nat)
    requires d > 0
    ensures n == d * (n / d) + n % d
    ensures 0 <= n / d <= n && 0 <= n % d < d
    ensures d * (n / d) <= n
  {
    DivLess(n, d, n + 1) by {
      MulMono(n + 1, 1, d);
      assert d * (n + 1) == (n + 1) * d;
    }
  }

  lemma ShiftMask(shift: nat)
    ensures And(shift, 63) == shift % 64
  {
    var p := Pow2(6);
    assert p == 64 by { assert Pow2(2) == 4; Pow2Add(4, 2); }
    AndLowMask(shift, 6);
  }

  /** Past 127 the C code reduces the shift by `shift & 63`: the answer is right only for small products. */
  lemma MulShrExact(a: u64, b: u64, shift: u32)
    ensures MulShr(a, b, shift) == a * b / Pow2(shift) % 0x1_0000_0000_0000_0000
       <==> shift < 128 || a * b < Pow2(64 + shift % 64)
  {
    if shift >= 128 {
      var total, w, p := a * b, Product128(a, b), Pow2(64 + shift % 64);
      MulBound(a, b, 0xFFFF_FFFF_FFFF_FFFF, 0xFFFF_FFFF_FFFF_FFFF);
      ShiftHigh(total, w, shift);
      FarShift(total, shift);
      QuotientZero(total, p);
    }
  }

  /** The largest operands and a shift of 128: the product shifted away should leave 0. */
  lemma FarShiftFails()
    ensures var m := 0xFFFF_FFFF_FFFF_FFFF;
            MulShr(m, m, 128) != m * m / Pow2(128) % 0x1_0000_0000_0000_0000
  {
    hide MulShr;
    Pow2Values();
    MulShrExact(0xFFFF_FFFF_FFFF_FFFF, 0xFFFF_FFFF_FFFF_FFFF, 128);
  }

  lemma FarShift(total: nat, shift: nat)
    requires total < 0x1_0000_0000_0000_0000_0000_0000_0000_0000 && shift >= 128
    ensures total / Pow2(shift) == 0
  {
    assert Pow2(128) == 0x1_0000_0000_0000_0000_0000_0000_0000_0000 by { Pow2Add(64, 64); Pow2Values(); }
    Pow2Mono(128, shift);
    QuotientZero(total, Pow2(shift));
  }

  lemma QuotientZero(x: nat, p: nat)
    requires p > 0
    ensures x / p == 0 <==> x < p
  {
    if x < p {
      DivModUnique(x, p, 0, x);
    }
  }
}

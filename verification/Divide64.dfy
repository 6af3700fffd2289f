/**
 Unsigned 64-bit division of `utility.c`: the bit search `fls`, the shift-and-subtract
 divide by a 32-bit base, and the 64/64 divide that corrects a normalised estimate.
*/
module Divide64 {
  import opened Bits
  import opened Arith64

  /** `fls`: position, counted from 1, of the most significant bit set. */
  method Fls(x0: u32) returns (r: u32)
    ensures x0 == 0 ==> r == 0
    ensures x0 != 0 ==> 1 <= r <= 32 && Pow2(r - 1) <= x0 < Pow2(r)
  {
    var x := x0;
    r := 32;
    if x == 0 {
      return 0;
    }
    x, r := Narrow(x0, x, r, 16, 0x1_0000, 0xffff0000);
    x, r := Narrow(x0, x, r, 8, 0x100, 0xff000000);
    x, r := Narrow(x0, x, r, 4, 16, 0xf0000000);
    x, r := Narrow(x0, x, r, 2, 4, 0xc0000000);
    x, r := Narrow(x0, x, r, 1, 2, 0x80000000);
    FlsResult(x0, x, r);
  }

  /** One of the five tests of `fls`: if the top `k` bits are clear, move left by `k`; `p` is `2^k`. */
  method Narrow(ghost x0: u32, x: u32, r: u32, k: nat, p: nat, mask: nat) returns (x': u32, r': u32)
    requires Normalising(x0, x, r)
    requires Step(k, p, mask) && 2 * k <= r && x * p >= 0x1_0000_0000 - mask
    ensures Normalising(x0, x', r')
    ensures x' >= 0x1_0000_0000 - mask && r' >= k
    ensures (x' == x && r' == r) || (x' == x * p && r' == r - k)
  {
    FlsStep(x0, x, r, k, p, mask);
    hide Normalising, Step, And;
    x', r' := x, r;
    if And(x, mask) == 0 {
      x', r' := Wrap32(x * p), r - k;
    }
  }

  predicate Step(k: nat, p: nat, mask: nat) {
    || (k == 16 && p == 0x1_0000 && mask == 0xffff0000)
    || (k == 8 && p == 0x100 && mask == 0xff000000)
    || (k == 4 && p == 16 && mask == 0xf0000000)
    || (k == 2 && p == 4 && mask == 0xc0000000)
    || (k == 1 && p == 2 && mask == 0x80000000)
  }

  /** `x` is the argument moved left by the `32 - r` places already searched. */
  ghost predicate Normalising(x0: u32, x: u32, r: u32) {
    x0 != 0 && r <= 32 && x == x0 * Pow2(32 - r)
  }

  /** One step of the search: either the top `k` bits hold something, or `x` may move left by `k`. */
  lemma FlsStep(x0: u32, x: u32, r: u32, k: nat, p: nat, mask: nat)
    requires Normalising(x0, x, r)
    requires Step(k, p, mask)
    requires k <= r
    ensures And(x, mask) == 0 ==> x * p < 0x1_0000_0000 && Normalising(x0, x * p, r - k)
    ensures And(x, mask) != 0 ==> x >= 0x1_0000_0000 - mask
  {
    var b := 0x1_0000_0000 - mask;
    StepPowers(k, p, mask);
    MaskTest(x, k, mask);
    if x < b {
      FlsMove(x0, x, r, k, p, b);
    }
  }

  lemma FlsMove(x0: u32, x: u32, r: u32, k: nat, p: nat, b: nat)
    requires Normalising(x0, x, r)
    requires k <= r && p == Pow2(k) && p * b == 0x1_0000_0000 && x < b
    ensures x * p < 0x1_0000_0000 && Normalising(x0, x * p, r - k)
  {
    var y := x * p;
    assert 0 <= y < 0x1_0000_0000 by {
      MulMono(p, x, b);
      MulMono(p, 0, x);
      assert x * p == p * x;
    }
    assert y == x0 * Pow2(32 - (r - k)) by { ShiftLeft(x0, x, r, k, p); }
  }

  lemma StepPowers(k: nat, p: nat, mask: nat)
    requires Step(k, p, mask)
    ensures p == Pow2(k) && 0x1_0000_0000 - mask == Pow2(32 - k)
    ensures p * (0x1_0000_0000 - mask) == 0x1_0000_0000
  {
    Pow2Values();
  }

  lemma MaskTest(x: u32, k: nat, mask: nat)
    requires k <= 32 && mask + Pow2(32 - k) == 0x1_0000_0000
    ensures And(x, mask) == 0 <==> x < Pow2(32 - k)
  {
    assert Pow2(32) == 0x1_0000_0000 by { Pow2Values(); }
    AndHighMask(x, 32 - k, k, mask);
  }

  lemma ShiftLeft(x0: nat, x: nat, r: nat, k: nat, p: nat)
    requires k <= r <= 32 && p == Pow2(k) && x == x0 * Pow2(32 - r)
    ensures x * p == x0 * Pow2(32 - (r - k))
  {
    assert 32 - (r - k) == 32 - r + k;
    Pow2Add(32 - r, k);
    Associate(x0, Pow2(32 - r), p);
  }

  lemma FlsResult(x0: u32, x: u32, r: u32)
    requires Normalising(x0, x, r)
    requires x >= 0x8000_0000
    ensures r >= 1 && Pow2(r - 1) <= x0 < Pow2(r)
  {
    var c := Pow2(32 - r);
    assert c * Pow2(r) == 0x1_0000_0000 by { Pow2Add(32 - r, r); Pow2Values(); }
    MulMono(c, 1, x0);
    assert r >= 1;
    TopBit(x0, c, Pow2(r - 1));
  }

  lemma TopBit(x0: u32, c: nat, h: nat)
    requires c * (2 * h) == 0x1_0000_0000
    requires 0x8000_0000 <= x0 * c < 0x1_0000_0000
    ensures h <= x0 < 2 * h
  {
    assert c * (2 * h) == 2 * (c * h);
    if x0 >= 2 * h {
      MulMono(c, 2 * h, x0);
    } else if x0 < h {
      MulMono(c, x0, h);
    }
  }

  /** `__div64_32`: the C code overwrites the dividend with the quotient and returns the remainder. */
  method Div64By32(n: u64, base: u32) returns (res: u64, remainder: u32)
    requires base > 0
    ensures res == n / base && remainder == n % base
  {
    var rem: u64;
    res, rem := ReduceHigh(n, base);
    var b, d := ScaleUp(base, rem);
    res, rem := SubtractDown(n, base, res, rem, b, d);
    DivModUnique(n, base, res, rem);
    remainder := Wrap32(rem);
  }

  /** The first step of `__div64_32`: the high word is divided by the hardware. */
  method ReduceHigh(n: u64, base: u32) returns (res: u64, rem: u64)
    requires base > 0
    ensures base * res + rem == n
  {
    var high: u32 := n / 0x1_0000_0000;
    res, rem := 0, n;
    if high >= base {
      high := high / base;
      PreReduce(n, base, high, Mul64By32(high, base));
      res := high * 0x1_0000_0000;
      rem := Wrap64(rem - Mul64By32(high, base) * 0x1_0000_0000);
    }
  }

  /** The doubling loop of `__div64_32`; the C condition reads the top bit of `b` as a sign. */
  method ScaleUp(base: u32, rem: u64) returns (b: u64, d: u64)
    requires base > 0
    ensures PowerOfTwo(d) && b == base * d && rem - b < b
  {
    b, d := base, 1;
    while 0 < b < 0x8000_0000_0000_0000 && b < rem
      invariant b == base * d && PowerOfTwo(d) && b > 0
      decreases rem - b
    {
      Double(base, b, d);
      b := Wrap64(b + b);
      d := Wrap64(d + d);
    }
  }

  /** The `do ... while (d)` loop of `__div64_32`: one quotient bit per round. */
  method SubtractDown(ghost n: u64, ghost base: u32, res0: u64, rem0: u64, b0: u64, d0: u64)
      returns (res: u64, rem: u64)
    requires base > 0 && base * res0 + rem0 == n
    requires PowerOfTwo(d0) && b0 == base * d0 && rem0 - b0 < b0
    ensures n == base * res + rem && rem < base
  {
    res, rem := res0, rem0;
    var b, d := b0, d0;
    ghost var done := base * res;
    var first := true;
    while first || d != 0
      invariant first ==> d != 0
      invariant done == base * res && done + rem == n
      invariant d != 0 ==> PowerOfTwo(d) && b == base * d && rem - b < b
      invariant d == 0 ==> rem < base
      decreases d, first
    {
      first := false;
      if rem >= b {
        Subtract(n, base, res, rem, d);
        rem := rem - b;
        res := Wrap64(res + d);
        done := done + b;
      }
      Halve(base, d);
      b := b / 2;
      d := d / 2;
    }
  }

  predicate PowerOfTwo(d: nat) {
    d == 1 || (d > 1 && d % 2 == 0 && PowerOfTwo(d / 2))
  }

  /** While `b` stays below the sign bit, doubling `b` and `d` wraps neither. */
  lemma Double(base: u32, b: u64, d: u64)
    requires base > 0 && PowerOfTwo(d) && b == base * d && b < 0x8000_0000_0000_0000
    ensures Wrap64(b + b) == b + b == base * Wrap64(d + d)
    ensures PowerOfTwo(Wrap64(d + d))
  {
    assert d <= b by { MulMono(d, 1, base); }
    DivModUnique(b + b, 0x1_0000_0000_0000_0000, 0, b + b);
    DivModUnique(d + d, 0x1_0000_0000_0000_0000, 0, d + d);
    DivModUnique(d + d, 2, d, 0);
    TwiceProduct(base, d);
    hide Wrap64;
  }

  lemma TwiceProduct(base: int, d: int)
    ensures base * (d + d) == base * d + base * d
  {
  }

  lemma PreReduce(n: u64, base: u32, h: u32, product: u64)
    requires base > 0 && h == n / 0x1_0000_0000 / base && product == h * base
    ensures base * (h * 0x1_0000_0000) == product * 0x1_0000_0000
    ensures Wrap64(n - product * 0x1_0000_0000) == n - product * 0x1_0000_0000
  {
    Quotient(n / 0x1_0000_0000, base);
    assert base * h == product;
    assert base * (h * 0x1_0000_0000) == base * h * 0x1_0000_0000;
  }

  lemma Subtract(n: u64, base: u32, res: u64, rem: u64, d: u64)
    requires base > 0 && base * res + rem == n && rem >= base * d
    ensures base * (res + d) == base * res + base * d
    ensures res + d <= n
  {
    assert base * (res + d) == base * res + base * d;
    MulMono(res + d, 1, base);
  }

  lemma Halve(base: u32, d: u64)
    requires PowerOfTwo(d)
    ensures d > 1 ==> PowerOfTwo(d / 2) && base * d / 2 == base * (d / 2) && 2 * (base * (d / 2)) == base * d
    ensures d == 1 ==> d / 2 == 0 && base * d == base
  {
    if d > 1 {
      var h := d / 2;
      assert d == 2 * h;
      assert base * (2 * h) == 2 * (base * h);
    }
  }

  /** `__div64_64` */
  method Div64By64(n: u64, divisor: u64) returns (quot: u64, rem: u64)
    requires divisor > 0
    ensures n == divisor * quot + rem && rem < divisor
  {
    var high: u32 := divisor / 0x1_0000_0000;
    if high == 0 {
      quot, rem := Div64By32(n, Wrap32(divisor));
      Quotient(n, divisor);
    } else {
      var estimate := Estimate(n, divisor, high);
      quot, rem := CorrectEstimate(n, divisor, estimate);
    }
  }

  /** The normalised divide of `__div64_64`. */
  method Estimate(n: u64, divisor: u64, high: u32) returns (quot: u64)
    requires high == divisor / 0x1_0000_0000 && high > 0
    ensures quot == n / divisor || quot == n / divisor + 1
  {
    var k := Fls(high);
    Normalised(divisor, k);
    var u, v := n / Pow2(k), divisor / Pow2(k);
    EstimateOffByOne(n, divisor, Pow2(k));
    var rem;
    quot, rem := Div64By32(u, Wrap32(v));
  }

  /** The decrement, multiply back and at most one correction of `__div64_64`. */
  method CorrectEstimate(n: u64, divisor: u64, estimate: u64) returns (quot: u64, rem: u64)
    requires divisor > 0
    requires estimate == n / divisor || estimate == n / divisor + 1
    ensures n == divisor * quot + rem && rem < divisor
  {
    Quotient(n, divisor);
    quot := if estimate != 0 then estimate - 1 else 0;
    Corrected(n, divisor, quot);
    ghost var product := divisor * quot;
    var back := LowProduct(quot, divisor);
    rem := Wrap64(n - back);
    assert rem == n - product;
    if rem >= divisor {
      quot := quot + 1;
      rem := rem - divisor;
      assert divisor * quot == product + divisor;
    }
  }

  /** Shifting the divisor by the bit length of its high word leaves exactly 32 significant bits. */
  lemma Normalised(divisor: u64, k: u32)
    requires 1 <= k <= 32
    requires Pow2(k - 1) <= divisor / 0x1_0000_0000 < Pow2(k)
    ensures 0x8000_0000 <= divisor / Pow2(k) < 0x1_0000_0000
    ensures Pow2(k) == 2 || Pow2(k) >= 4
  {
    var h := Pow2(k - 1);
    LongDivisor(divisor, h);
  }

  lemma LongDivisor(divisor: u64, h: nat)
    requires h > 0 && h <= divisor / 0x1_0000_0000 < 2 * h
    ensures 0x8000_0000 <= divisor / (2 * h) < 0x1_0000_0000
  {
    assert h * 0x1_0000_0000 <= divisor < 2 * h * 0x1_0000_0000;
    DivLess(divisor, 2 * h, 0x1_0000_0000);
    var v := divisor / (2 * h);
    if v < 0x8000_0000 {
      assert divisor == 2 * h * v + divisor % (2 * h);
      MulMono(2 * h, v, 0x8000_0000);
    }
  }

  /** The estimate from the two most significant parts is the true quotient or one more. */
  lemma EstimateOffByOne(n: u64, d: u64, p: nat)
    requires p == 2 || p >= 4
    requires 0x8000_0000 <= d / p
    ensures 0 <= n / p <= n
    ensures var q := n / p / (d / p);
            q == n / d || q == n / d + 1
  {
    var v, u := d / p, n / p;
    Quotient(n, p);
    Quotient(d, p);
    Quotient(u, v);
    Quotient(n, d);
    var q', q := u / v, n / d;
    NotBelow(n, d, p, v, u, q', q);
    ErrorSmall(n, p, v, u, d % p, q');
    NotFarAbove(n, d, p, v, u, d % p, q', q);
  }

  lemma NotBelow(n: nat, d: nat, p: nat, v: nat, u: nat, q': nat, q: nat)
    requires n < p * u + p && u < v * q' + v && d >= p * v && n >= d * q
    ensures q <= q'
  {
    var x := v * (q' + 1);
    assert u < x;
    MulMono(p, u, x);
    Scaled(d, p, v, q' + 1);
    if q > q' {
      MulMono(d, q' + 1, q);
    }
  }

  lemma Scaled(d: nat, p: nat, v: nat, a: nat)
    requires d >= p * v
    ensures p * (v * a) <= d * a
  {
    MulMono(a, p * v, d);
    Rotate(a, p, v);
    assert a * v == v * a && a * d == d * a;
  }

  lemma NotFarAbove(n: nat, d: nat, p: nat, v: nat, u: nat, e: nat, q': nat, q: nat)
    requires n >= p * u && u >= v * q' && d == p * v + e && n < d * q + d
    requires e * (q' - 1) <= p * v
    ensures q' <= q + 1
  {
    if q' >= 1 {
      var b := q' - 1;
      assert d * b == p * (v * q') - p * v + e * b by { BackOff(p, v, e, q'); }
      assert p * (v * q') <= p * u by { MulMono(p, v * q', u); }
      if b > q {
        MulMono(d, q, b);
      }
    }
  }

  lemma BackOff(p: int, v: int, e: int, q: int)
    ensures (p * v + e) * (q - 1) == p * (v * q) - p * v + e * (q - 1)
  {
    assert (p * v) * q == p * (v * q);
  }

  /** The truncated low bits of the divisor cannot move the estimate by more than one. */
  lemma ErrorSmall(n: u64, p: nat, v: nat, u: nat, e: nat, q: nat)
    requires p == 2 || p >= 4
    requires v >= 0x8000_0000 && e < p && n >= p * u && u >= v * q
    ensures e * (q - 1) <= p * v
  {
    if q == 0 {
      assert e * (q - 1) == 0 - e as int;
    } else {
      var k := p * q;
      assert v * k <= n by {
        MulMono(p, v * q, u);
        Rotate(v, p, q);
      }
      assert k < 0x2_0000_0000 by {
        if k >= 0x2_0000_0000 {
          MulMono(v, 0x2_0000_0000, k);
        }
      }
      if p == 2 {
        assert e * (q - 1) <= q - 1 by { MulMono(q - 1, e, 1); }
      } else {
        assert e * (q - 1) <= k by { MulBound(e, q - 1, p, q); }
        assert 4 * v <= p * v by { MulMono(v, 4, p); }
      }
    }
  }

  /** Both cases of the decremented estimate leave at most one more subtraction of the divisor. */
  lemma Corrected(n: u64, d: u64, quot: u64)
    requires d > 0
    requires quot == n / d || quot + 1 == n / d
    ensures d * quot <= n < d * quot + 2 * d
    ensures n >= d * quot + d ==> quot + 1 <= n && d * (quot + 1) == d * quot + d
  {
    Quotient(n, d);
    var q := n / d;
    assert d * q <= n < d * q + d;
    assert d * (quot + 1) == d * quot + d;
    if n >= d * quot + d {
      MulMono(quot + 1, 1, d);
    }
  }

  /** `mul_u64_u64_shr(a, b, 0)` where the product fits. */
  method LowProduct(a: u64, b: u64) returns (r: u64)
    requires b * a < 0x1_0000_0000_0000_0000
    ensures r == b * a
  {
    hide MulShr;
    r := MulShr(a, b, 0);
    MulMono(b, 0, a);
    Whole(b * a);
    assert a * b == b * a && Pow2(0) == 1;
  }

  lemma Whole(t: nat)
    requires t < 0x1_0000_0000_0000_0000
    ensures t / 1 % 0x1_0000_0000_0000_0000 == t
  {
  }
}

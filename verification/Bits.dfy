/**
 Machine words as bounded integers, and the bitwise operators of C on them.
 The operators are defined bit by bit, so that every use of a mask or a shift in
 the other modules is justified by one of the lemmas below.
*/
module Bits {

  type u8 = x: int | 0 <= x < 0x100
  type u16 = x: int | 0 <= x < 0x1_0000
  type u32 = x: int | 0 <= x < 0x1_0000_0000
  type u64 = x: int | 0 <= x < 0x1_0000_0000_0000_0000
  type s16 = x: int | -0x8000 <= x < 0x8000

  function Wrap8(x: int): u8 { x % 0x100 }

  function Wrap16(x: int): u16 { x % 0x1_0000 }

  function Wrap32(x: int): u32 { x % 0x1_0000_0000 }

  function Wrap64(x: int): u64 { x % 0x1_0000_0000_0000_0000 }

  /** Two's complement reading of a 16-bit word: the C cast `(s16)`. */
  function Signed16(x: u16): s16 {
    if x < 0x8000 then x else x - 0x1_0000
  }

  /** The `int` a 32-bit word stands for. */
  function Signed32(w: u32): int {
    if w < 0x8000_0000 then w else w - 0x1_0000_0000
  }

  function Pow2(n: nat): (p: nat)
    ensures p >= 1
  {
    if n == 0 then 1 else 2 * Pow2(n - 1)
  }

  lemma {:induction false} Pow2Add(m: nat, n: nat)
    ensures Pow2(m + n) == Pow2(m) * Pow2(n)
  {
    if m > 0 {
      Pow2Add(m - 1, n);
      assert m + n - 1 == m - 1 + n;
      Associate(2, Pow2(m - 1), Pow2(n));
    }
  }

  lemma {:induction false} Pow2Mono(m: nat, n: nat)
    requires m <= n
    ensures Pow2(m) <= Pow2(n)
  {
    if m < n {
      Pow2Mono(m, n - 1);
    }
  }

  lemma Pow2Values()
    ensures Pow2(1) == 2 && Pow2(2) == 4 && Pow2(3) == 8 && Pow2(4) == 16
    ensures Pow2(8) == 0x100 && Pow2(16) == 0x1_0000 && Pow2(24) == 0x100_0000
    ensures Pow2(28) == 0x1000_0000 && Pow2(30) == 0x4000_0000 && Pow2(31) == 0x8000_0000
    ensures Pow2(32) == 0x1_0000_0000 && Pow2(33) == 0x2_0000_0000
    ensures Pow2(64) == 0x1_0000_0000_0000_0000
  {
    assert Pow2(2) == 4 && Pow2(3) == 8 && Pow2(4) == 16;
    assert Pow2(8) == 0x100 by { Pow2Add(4, 4); }
    assert Pow2(16) == 0x1_0000 by { Pow2Add(8, 8); }
    assert Pow2(24) == 0x100_0000 by { Pow2Add(16, 8); }
    assert Pow2(28) == 0x1000_0000 by { Pow2Add(24, 4); }
    assert Pow2(30) == 0x4000_0000 by { Pow2Add(28, 2); }
    assert Pow2(32) == 0x1_0000_0000 by { Pow2Add(16, 16); }
    assert Pow2(64) == 0x1_0000_0000_0000_0000 by { Pow2Add(32, 32); }
  }

  /** `a & b` */
  function And(a: nat, b: nat): nat {
    if a == 0 || b == 0 then 0
    else 2 * And(a / 2, b / 2) + (if a % 2 == 1 && b % 2 == 1 then 1 else 0)
  }

  /** `a | b` */
  function Or(a: nat, b: nat): nat
    decreases a + b
  {
    if a == 0 && b == 0 then 0
    else 2 * Or(a / 2, b / 2) + (if a % 2 == 1 || b % 2 == 1 then 1 else 0)
  }

  /** Masking with `2^k - 1` takes the remainder by `2^k`. */
  lemma {:induction false} AndLowMask(x: nat, k: nat)
    ensures And(x, Pow2(k) - 1) == x % Pow2(k)
  {
    if x != 0 && k != 0 {
      AndLowMask(x / 2, k - 1);
      var p := Pow2(k - 1);
      assert (Pow2(k) - 1) / 2 == p - 1;
      DivModDouble(x, p);
    } else if k == 0 {
      assert x % 1 == 0;
    }
  }

  lemma Halves(x: nat)
    ensures x / 2 / 2 == x / 4 && x / 4 / 2 == x / 8 && x / 8 / 2 == x / 16
  {
  }

  /** A field moved up by one nibble. */
  lemma AndNibbleUp(x: nat, m: nat)
    ensures And(x, 16 * m) == 16 * And(x / 16, m)
  {
    hide And;
    var a, b, c, d := x / 2, x / 4, x / 8, x / 16;
    var m2, m4, m8 := 2 * m, 4 * m, 8 * m;
    Halves(x);
    AndDouble(x, m8);
    AndDouble(a, m4);
    AndDouble(b, m2);
    AndDouble(c, m);
  }

  /** The four bit tests on a word below 16. */
  lemma AndOneBit(x: nat)
    ensures And(x, 1) == x % 2
    ensures And(x, 2) == 2 * (x / 2 % 2)
    ensures And(x, 4) == 4 * (x / 4 % 2)
    ensures And(x, 8) == 8 * (x / 8 % 2)
  {
    AndLast(x);
    AndLast(x / 2);
    AndLast(x / 4);
    AndLast(x / 8);
    AndDouble(x, 1);
    AndDouble(x, 2);
    AndDouble(x / 2, 1);
    AndDouble(x, 4);
    AndDouble(x / 2, 2);
    AndDouble(x / 4, 1);
    Halves(x);
  }

  lemma AndLast(x: nat)
    ensures And(x, 1) == x % 2
  {
    assert And(x / 2, 0) == 0;
  }

  /** Masking with the top `n` of `k + n` bits leaves nothing exactly when `x` fits in `k` bits. */
  lemma {:induction false} AndHighMask(x: nat, k: nat, n: nat, m: nat)
    requires x < Pow2(k + n)
    requires m + Pow2(k) == Pow2(k + n)
    ensures And(x, m) == 0 <==> x < Pow2(k)
  {
    if k == 0 {
      assert x < Pow2(n) && m == Pow2(n) - 1;
      AndLowMask(x, n);
      assert x % Pow2(n) == x by { assert x == Pow2(n) * 0 + x; DivModUnique(x, Pow2(n), 0, x); }
    } else {
      assert k + n - 1 == k - 1 + n;
      var a, b, h := Pow2(k - 1), Pow2(k - 1 + n), m / 2;
      assert Pow2(k) == 2 * a && Pow2(k + n) == 2 * b;
      AndHighMask(x / 2, k - 1, n, h);
      AndDouble(x, h);
      assert m == 2 * h;
    }
  }

  lemma AndDouble(x: nat, m: nat)
    ensures And(x, 2 * m) == 2 * And(x / 2, m)
  {
    assert 2 * m / 2 == m && 2 * m % 2 == 0;
  }

  /** Two words that share no bit position: the disjunction is the sum. */
  lemma {:induction false} OrDisjoint(a: nat, b: nat, k: nat)
    requires a % Pow2(k) == 0
    requires b < Pow2(k)
    ensures Or(a, b) == a + b
    decreases k
  {
    if k == 0 {
      OrZero(a);
    } else {
      var p := Pow2(k - 1);
      var q := a / (2 * p);
      assert a == 2 * (p * q);
      assert (a / 2) == p * q;
      DivModUnique(a / 2, p, q, 0);
      OrDisjoint(a / 2, b / 2, k - 1);
    }
  }

  /** A nibble below both words goes through unchanged where only one of them has it. */
  lemma OrNibbleUp(a: nat, b: nat, x: nat)
    requires x < 16
    ensures Or(16 * a, 16 * b + x) == 16 * Or(a, b) + x
  {
    hide Or;
    var high, low := x / 4, x % 4;
    OrPairUp(4 * a, 4 * b + high, low);
    OrPairUp(a, b, high);
  }

  lemma OrPairUp(a: nat, b: nat, x: nat)
    requires x < 4
    ensures Or(4 * a, 4 * b + x) == 4 * Or(a, b) + x
  {
    hide Or;
    var high, low := x / 2, x % 2;
    OrDouble(2 * a, 2 * b + high, low);
    OrDouble(a, b, high);
  }

  lemma OrDouble(a: nat, b: nat, y: nat)
    requires y < 2
    ensures Or(2 * a, 2 * b + y) == 2 * Or(a, b) + y
  {
    assert 2 * a / 2 == a && 2 * a % 2 == 0;
    assert (2 * b + y) / 2 == b && (2 * b + y) % 2 == y;
  }

  lemma {:induction false} OrCommutes(a: nat, b: nat)
    ensures Or(a, b) == Or(b, a)
    decreases a + b
  {
    if a != 0 || b != 0 {
      OrCommutes(a / 2, b / 2);
    }
  }

  lemma {:induction false} OrZero(a: nat)
    ensures Or(a, 0) == a
  {
    if a > 0 {
      OrZero(a / 2);
    }
  }

  lemma Associate(x: int, a: int, b: int)
    ensures x * (a * b) == x * a * b
  {
  }

  lemma DivModDouble(x: nat, p: nat)
    requires p > 0
    ensures x / (2 * p) == x / 2 / p
    ensures x % (2 * p) == 2 * (x / 2 % p) + x % 2
  {
    var q, r := x / 2 / p, x / 2 % p;
    assert x / 2 == p * q + r;
    assert (2 * p) * q == 2 * (p * q);
    DivModUnique(x, 2 * p, q, 2 * r + x % 2);
  }

  lemma {:induction false} MulMono(d: nat, a: int, b: int)
    requires a <= b
    ensures d * a <= d * b
    ensures a < b ==> d * a + d <= d * b
    decreases b - a
  {
    if a < b {
      MulMono(d, a + 1, b);
      assert d * (a + 1) == d * a + d;
    }
  }

  lemma MulUnique(d: nat, a: int, r: int, b: int, s: int)
    requires 0 <= r < d && 0 <= s < d
    requires d * a + r == d * b + s
    ensures a == b && r == s
  {
    if a < b {
      MulMono(d, a, b);
    } else if b < a {
      MulMono(d, b, a);
    }
  }

  /** Quotient and remainder are the only ones that fit. */
  lemma DivModUnique(n: int, d: int, q: int, r: int)
    requires 0 <= r < d
    requires n == d * q + r
    ensures n / d == q && n % d == r
  {
    MulUnique(d, q, r, n / d, n % d);
  }

  /** Whole turns do not show in the remainder. */
  lemma Turns(x: int, d: int, t: int)
    requires d > 0
    ensures (x + d * t) % d == x % d
  {
    assert d * (x / d + t) == d * (x / d) + d * t;
    DivModUnique(x + d * t, d, x / d + t, x % d);
  }

  lemma ModOfMod(x: nat, m: nat, d: nat, q: nat)
    requires d > 0 && m > 0 && d * q == m
    ensures x % m % d == x % d
  {
    var t, y := x / m, x % m;
    var z, r := y / d, y % d;
    Associate(d, q, t);
    assert d * (q * t + z) == d * (q * t) + d * z;
    DivModUnique(x, d, q * t + z, r);
  }
}

/**
 `bcopy`, `memcpy` and `memcmp` of `common/string.c` over one byte memory, where source and
 destination may overlap.
*/
module Memory {
  import opened Bits

  ghost predicate Fits(m: seq<u8>, src: nat, dest: nat, len: nat) {
    src + len <= |m| && dest + len <= |m|
  }

  /** The destination range holds what the source range held; all other bytes are as they were. */
  ghost function Moved(m: seq<u8>, src: nat, dest: nat, len: nat): (r: seq<u8>)
    requires Fits(m, src, dest, len)
    ensures |r| == |m|
  {
    m[..dest] + m[src..src + len] + m[dest + len..]
  }

  /** The first `n` steps of a copy that starts at the low end. */
  ghost function Forward(m: seq<u8>, src: nat, dest: nat, n: nat): (r: seq<u8>)
    requires Fits(m, src, dest, n)
    ensures |r| == |m|
  {
    if n == 0 then m
    else
      var before := Forward(m, src, dest, n - 1);
      before[dest + n - 1 := before[src + n - 1]]
  }

  /** The first `n` steps of a copy of `len` bytes that starts at the high end. */
  ghost function Backward(m: seq<u8>, src: nat, dest: nat, len: nat, n: nat): (r: seq<u8>)
    requires Fits(m, src, dest, len) && n <= len
    ensures |r| == |m|
  {
    if n == 0 then m
    else
      var before := Backward(m, src, dest, len, n - 1);
      before[dest + len - n := before[src + len - n]]
  }

  lemma {:induction false} ForwardAt(m: seq<u8>, src: nat, dest: nat, n: nat, x: nat)
    requires Fits(m, src, dest, n) && dest <= src && x < |m|
    ensures Forward(m, src, dest, n)[x] == if dest <= x < dest + n then m[src + (x - dest)] else m[x]
  {
    if n > 0 {
      ForwardAt(m, src, dest, n - 1, x);
      ForwardAt(m, src, dest, n - 1, src + n - 1);
    }
  }

  lemma {:induction false} BackwardAt(m: seq<u8>, src: nat, dest: nat, len: nat, n: nat, x: nat)
    requires Fits(m, src, dest, len) && n <= len && src <= dest && x < |m|
    ensures Backward(m, src, dest, len, n)[x] ==
            if dest + len - n <= x < dest + len then m[src + (x - dest)] else m[x]
  {
    if n > 0 {
      BackwardAt(m, src, dest, len, n - 1, x);
      BackwardAt(m, src, dest, len, n - 1, src + len - n);
    }
  }

  /** Where byte `x` of the destination comes from when the bytes before it repeat. */
  ghost function Source(src: nat, dest: nat, x: nat): (k: nat)
    requires src < dest <= x
    ensures src <= k < dest
  {
    src + (x - dest) % (dest - src)
  }

  /** One distance back is the same place in the pattern. */
  lemma Lap(src: nat, dest: nat, x: nat)
    requires src < dest <= x
    ensures var back := x - (dest - src);
            Source(src, dest, x) == if back < dest then back else Source(src, dest, back)
  {
    var k, d := x - dest, dest - src;
    if k < d {
      DivModUnique(k, d, 0, k);
    } else {
      Turns(k - d, d, 1);
    }
  }

  /** The wrong direction repeats the bytes before the destination over and over. */
  lemma {:induction false} ForwardSmears(m: seq<u8>, src: nat, dest: nat, n: nat, x: nat)
    requires Fits(m, src, dest, n) && src < dest && x < |m|
    ensures Forward(m, src, dest, n)[x] == if dest <= x < dest + n then m[Source(src, dest, x)] else m[x]
  {
    hide Source;
    if n > 0 {
      ForwardSmears(m, src, dest, n - 1, x);
      ForwardSmears(m, src, dest, n - 1, src + n - 1);
      Lap(src, dest, dest + n - 1);
    }
  }

  /** The first `d` bytes from `src` on, over and over. */
  ghost function Repeated(m: seq<u8>, src: nat, d: nat, len: nat): (r: seq<u8>)
    requires 0 < d && src + d <= |m|
    ensures |r| == len && forall k | 0 <= k < len :: r[k] == m[src + k % d]
  {
    seq(len, k requires 0 <= k => m[src + k % d])
  }

  /** Copying upwards from the low end is right exactly for bytes that repeat at the distance of the move. */
  lemma ForwardRightExactly(m: seq<u8>, src: nat, dest: nat, len: nat)
    requires Fits(m, src, dest, len) && src < dest
    ensures Forward(m, src, dest, len) == Moved(m, src, dest, len) <==>
            m[src..src + len] == Repeated(m, src, dest - src, len)
  {
    hide Forward;
    var f := m[..dest] + Repeated(m, src, dest - src, len) + m[dest + len..];
    forall x | 0 <= x < |m|
      ensures Forward(m, src, dest, len)[x] == f[x]
    {
      ForwardSmears(m, src, dest, len, x);
    }
    assert f[dest..dest + len] == Repeated(m, src, dest - src, len);
    assert Moved(m, src, dest, len)[dest..dest + len] == m[src..src + len];
    assert Forward(m, src, dest, len) == f;
  }

  lemma ForwardMoves(m: seq<u8>, src: nat, dest: nat, len: nat)
    requires Fits(m, src, dest, len) && dest <= src
    ensures Forward(m, src, dest, len) == Moved(m, src, dest, len)
  {
    hide Forward;
    forall x | 0 <= x < |m|
      ensures Forward(m, src, dest, len)[x] == Moved(m, src, dest, len)[x]
    {
      ForwardAt(m, src, dest, len, x);
    }
  }

  lemma BackwardMoves(m: seq<u8>, src: nat, dest: nat, len: nat)
    requires Fits(m, src, dest, len) && src <= dest
    ensures Backward(m, src, dest, len, len) == Moved(m, src, dest, len)
  {
    hide Backward;
    forall x | 0 <= x < |m|
      ensures Backward(m, src, dest, len, len)[x] == Moved(m, src, dest, len)[x]
    {
      BackwardAt(m, src, dest, len, len, x);
    }
  }

  /** Byte by byte: what the source range held at the same distance, or what was there. */
  lemma MovedAt(m: seq<u8>, src: nat, dest: nat, len: nat, x: nat)
    requires Fits(m, src, dest, len) && x < |m|
    ensures Moved(m, src, dest, len)[x] == if dest <= x < dest + len then m[src + (x - dest)] else m[x]
  {
  }

  /** `bcopy`, and with it `memcpy`: the direction is chosen so that no byte is read after it was written. */
  method Bcopy(mem: array<u8>, src: nat, dest: nat, length: nat)
    requires Fits(mem[..], src, dest, length)
    modifies mem
    ensures mem[..] == Moved(old(mem[..]), src, dest, length)
  {
    hide Moved;
    ghost var m := mem[..];
    var len := length;
    if dest < src {
      ForwardMoves(m, src, dest, length);
      var d, s := dest, src;
      while len != 0
        invariant 0 <= len <= length && d == dest + (length - len) && s == src + (length - len)
        invariant mem[..] == Forward(m, src, dest, length - len)
      {
        len := len - 1;
        mem[d] := mem[s];
        d, s := d + 1, s + 1;
      }
    } else {
      BackwardMoves(m, src, dest, length);
      var lasts: int, lastd: int := src + (length - 1), dest + (length - 1);
      while len != 0
        invariant 0 <= len <= length && lastd == dest + (len - 1) && lasts == src + (len - 1)
        invariant mem[..] == Backward(m, src, dest, length, length - len)
      {
        len := len - 1;
        mem[lastd] := mem[lasts];
        lastd, lasts := lastd - 1, lasts - 1;
      }
    }
  }

  /** `memcmp`: 0 exactly for equal ranges, else the difference of the first pair that differs. */
  method Memcmp(m1: seq<u8>, m2: seq<u8>, length: nat) returns (r: int)
    requires length <= |m1| && length <= |m2|
    ensures r == 0 <==> m1[..length] == m2[..length]
    ensures r != 0 ==> exists k | 0 <= k < length :: m1[..k] == m2[..k] && r == m1[k] as int - m2[k] as int
  {
    var len, i := length, 0;
    while len != 0
      invariant i + len == length && m1[..i] == m2[..i]
    {
      len := len - 1;
      if m1[i] != m2[i] {
        assert m1[..length][i] != m2[..length][i];
        return m1[i] as int - m2[i] as int;
      }
      i := i + 1;
    }
    return 0;
  }
}

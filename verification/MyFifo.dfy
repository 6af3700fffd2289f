/**
 `my_fifo_push`, `my_fifo_get` and `my_fifo_pop` of `utility.c`: a ring of equal slots in one
 byte memory, each entry behind a two-byte length, with 8-bit counters that run freely.
*/
module MyFifo {
  import opened Bits
  import opened Options

  predicate RingSize(num: nat) { num in {1, 2, 4, 8, 16, 32, 64, 128} }

  /** An entry as `my_fifo_push` lays it out at `base`. */
  ghost predicate Holds(mem: seq<u8>, base: nat, entry: seq<u8>) {
    && |entry| < 0x1_0000
    && base + 2 + |entry| <= |mem|
    && mem[base] == |entry| % 0x100 && mem[base + 1] == |entry| / 0x100
    && mem[base + 2..base + 2 + |entry|] == entry
  }

  /** The memory after the stores of one push: header, then the payload. */
  function Stored(mem: seq<u8>, base: nat, data: seq<u8>): (r: seq<u8>)
    requires base + 2 + |data| <= |mem|
    ensures |r| == |mem|
  {
    mem[..base] + [|data| % 0x100, |data| / 0x100 % 0x100] + data + mem[base + 2 + |data|..]
  }

  /** The two bytes of the header are those of the length cut to 16 bits. */
  lemma HeaderBytes(n: nat)
    ensures n % 0x1_0000 % 0x100 == n % 0x100 && n % 0x1_0000 / 0x100 == n / 0x100 % 0x100
  {
    var top, mid, low := n / 0x1_0000, n / 0x100 % 0x100, n % 0x100;
    assert n / 0x100 == 0x100 * (n / 0x100 / 0x100) + mid;
    DivModUnique(n, 0x1_0000, n / 0x100 / 0x100, 0x100 * mid + low);
    DivModUnique(n % 0x1_0000, 0x100, mid, low);
  }

  /** The reader's length. */
  function StoredLength(mem: seq<u8>, base: nat): nat
    requires base + 2 <= |mem|
  {
    mem[base] as int + 0x100 * mem[base + 1] as int
  }

  /**
   Low byte and high byte of the length, then the payload. The header keeps 16 bits of the length: a payload of
   65536 bytes becomes an empty entry.
  */
  lemma LengthKeptExactly(mem: seq<u8>, base: nat, data: seq<u8>)
    requires base + 2 + |data| <= |mem|
    ensures var after := Stored(mem, base, data);
            && after[base] == |data| % 0x100 && after[base + 1] == |data| / 0x100 % 0x100
            && (forall i | 0 <= i < |data| :: after[base + 2 + i] == data[i])
            && StoredLength(after, base) == |data| % 0x1_0000
            && (StoredLength(after, base) == |data| <==> |data| < 0x1_0000)
  {
    var n := |data|;
    HeaderBytes(n);
    DivModUnique(n, 0x1_0000, n / 0x1_0000, n % 0x1_0000);
  }

  lemma StoredHolds(mem: seq<u8>, base: nat, data: seq<u8>)
    requires base + 2 + |data| <= |mem|
    ensures Holds(Stored(mem, base, data), base, data[..|data| % 0x1_0000])
  {
    var n := |data| % 0x1_0000;
    HeaderBytes(|data|);
    var after := Stored(mem, base, data);
    assert after[base + 2..base + 2 + n] == data[..n];
  }

  /** The slot of `size` bytes at `base` is the only place a push of `n` bytes writes. */
  ghost predicate Isolated(size: nat, n: nat, base: nat) {
    forall mem: seq<u8>, data: seq<u8> | |data| == n && base + 2 + n <= |mem| ::
      ConfinedTo(mem, Stored(mem, base, data), base, base + size)
  }

  ghost predicate ConfinedTo(mem: seq<u8>, after: seq<u8>, from: nat, to: nat) {
    |after| == |mem| && forall i | 0 <= i < |mem| && !(from <= i < to) :: after[i] == mem[i]
  }

  /** The push checks `n < size` only; a payload stays inside its slot exactly when its header fits too. */
  lemma IsolatedExactly(size: nat, n: nat, base: nat)
    ensures Isolated(size, n, base) <==> n + 2 <= size
  {
    if n + 2 > size {
      var mem: seq<u8> := seq(base + 2 + n, _ => 3);
      var data: seq<u8> := seq(n, _ => 7);
      var i := base + 1 + n;
      assert Stored(mem, base, data)[i] != mem[i];
      assert !ConfinedTo(mem, Stored(mem, base, data), base, base + size);
    } else {
      forall mem: seq<u8>, data: seq<u8> | |data| == n && base + 2 + n <= |mem|
        ensures ConfinedTo(mem, Stored(mem, base, data), base, base + size)
      {
      }
    }
  }

  // Slot arithmetic

  lemma CounterSlot(counter: nat, num: nat)
    requires RingSize(num)
    ensures And(counter, num - 1) == counter % num
  {
    hide And;
    Pow2Values();
    assert Pow2(0) == 1 && Pow2(5) == 32 && Pow2(6) == 64 && Pow2(7) == 128;
    var e := if num == 1 then 0 else if num == 2 then 1 else if num == 4 then 2 else if num == 8 then 3
             else if num == 16 then 4 else if num == 32 then 5 else if num == 64 then 6 else 7;
    AndLowMask(counter, e);
  }

  /** The wrap of the 8-bit counter is invisible in the slot number. */
  lemma WrapSlot(counter: nat, num: nat)
    requires RingSize(num)
    ensures counter % 0x100 % num == counter % num
  {
    var q := 0x100 / num;
    assert num * q == 0x100;
    ModOfMod(counter, 0x100, num, q);
  }

  lemma SlotsDiffer(r: nat, num: nat, i: nat, c: nat)
    requires i < c < i + num
    ensures (r + i) % num != (r + c) % num
  {
    var a, b := r + i, r + c;
    var low, high := a / num, b / num;
    if a % num == b % num {
      if high <= low {
        MulMono(num, high, low);
      } else {
        assert num * (low + 1) == num * low + num;
        MulMono(num, low + 1, high);
      }
      assert false;
    }
  }

  lemma SlotRange(k: nat, num: nat, size: nat)
    requires k < num
    ensures 0 <= k * size && k * size + size <= num * size
  {
    MulMono(size, 0, k);
    MulMono(size, k, num);
    assert k * size == size * k && num * size == size * num;
  }

  lemma SlotsApart(j: nat, k: nat, size: nat)
    requires j != k
    ensures j * size + size <= k * size || k * size + size <= j * size
  {
    if j < k {
      MulMono(size, j, k);
    } else {
      MulMono(size, k, j);
    }
    assert k * size == size * k && j * size == size * j;
  }

  function SlotBase(p: nat, num: nat, size: nat, counter: nat): (base: nat)
    requires RingSize(num)
    ensures p <= base && base + size <= p + num * size
  {
    SlotRange(counter % num, num, size);
    p + counter % num * size
  }

  /** The entries `q`, oldest first, in the slots that follow the counter `r`. */
  ghost predicate Entries(mem: seq<u8>, p: nat, num: nat, size: nat, r: u8, q: seq<seq<u8>>)
    requires RingSize(num)
  {
    forall i | 0 <= i < |q| :: EntryIn(mem, SlotBase(p, num, size, r + i), size, q[i])
  }

  ghost predicate EntryIn(mem: seq<u8>, base: nat, size: nat, entry: seq<u8>) {
    |entry| + 2 <= size && Holds(mem, base, entry)
  }

  lemma EntryStored(mem: seq<u8>, base: nat, data: seq<u8>, size: nat)
    requires base + 2 + |data| <= |mem| && |data| + 2 <= size
    ensures EntryIn(Stored(mem, base, data), base, size, data[..|data| % 0x1_0000])
  {
    StoredHolds(mem, base, data);
  }

  lemma EntryElsewhere(mem: seq<u8>, base: nat, data: seq<u8>, size: nat, other: nat, entry: seq<u8>)
    requires base + 2 + |data| <= |mem| && |data| + 2 <= size
    requires other + size <= base || base + size <= other
    requires EntryIn(mem, other, size, entry)
    ensures EntryIn(Stored(mem, base, data), other, size, entry)
  {
    var after := Stored(mem, base, data);
    assert after[other + 2..other + 2 + |entry|] == mem[other + 2..other + 2 + |entry|];
  }

  /** The write counter points at the slot behind the last entry. */
  lemma WriteSlot(num: nat, w: u8, r: u8, n: nat)
    requires RingSize(num) && n == Wrap8(w - r) && n < num
    ensures w % num == (r + n) % num
    ensures n + 1 == Wrap8(Wrap8(w + 1) - r)
  {
    var turn := (w - r) / 0x100;
    assert w == r + n + 0x100 * turn;
    Turns(r + n, 0x100, turn);
    DivModUnique(w, 0x100, 0, w);
    WrapSlot(r + n, num);
    NextDistance(w, r, n);
  }

  lemma NextDistance(w: u8, r: u8, n: nat)
    requires n == Wrap8(w - r) && n < 0x80
    ensures n + 1 == Wrap8(Wrap8(w + 1) - r)
  {
  }

  /** The slot being written lies apart from the slot of every entry held. */
  lemma FreeSlot(p: nat, num: nat, size: nat, r: u8, w: u8, n: nat, i: nat)
    requires RingSize(num) && i < n < num && n == Wrap8(w - r)
    ensures var base, other := SlotBase(p, num, size, w), SlotBase(p, num, size, r + i);
            other + size <= base || base + size <= other
  {
    WriteSlot(num, w, r, n);
    SlotsDiffer(r, num, i, n);
    SlotsApart((r + i) % num, w % num, size);
  }

  /** A store behind the last entry leaves the others alone and appends what it stored. */
  lemma EntriesGrow(mem: seq<u8>, p: nat, num: nat, size: nat, r: u8, w: u8, q: seq<seq<u8>>, data: seq<u8>)
    requires RingSize(num) && |q| == Wrap8(w - r) && |q| < num && Entries(mem, p, num, size, r, q)
    requires |data| + 2 <= size && SlotBase(p, num, size, w) + 2 + |data| <= |mem|
    ensures Entries(Stored(mem, SlotBase(p, num, size, w), data), p, num, size, r,
                    q + [data[..|data| % 0x1_0000]])
  {
    var base := SlotBase(p, num, size, w);
    var after, all := Stored(mem, base, data), q + [data[..|data| % 0x1_0000]];
    EntryStored(mem, base, data, size);
    WriteSlot(num, w, r, |q|);
    assert SlotBase(p, num, size, r + |q|) == base;
    hide EntryIn, Stored, SlotBase;
    forall i | 0 <= i < |all|
      ensures EntryIn(after, SlotBase(p, num, size, r + i), size, all[i])
    {
      if i < |q| {
        FreeSlot(p, num, size, r, w, |q|, i);
        EntryElsewhere(mem, base, data, size, SlotBase(p, num, size, r + i), q[i]);
      }
    }
  }

  lemma NextSlot(p: nat, num: nat, size: nat, r: u8, i: nat)
    requires RingSize(num)
    ensures SlotBase(p, num, size, Wrap8(r + 1) + i) == SlotBase(p, num, size, r + (i + 1))
  {
    var a, b := Wrap8(r + 1) + i, r + (i + 1);
    assert a % 0x100 == b % 0x100;
    WrapSlot(a, num);
    WrapSlot(b, num);
  }

  /** Dropping the oldest entry needs no more than the counter step. */
  lemma EntriesShrink(mem: seq<u8>, p: nat, num: nat, size: nat, r: u8, q: seq<seq<u8>>)
    requires RingSize(num) && q != [] && Entries(mem, p, num, size, r, q)
    ensures Entries(mem, p, num, size, Wrap8(r + 1), q[1..])
  {
    hide EntryIn, SlotBase;
    var rest := q[1..];
    forall i | 0 <= i < |rest|
      ensures EntryIn(mem, SlotBase(p, num, size, Wrap8(r + 1) + i), size, rest[i])
    {
      NextSlot(p, num, size, r, i);
      assert EntryIn(mem, SlotBase(p, num, size, r + (i + 1)), size, q[i + 1]);
    }
  }

  lemma CountDown(w: u8, r: u8, n: nat)
    requires n == Wrap8(w - r) > 0
    ensures Wrap8(w - Wrap8(r + 1)) == n - 1
  {
    var turn, next := (w - r) / 0x100, if r == 0xff then 0 else r + 1;
    assert Wrap8(r + 1) == next;
    DivModUnique(w - next, 0x100, if r == 0xff then turn + 1 else turn, n - 1);
  }

  // A payload of size - 1 bytes

  lemma NextBase(p: nat, num: nat, size: nat, w: nat)
    requires RingSize(num) && w % num + 1 < num
    ensures SlotBase(p, num, size, w + 1) == SlotBase(p, num, size, w) + size
  {
    NextIndex(w, num);
    NextMultiple(w % num, size);
  }

  lemma NextIndex(w: nat, num: nat)
    requires num > 0 && w % num + 1 < num
    ensures (w + 1) % num == w % num + 1
  {
    var q, k := w / num, w % num;
    assert w == num * q + k;
    hide *;
    DivModUnique(w + 1, num, q, k + 1);
  }

  lemma NextMultiple(k: nat, size: nat)
    ensures (k + 1) * size == k * size + size
  {
  }

  /** The memory after a payload that the push accepts though it runs one byte over its slot. */
  lemma OverrunByte(mem: seq<u8>, base: nat, size: nat, long: seq<u8>)
    requires |long| == size - 1 >= 1 && base + 2 + |long| <= |mem|
    ensures Stored(mem, base, long)[base + size] == long[|long| - 1]
    ensures forall x | base + size < x < |mem| :: Stored(mem, base, long)[x] == mem[x]
  {
  }

  /** The next push puts its length over the last byte: the entry survives only where the two are the same. */
  lemma OverrunIsReplaced(mem: seq<u8>, p: nat, num: nat, size: nat, w: nat, long: seq<u8>, next: seq<u8>)
    requires RingSize(num) && w % num + 1 < num && |long| == size - 1 >= 1 && |long| < 0x1_0000
    requires SlotBase(p, num, size, w) + 2 + |long| <= |mem|
    requires SlotBase(p, num, size, w + 1) + 2 + |next| <= |mem|
    ensures var m := Stored(Stored(mem, SlotBase(p, num, size, w), long), SlotBase(p, num, size, w + 1), next);
            Holds(m, SlotBase(p, num, size, w), long) <==> long[|long| - 1] == |next| % 0x100
  {
    NextBase(p, num, size, w);
    var base := SlotBase(p, num, size, w);
    hide SlotBase;
    ReplacedByte(mem, base, size, long, next);
  }

  lemma ReplacedByte(mem: seq<u8>, base: nat, size: nat, long: seq<u8>, next: seq<u8>)
    requires |long| == size - 1 >= 1 && |long| < 0x1_0000
    requires base + 2 + |long| <= |mem| && base + size + 2 + |next| <= |mem|
    ensures Holds(Stored(Stored(mem, base, long), base + size, next), base, long) <==>
            long[|long| - 1] == |next| % 0x100
  {
    var first := Stored(mem, base, long);
    var m := Stored(first, base + size, next);
    StoredHolds(mem, base, long);
    assert long[..|long|] == long;
    var n := |long|;
    assert m[base] == first[base] && m[base + 1] == first[base + 1] && m[base + size] == |next| % 0x100;
    assert m[base + 2..base + 2 + n] == first[base + 2..base + 2 + n][n - 1 := m[base + size]];
    assert first[base + 2..base + 2 + n] == long;
    if long[n - 1] == |next| % 0x100 {
      assert long[n - 1 := m[base + size]] == long;
    } else {
      assert long[n - 1 := m[base + size]][n - 1] != long[n - 1];
    }
  }

  /** With one slot free the byte falls on the oldest entry, which keeps its length only by chance. */
  lemma OverrunHitsOldest(mem: seq<u8>, p: nat, num: nat, size: nat, r: u8, w: u8, q: seq<seq<u8>>, long: seq<u8>)
    requires RingSize(num) && num > 1 && w % num + 1 < num && |long| == size - 1 >= 1
    requires |q| == num - 1 == Wrap8(w - r) && Entries(mem, p, num, size, r, q)
    requires SlotBase(p, num, size, w) + 2 + |long| <= |mem|
    ensures var base := SlotBase(p, num, size, r);
            Holds(Stored(mem, SlotBase(p, num, size, w), long), base, q[0]) <==> long[|long| - 1] == |q[0]| % 0x100
  {
    WriteSlot(num, w, r, num - 1);
    OldestIsNext(num, w, r);
    NextBase(p, num, size, w);
    var base := SlotBase(p, num, size, w);
    assert EntryIn(mem, SlotBase(p, num, size, r + 0), size, q[0]);
    assert SlotBase(p, num, size, r) == base + size;
    hide SlotBase;
    OverrunByte(mem, base, size, long);
    HeaderOverrun(mem, Stored(mem, base, long), base + size, q[0], long[|long| - 1]);
  }

  lemma OldestIsNext(num: nat, w: u8, r: u8)
    requires RingSize(num) && w % num == (r + (num - 1)) % num
    ensures (w + 1) % num == r % num
  {
    var t := (r + (num - 1)) / num - w / num;
    assert num * ((r + (num - 1)) / num) - num * (w / num) == num * t;
    assert r + (num - 1) == w + num * t;
    assert num * (t - 1) == num * t - num;
    Turns(w + 1, num, t - 1);
  }

  /** Only the first header byte of an entry changed. */
  lemma HeaderOverrun(mem: seq<u8>, after: seq<u8>, base: nat, entry: seq<u8>, b: u8)
    requires Holds(mem, base, entry) && |after| == |mem| && after[base] == b
    requires forall x | base < x < |mem| :: after[x] == mem[x]
    ensures Holds(after, base, entry) <==> b == |entry| % 0x100
  {
    assert after[base + 2..base + 2 + |entry|] == mem[base + 2..base + 2 + |entry|];
  }

  /** In the last slot of the ring the byte falls behind the buffer and no entry suffers. */
  lemma OverrunInLastSlot(mem: seq<u8>, p: nat, num: nat, size: nat, r: u8, w: u8, q: seq<seq<u8>>, long: seq<u8>)
    requires RingSize(num) && w % num == num - 1 && |long| == size - 1 >= 1 && |long| < 0x1_0000
    requires |q| == Wrap8(w - r) < num && Entries(mem, p, num, size, r, q) && p + num * size < |mem|
    ensures SlotBase(p, num, size, w) + 2 + |long| <= |mem|
    ensures var after := Stored(mem, SlotBase(p, num, size, w), long);
            && Holds(after, SlotBase(p, num, size, w), long) && Entries(after, p, num, size, r, q)
            && after[p + num * size] == long[|long| - 1]
  {
    var base := SlotBase(p, num, size, w);
    LastBase(p, num, size, w);
    OthersKept(mem, p, num, size, r, w, q, long);
    hide Entries, Holds, Stored, SlotBase;
    OverrunByte(mem, base, size, long);
    StoredHolds(mem, base, long);
    assert long[..|long|] == long;
  }

  lemma OthersKept(mem: seq<u8>, p: nat, num: nat, size: nat, r: u8, w: u8, q: seq<seq<u8>>, long: seq<u8>)
    requires RingSize(num) && w % num == num - 1 && size >= 2
    requires |q| == Wrap8(w - r) < num && Entries(mem, p, num, size, r, q)
    requires SlotBase(p, num, size, w) + 2 + |long| <= |mem|
    ensures Entries(Stored(mem, SlotBase(p, num, size, w), long), p, num, size, r, q)
  {
    var base := SlotBase(p, num, size, w);
    LastBase(p, num, size, w);
    hide EntryIn, Stored, SlotBase;
    forall i | 0 <= i < |q|
      ensures EntryIn(Stored(mem, base, long), SlotBase(p, num, size, r + i), size, q[i])
    {
      FreeSlot(p, num, size, r, w, |q|, i);
      EntryBelow(mem, base, long, size, SlotBase(p, num, size, r + i), q[i]);
    }
  }

  lemma LastBase(p: nat, num: nat, size: nat, w: nat)
    requires RingSize(num) && w % num == num - 1
    ensures SlotBase(p, num, size, w) + size == p + num * size
  {
    NextMultiple(num - 1, size);
  }

  lemma EntryBelow(mem: seq<u8>, base: nat, data: seq<u8>, size: nat, other: nat, entry: seq<u8>)
    requires base + 2 + |data| <= |mem| && other + size <= base
    requires EntryIn(mem, other, size, entry)
    ensures EntryIn(Stored(mem, base, data), other, size, entry)
  {
    var after := Stored(mem, base, data);
    assert after[other + 2..other + 2 + |entry|] == mem[other + 2..other + 2 + |entry|];
  }

  /** `my_fifo_t` with the memory it points into. */
  class Fifo {
    const mem: array<u8>
    const p: nat
    const size: u32
    const num: nat
    var wptr: u8
    var rptr: u8
    /** The payloads held, oldest first. */
    ghost var contents: seq<seq<u8>>

    /** The byte behind the buffer exists: a payload one byte short of a slot reaches it. */
    ghost predicate Shape() {
      RingSize(num) && size < 0x8000_0000 && p + num * size < mem.Length
    }

    ghost predicate Valid()
      reads this, mem
    {
      && Shape()
      && |contents| == Wrap8(wptr - rptr) && |contents| <= num
      && Entries(mem[..], p, num, size, rptr, contents)
    }

    constructor (mem: array<u8>, s: u32, n: nat, p: nat)
      requires RingSize(n) && s < 0x8000_0000 && p + n * s < mem.Length
      ensures Valid() && contents == []
      ensures this.mem == mem && this.p == p && size == s && num == n
    {
      this.mem, this.p, size, num := mem, p, s, n;
      wptr, rptr, contents := 0, 0, [];
    }

    /** `my_fifo_push`: refuses exactly when full or when `n` is not below `size`. */
    method Push(data: seq<u8>, n: int) returns (ret: int)
      requires Valid() && n <= |data| && -0x8000_0000 <= n < 0x8000_0000
      modifies this`wptr, this`contents, mem
      ensures ret == if |old(contents)| == num || n < 0 || n >= size then -1 else 0
      ensures ret == -1 ==> Valid() && contents == old(contents) && mem[..] == old(mem[..])
      ensures ret == 0 && n + 2 <= size ==> Valid() && contents == old(contents) + [data[..n % 0x1_0000]]
      ensures ret == 0 ==>
                mem[..] == Stored(old(mem[..]), SlotBase(p, num, size, old(wptr)), data[..n])
    {
      hide Entries, And, Stored;
      if Wrap8(wptr - rptr) >= num {
        return -1;
      }
      if Wrap32(n) >= size {
        return -1;
      }
      CounterSlot(wptr, num);
      var pd := p + And(wptr, num - 1) * size;
      ghost var before, base := mem[..], SlotBase(p, num, size, wptr);
      assert pd == base;
      wptr := Wrap8(wptr + 1);
      StoreEntry(pd, data, n);
      if n + 2 <= size {
        EntriesGrow(before, p, num, size, rptr, old(wptr), contents, data[..n]);
        WriteSlot(num, old(wptr), rptr, |contents|);
        assert data[..n][..n % 0x1_0000] == data[..n % 0x1_0000];
        contents := contents + [data[..n % 0x1_0000]];
      }
      ret := 0;
    }

    /** The header and the `memcpy` of the payload. */
    method StoreEntry(pd: nat, data: seq<u8>, n: nat)
      requires n <= |data| && pd + 2 + n <= mem.Length
      modifies mem
      ensures mem[..] == Stored(old(mem[..]), pd, data[..n])
    {
      mem[pd] := n % 0x100;
      mem[pd + 1] := n / 0x100 % 0x100;
      forall i | 0 <= i < n {
        mem[pd + 2 + i] := data[i];
      }
    }

    /** `my_fifo_get`: the address of the oldest entry. */
    method Get() returns (at: Option<nat>)
      requires Valid()
      ensures contents == [] ==> at == None
      ensures contents != [] ==> at == Some(p + rptr % num * size) && Holds(mem[..], at.value, contents[0])
    {
      if rptr != wptr {
        CounterSlot(rptr, num);
        at := Some(p + And(rptr, num - 1) * size);
      } else {
        at := None;
      }
    }

    /** `my_fifo_pop` advances without looking; the callers pop only what they got. */
    method Pop()
      requires Valid() && contents != []
      modifies this`rptr, this`contents
      ensures Valid() && contents == old(contents)[1..]
    {
      EntriesShrink(mem[..], p, num, size, rptr, contents);
      CountDown(wptr, rptr, |contents|);
      hide Entries, Wrap8;
      rptr := Wrap8(rptr + 1);
      contents := contents[1..];
    }
  }
}

/**
 Rings of four slots with free-running counters that overwrite the oldest entry: the
 keyboard matrix ring (counters modulo 8), the USB report FIFO and the ADPCM packet ring
 (8-bit counters). One theory serves all three.
*/
module DropOldest {
  import opened Bits

  const SLOTS := 4

  /** `x & 7`, also for a negative difference of counters. */
  function Low3(x: int): (r: nat)
    ensures r == x % 8
  {
    WrapLow3(x);
    And(Wrap32(x), 7)
  }

  lemma WrapLow3(x: int)
    ensures And(Wrap32(x), 7) == x % 8
  {
    hide And;
    assert Pow2(3) == 8 by { Pow2Values(); }
    AndLowMask(Wrap32(x), 3);
    var q, w := x / 0x1_0000_0000, Wrap32(x);
    assert x == 8 * (q * 0x2000_0000) + w;
    SameRemainder(w, q * 0x2000_0000);
  }

  lemma SameRemainder(w: nat, k: int)
    ensures (8 * k + w) % 8 == w % 8
  {
  }

  /** `x & 3` */
  function Low2(x: nat): (r: nat)
    ensures r == x % 4
  {
    assert Pow2(2) == 4 by { Pow2Values(); }
    AndLowMask(x, 2);
    And(x, 3)
  }

  /** The slots and the two counters: of 8 bits if `wide`, else kept below 8. */
  datatype Ring<T> = Ring(slots: seq<T>, w: nat, r: nat, wide: bool)

  function Turn(x: int, wide: bool): nat { if wide then x % 0x100 else x % 8 }

  predicate Valid<T>(g: Ring<T>) {
    && |g.slots| == SLOTS
    && g.w == Turn(g.w, g.wide) && g.r == Turn(g.r, g.wide)
    && Turn(g.w - g.r, g.wide) <= SLOTS
  }

  function Count<T>(g: Ring<T>): nat
    requires Valid(g)
  {
    Turn(g.w - g.r, g.wide)
  }

  /** The entries from the oldest to the newest. */
  function Live<T>(g: Ring<T>): (q: seq<T>)
    requires Valid(g)
    ensures |q| == Count(g) <= SLOTS
  {
    Window(g.slots, g.r, Count(g))
  }

  function Window<T>(slots: seq<T>, r: nat, n: nat): (q: seq<T>)
    requires |slots| == SLOTS
    ensures |q| == n
  {
    seq(n, i requires 0 <= i < n => slots[(r + i) % 4])
  }

  /** Write at the write counter, advance it, and give up the oldest entry past four. */
  function Push<T>(g: Ring<T>, x: T): Ring<T>
    requires Valid(g)
  {
    var slots, w := g.slots[Low2(g.w) := x], Turn(g.w + 1, g.wide);
    if Low3(w - g.r) > SLOTS then Ring(slots, w, Turn(g.r + 1, g.wide), g.wide)
    else Ring(slots, w, g.r, g.wide)
  }

  function Pop<T>(g: Ring<T>): Ring<T>
    requires Valid(g)
  {
    g.(r := Turn(g.r + 1, g.wide))
  }

  /** The abstract queue. */
  function Appended<T>(q: seq<T>, x: T): (r: seq<T>)
    requires |q| <= SLOTS
    ensures |r| == if |q| < SLOTS then |q| + 1 else SLOTS
  {
    if |q| < SLOTS then q + [x] else q[1..] + [x]
  }

  lemma PushRefines<T>(g: Ring<T>, x: T)
    requires Valid(g)
    ensures Valid(Push(g, x)) && Live(Push(g, x)) == Appended(Live(g), x)
  {
    hide Push, Turn, Window, Appended;
    var h, n := Push(g, x), Count(g);
    PushCounters(g, x);
    WindowAfterPush(g.slots, g.r, h.r, n, Count(h), x);
  }

  lemma WindowAfterPush<T>(slots: seq<T>, r: nat, r': nat, n: nat, n': nat, x: T)
    requires |slots| == SLOTS && n <= SLOTS
    requires if n < SLOTS then r' == r && n' == n + 1 else r' % 4 == (r + 1) % 4 && n' == SLOTS
    ensures Window(slots[(r + n) % 4 := x], r', n') == Appended(Window(slots, r, n), x)
  {
    hide Appended;
    forall i | 0 <= i < n'
      ensures Window(slots[(r + n) % 4 := x], r', n')[i] == Appended(Window(slots, r, n), x)[i]
    {
      EntryAfterPush(slots, r, r', n, i, x);
    }
    assert |Appended(Window(slots, r, n), x)| == n';
  }

  lemma EntryAfterPush<T>(slots: seq<T>, r: nat, r': nat, n: nat, i: nat, x: T)
    requires |slots| == SLOTS && n <= SLOTS && i <= n && i < SLOTS
    requires if n < SLOTS then r' == r else r' % 4 == (r + 1) % 4
    ensures slots[(r + n) % 4 := x][(r' + i) % 4] == Appended(Window(slots, r, n), x)[i]
  {
    var d := if n < SLOTS then 0 else 1;
    Slots(r', r, d, n, i);
    AppendedAt(Window(slots, r, n), x, i);
    hide Appended;
  }

  lemma AppendedAt<T>(q: seq<T>, x: T, i: nat)
    requires |q| <= SLOTS && i <= |q| && i < SLOTS
    ensures var d := if |q| < SLOTS then 0 else 1;
            Appended(q, x)[i] == if i + d == |q| then x else q[i + d]
  {
  }

  lemma PushCounters<T>(g: Ring<T>, x: T)
    requires Valid(g)
    ensures var h, n := Push(g, x), Count(g);
            && Valid(h) && Count(h) == (if n < SLOTS then n + 1 else SLOTS)
            && h.slots == g.slots[(g.r + n) % 4 := x]
            && (if n < SLOTS then h.r == g.r else h.r % 4 == (g.r + 1) % 4)
  {
    hide Low2, Low3, Turn;
    var n, w := Count(g), Turn(g.w + 1, g.wide);
    WriteAdvances(g.w, g.r, g.wide, n);
    if n == SLOTS {
      ReadAdvances(w, g.r, g.wide, n + 1);
    }
  }

  lemma WriteAdvances(w: nat, r: nat, wide: bool, n: nat)
    requires w == Turn(w, wide) && r == Turn(r, wide) && n == Turn(w - r, wide) <= SLOTS
    ensures var w' := Turn(w + 1, wide);
            w' == Turn(w', wide) && Turn(w' - r, wide) == n + 1 == Low3(w' - r) && Low2(w) == (r + n) % 4
  {
    hide Low3, Low2;
    Ahead(w, r, wide, n);
    NextTurn(w, wide);
    var w' := Turn(w + 1, wide);
    hide Turn;
    Distance(w', r, wide, n + 1);
  }

  /** A counter step is one up, or back to 0. */
  lemma NextTurn(w: nat, wide: bool)
    requires w == Turn(w, wide)
    ensures var m := if wide then 0x100 else 8;
            w < m && Turn(w + 1, wide) == (if w + 1 < m then w + 1 else 0)
    ensures Turn(Turn(w + 1, wide), wide) == Turn(w + 1, wide)
  {
    var m := if wide then 0x100 else 8;
    var next := if w + 1 < m then w + 1 else 0;
    DivModUnique(w + 1, m, if w + 1 < m then 0 else 1, next);
    DivModUnique(next, m, 0, next);
  }

  lemma ReadAdvances(w: nat, r: nat, wide: bool, n: nat)
    requires w == Turn(w, wide) && r == Turn(r, wide) && 0 < n == Turn(w - r, wide) <= SLOTS + 1
    ensures var r' := Turn(r + 1, wide);
            r' == Turn(r', wide) && Turn(w - r', wide) == n - 1 && r' % 4 == (r + 1) % 4
  {
    Ahead(w, r, wide, n);
    NextTurn(r, wide);
    var r' := Turn(r + 1, wide);
    hide Turn;
    Distance(w, r', wide, n - 1);
    if r' == 0 {
      Turns(0, 4, if wide then 64 else 2);
    }
  }

  /** The write counter is `n` ahead, perhaps one lap less. */
  lemma Ahead(w: nat, r: nat, wide: bool, n: nat)
    requires w == Turn(w, wide) && r == Turn(r, wide) && n == Turn(w - r, wide)
    ensures w == r + n || w + (if wide then 0x100 else 8) == r + n
    ensures w % 4 == (r + n) % 4
  {
    var m := if wide then 0x100 else 8;
    if w < r {
      DivModUnique(w - r, m, -1, w - r + m);
      Turns(r + n, 4, if wide then -64 else -2);
    } else {
      DivModUnique(w - r, m, 0, w - r);
    }
  }

  lemma Distance(w: nat, r: nat, wide: bool, n: nat)
    requires n < 8
    requires var m := if wide then 0x100 else 8; w == r + n || w + m == r + n || w + 2 * m == r + n || w == r + n + m
    ensures Turn(w - r, wide) == n == (w - r) % 8
  {
    var m := if wide then 0x100 else 8;
    var t := if w == r + n then 0 else if w + m == r + n then -1 else if w + 2 * m == r + n then -2 else 1;
    if wide {
      Turns(n, 0x100, t);
      Turns(n, 8, 32 * t);
    } else {
      Turns(n, 8, t);
    }
  }

  /** Entry `i` of the new list is an old one, `d` places on, or the slot just written. */
  lemma Slots(r': nat, r: nat, d: nat, n: nat, i: nat)
    requires r' % 4 == (r + d) % 4 && n <= SLOTS && d == (if n < SLOTS then 0 else 1) && i + d <= n
    ensures (r' + i) % 4 == (r + (i + d)) % 4
    ensures (r + (i + d)) % 4 == (r + n) % 4 <==> i + d == n
  {
    SameSlot(r', r + d, i);
    if i + d < n {
      var gap := n - (i + d);
      assert 0 < gap < 4;
      OtherSlot(r + (i + d), gap);
    }
  }

  lemma SameSlot(a: nat, b: nat, i: nat)
    requires a % 4 == b % 4
    ensures (a + i) % 4 == (b + i) % 4
  {
    assert a == a / 4 * 4 + a % 4 && b == b / 4 * 4 + b % 4;
  }

  lemma OtherSlot(a: nat, gap: nat)
    requires 0 < gap < 4
    ensures (a + gap) % 4 != a % 4
  {
  }

  lemma PopRefines<T>(g: Ring<T>)
    requires Valid(g) && Count(g) > 0
    ensures Valid(Pop(g)) && Live(Pop(g)) == Live(g)[1..]
  {
    var n := Count(g);
    ReadAdvances(g.w, g.r, g.wide, n);
    WindowAfterPop(g.slots, g.r, Pop(g).r, n);
  }

  lemma WindowAfterPop<T>(slots: seq<T>, r: nat, r': nat, n: nat)
    requires |slots| == SLOTS && n > 0 && r' % 4 == (r + 1) % 4
    ensures Window(slots, r', n - 1) == Window(slots, r, n)[1..]
  {
    forall i | 0 <= i < n - 1
      ensures Window(slots, r', n - 1)[i] == Window(slots, r, n)[1..][i]
    {
      SameSlot(r', r + 1, i);
    }
  }

  lemma EmptyRing<T>(slots: seq<T>, wide: bool)
    requires |slots| == SLOTS
    ensures Valid(Ring(slots, 0, 0, wide))
    ensures Count(Ring(slots, 0, 0, wide)) == 0 && Live(Ring(slots, 0, 0, wide)) == []
  {
  }

  // The forms in which the C code computes with 8-bit counters

  lemma WidePush<T>(g: Ring<T>, x: T)
    requires Valid(g) && g.wide
    ensures var w := Wrap8(g.w + 1);
            Push(g, x) == Ring(g.slots[Low2(g.w) := x], w, if Low3(w - g.r) > SLOTS then Wrap8(g.r + 1) else g.r, true)
  {
    hide Low2, Low3;
  }

  /** A push into a ring with a free slot leaves the read counter alone. */
  lemma RoomPush<T>(g: Ring<T>, x: T)
    requires Valid(g) && g.wide && |Live(g)| < SLOTS
    ensures Push(g, x) == Ring(g.slots[Low2(g.w) := x], Wrap8(g.w + 1), g.r, true)
    ensures Valid(Push(g, x)) && Live(Push(g, x)) == Live(g) + [x]
  {
    hide Low2, Low3, Live;
    PushRefines(g, x);
    MaskedCount(g);
  }

  lemma WidePop<T>(g: Ring<T>)
    requires Valid(g) && g.wide
    ensures Pop(g) == g.(r := Wrap8(g.r + 1))
  {
  }

  lemma HeadSlot<T>(g: Ring<T>)
    requires Valid(g) && Count(g) > 0
    ensures Live(g)[0] == g.slots[Low2(g.r)]
  {
  }

  /** The masked distance is the number of entries, and a push then drops nothing while it is below four. */
  lemma MaskedCount<T>(g: Ring<T>)
    requires Valid(g)
    ensures Low3(g.w - g.r) == |Live(g)|
    ensures |Live(g)| < SLOTS ==> Low3(Turn(g.w + 1, g.wide) - g.r) <= SLOTS
    ensures g.w == g.r <==> Live(g) == []
  {
    EmptyWhenEqual(g);
    CountIsLength(g);
    Distances(g.w, g.r, g.wide, Count(g));
    hide Low3, Turn, Live;
  }

  lemma Distances(w: nat, r: nat, wide: bool, n: nat)
    requires w == Turn(w, wide) && r == Turn(r, wide) && n == Turn(w - r, wide) <= SLOTS
    ensures Low3(w - r) == n && Low3(Turn(w + 1, wide) - r) == n + 1
  {
    WriteAdvances(w, r, wide, n);
    Ahead(w, r, wide, n);
    hide Turn;
    Distance(w, r, wide, n);
  }

  lemma EmptyWhenEqual<T>(g: Ring<T>)
    requires Valid(g)
    ensures g.w == g.r <==> Live(g) == []
  {
    CountIsLength(g);
  }

  // Runs

  datatype Op<T> = Write(x: T) | Read

  /** A ring in use: everything ever written, which of it was read, and how much was given up. */
  datatype Use<T> = Use(ring: Ring<T>, log: seq<T>, seen: seq<nat>, lost: nat)

  function Step<T>(u: Use<T>, op: Op<T>): Use<T>
    requires Valid(u.ring) && Count(u.ring) <= |u.log|
  {
    match op
    case Write(x) =>
      Use(Push(u.ring, x), u.log + [x], u.seen, if Count(u.ring) == SLOTS then u.lost + 1 else u.lost)
    case Read =>
      if Count(u.ring) == 0 then u
      else Use(Pop(u.ring), u.log, u.seen + [|u.log| - Count(u.ring)], u.lost)
  }

  /** The ring holds the newest entries; reads went forward only; every entry is accounted for. */
  ghost predicate Consistent<T>(u: Use<T>) {
    && Valid(u.ring) && Count(u.ring) <= |u.log|
    && Live(u.ring) == u.log[|u.log| - Count(u.ring)..]
    && (forall i, j | 0 <= i < j < |u.seen| :: u.seen[i] < u.seen[j])
    && (forall i | 0 <= i < |u.seen| :: u.seen[i] < |u.log| - Count(u.ring))
    && |u.seen| + u.lost + Count(u.ring) == |u.log|
  }

  lemma StepConsistent<T>(u: Use<T>, op: Op<T>)
    requires Consistent(u)
    ensures Consistent(Step(u, op))
    ensures op.Read? && Count(u.ring) > 0 ==> Live(u.ring)[0] == u.log[|u.log| - Count(u.ring)]
  {
    hide Push, Pop, Valid, Live, Count;
    CountIsLength(u.ring);
    match op {
      case Write(x) =>
        PushRefines(u.ring, x);
        CountIsLength(Push(u.ring, x));
      case Read =>
        if Count(u.ring) > 0 {
          PopRefines(u.ring);
          CountIsLength(Pop(u.ring));
        }
    }
  }

  lemma CountIsLength<T>(g: Ring<T>)
    requires Valid(g)
    ensures |Live(g)| == Count(g) <= SLOTS
  {
  }

  function Steps<T>(u: Use<T>, ops: seq<Op<T>>): Use<T>
    requires Consistent(u)
    decreases |ops|
  {
    if ops == [] then u else
      StepConsistent(u, ops[0]);
      Steps(Step(u, ops[0]), ops[1..])
  }

  /** Whatever the writer and the reader do, and however often the counters wrap. */
  lemma {:induction false} RunConsistent<T>(u: Use<T>, ops: seq<Op<T>>)
    requires Consistent(u)
    ensures Consistent(Steps(u, ops))
    ensures u.log <= Steps(u, ops).log && u.seen <= Steps(u, ops).seen
    decreases |ops|
  {
    hide Valid, Live, Count;
    if ops != [] {
      StepConsistent(u, ops[0]);
      RunConsistent(Step(u, ops[0]), ops[1..]);
    }
  }

  function Pushes<T>(g: Ring<T>, xs: seq<T>): (h: Ring<T>)
    requires Valid(g)
    ensures Valid(h) && (Count(g) > 0 ==> Count(h) > 0)
    decreases |xs|
  {
    if xs == [] then g else
      PushCounters(g, xs[0]);
      Pushes(Push(g, xs[0]), xs[1..])
  }

  function Newest<T>(s: seq<T>): seq<T> { if |s| <= SLOTS then s else s[|s| - SLOTS..] }

  /** After any number of writes the newest four at most remain. */
  lemma {:induction false} PushesKeepNewest<T>(g: Ring<T>, xs: seq<T>)
    requires Valid(g)
    ensures Live(Pushes(g, xs)) == Newest(Live(g) + xs)
    decreases |xs|
  {
    hide Push, Valid, Live;
    CountIsLength(g);
    if xs == [] {
      assert Live(g) + xs == Live(g);
    } else {
      hide Appended, Newest;
      PushRefines(g, xs[0]);
      PushesKeepNewest(Push(g, xs[0]), xs[1..]);
      OneAppended(Live(g), xs);
    }
  }

  lemma OneAppended<T>(q: seq<T>, xs: seq<T>)
    requires |q| <= SLOTS && xs != []
    ensures Newest(Appended(q, xs[0]) + xs[1..]) == Newest(q + xs)
  {
    assert Appended(q, xs[0]) + xs[1..] == if |q| < SLOTS then q + xs else (q + xs)[1..];
  }

  /** The list after a read is confirmed that many writes later. */
  function Confirmed<T>(g: Ring<T>, xs: seq<T>): seq<T>
    requires Valid(g) && Count(g) > 0
  {
    PopRefines(Pushes(g, xs));
    Live(Pop(Pushes(g, xs)))
  }

  /**
   A reader that looks at the oldest entry, lets the writer go on, and then confirms: the
   confirmation removes the entry that was looked at exactly when nothing overflowed meanwhile.
  */
  lemma ConfirmAfterWrites<T>(g: Ring<T>, xs: seq<T>)
    requires Valid(g) && Count(g) > 0
    ensures Confirmed(g, xs) == (Live(g) + xs)[1..] <==> |Live(g) + xs| <= SLOTS
    ensures |Live(g) + xs| > SLOTS ==> Confirmed(g, xs) == (Live(g) + xs)[|Live(g) + xs| - 3..]
  {
    hide Push, Pop, Valid, Live;
    CountIsLength(g);
    PushesKeepNewest(g, xs);
    PopRefines(Pushes(g, xs));
  }
}

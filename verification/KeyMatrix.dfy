/**
 `kb_rmv_ghost_key` of `keyboard.c` on 32-bit rows of keys, one row for each drive pin, one
 bit for each scan pin. The in-place triangular loop is shown to remove exactly the columns
 that are ghosts of any pair of rows.
*/
module KeyMatrix {

  type Row = bv32

  function Union(x: Row, y: Row): Row { x | y }

  function Meet(x: Row, y: Row): Row { x & y }

  function Minus(x: Row, y: Row): Row { x & !y }

  /** `BIT_IS_POW2` */
  predicate AtMostOneBit(x: Row) { x & (x - 1) == 0 }

  /** The columns two rows share, if the two rows could hide a key that is not pressed. */
  function GhostMix(a: Row, b: Row): Row {
    var mix := a & b;
    if mix != 0 && (!AtMostOneBit(mix) || a ^ b != 0) then mix else 0
  }

  /** The ghost columns of row `i` with the rows from `i + 1` up to `j`. */
  function RowGhosts(rows: seq<Row>, i: nat, j: nat): Row
    requires i < j <= |rows|
    decreases j
  {
    if j == i + 1 then 0 else Union(RowGhosts(rows, i, j - 1), GhostMix(rows[i], rows[j - 1]))
  }

  /** The ghost columns of all pairs whose first row is below `i`. */
  function Ghosts(rows: seq<Row>, i: nat): Row
    requires i <= |rows|
  {
    if i == 0 then 0 else Union(Ghosts(rows, i - 1), RowGhosts(rows, i - 1, |rows|))
  }

  /** Every row without the ghost columns of the whole matrix. */
  function Cleaned(rows: seq<Row>): (r: seq<Row>)
    ensures |r| == |rows|
  {
    seq(|rows|, k requires 0 <= k < |rows| => Minus(rows[k], Ghosts(rows, |rows|)))
  }

  predicate Within(x: Row, y: Row) { Minus(x, y) == 0 }

  // Word-level facts, each about a few rows

  lemma XorZero(a: Row, b: Row)
    ensures a ^ b == 0 <==> a == b
  {
  }

  /** All shared columns count as ghosts, or none does and the rows are the same key. */
  predicate Full(a: Row, b: Row) { GhostMix(a, b) == a & b }

  lemma MixIsAllOrNothing(a: Row, b: Row)
    ensures Full(a, b) || (GhostMix(a, b) == 0 && a == b)
  {
    XorZero(a, b);
  }

  /** Three rows: a ghost column of two others shows in the pairs of a row that has it. */
  lemma GhostSeenFrom(a: Row, b: Row, c: Row)
    ensures Within(Meet(a, GhostMix(b, c)), Union(GhostMix(a, b), GhostMix(a, c)))
  {
    hide GhostMix, Within, Full, Meet, Union;
    MixIsAllOrNothing(a, b);
    MixIsAllOrNothing(a, c);
    if Full(a, b) || Full(a, c) {
      MixIsAllOrNothing(b, c);
      FullCovers(a, b, c);
    } else {
      NothingWithin(a, GhostMix(b, c), Union(GhostMix(a, b), GhostMix(a, c)));
    }
  }

  lemma FullCovers(a: Row, b: Row, c: Row)
    requires Full(a, b) || Full(a, c)
    requires Full(b, c) || GhostMix(b, c) == 0
    ensures Within(Meet(a, GhostMix(b, c)), Union(GhostMix(a, b), GhostMix(a, c)))
  {
    hide GhostMix;
    CoveredByPair(a, b, c, GhostMix(a, b), GhostMix(a, c), GhostMix(b, c));
  }

  lemma CoveredByPair(a: Row, b: Row, c: Row, ab: Row, ac: Row, bc: Row)
    requires ab == a & b || ac == a & c
    requires bc == 0 || bc == b & c
    ensures Within(Meet(a, bc), Union(ab, ac))
  {
  }

  lemma NothingWithin(a: Row, x: Row, y: Row)
    requires x == 0
    ensures Within(x, y) && Within(Meet(a, x), y)
  {
  }

  lemma OneBitOrNone(x: Row, m: Row)
    requires AtMostOneBit(x)
    ensures x & m == 0 || x & m == x
  {
  }

  lemma PairCleaned(a: Row, b: Row, removed: Row)
    requires Within(GhostMix(a, b), removed)
    ensures Meet(Minus(a, removed), Minus(b, removed)) == 0
         || (Minus(a, removed) == Minus(b, removed) && AtMostOneBit(Minus(a, removed)))
  {
    XorZero(a, b);
    if GhostMix(a, b) == a & b {
      assert (a & !removed) & (b & !removed) == (a & b) & !removed;
    } else {
      assert a == b && a & b == a;
      OneBitOrNone(a, !removed);
    }
  }

  lemma WithinUnion(x: Row, y: Row, z: Row)
    requires Within(x, z)
    ensures Within(x, Union(z, y)) && Within(x, Union(y, z))
  {
    assert x & !(z | y) == (x & !z) & !y;
  }

  lemma WithinBoth(x: Row, y: Row, z: Row)
    requires Within(x, z) && Within(y, z)
    ensures Within(Union(x, y), z)
  {
    assert (x | y) & !z == (x & !z) | (y & !z);
  }

  lemma WithinTrans(x: Row, y: Row, z: Row)
    requires Within(x, y) && Within(y, z)
    ensures Within(x, z)
  {
    assert x & !z == (x & !y & !z) | (x & y & !z);
    assert x & y & !z == (y & !z) & x && x & !y & !z == (x & !y) & !z;
  }

  lemma WithinItself(x: Row, a: Row)
    ensures Within(x, x) && Within(Meet(a, x), x)
  {
  }

  lemma MaskedUnion(a: Row, x: Row, y: Row, z: Row)
    requires Within(Meet(a, x), z) && Within(Meet(a, y), z)
    ensures Within(Meet(a, Union(x, y)), z)
  {
    assert (a & (x | y)) & !z == ((a & x) & !z) | ((a & y) & !z);
  }

  lemma SameMask(a: Row, part: Row, all: Row)
    requires Within(Meet(a, all), part) && Within(part, all)
    ensures Minus(a, part) == Minus(a, all)
  {
    hide Meet, Minus, Union;
    MaskIdentity(a, part, all);
    Zeros(a, Minus(a, all));
  }

  lemma MaskIdentity(a: Row, p: Row, q: Row)
    ensures Minus(a, p) == Union(Minus(Minus(a, q), Meet(a, Minus(p, q))), Minus(Meet(a, q), p))
  {
  }

  lemma Zeros(a: Row, x: Row)
    ensures Meet(a, 0) == 0 && Minus(x, 0) == x && Union(x, 0) == x
  {
  }

  lemma Regroup(x: Row, y: Row, z: Row)
    ensures Union(Union(x, y), z) == Union(x, Union(y, z)) && Union(x, 0) == x
  {
  }

  // The sums over pairs

  lemma {:induction false} PairInRow(rows: seq<Row>, i: nat, j: nat, n: nat)
    requires i < j < n <= |rows|
    ensures Within(GhostMix(rows[i], rows[j]), RowGhosts(rows, i, n))
    decreases n
  {
    hide GhostMix, Within, Union;
    var before, last := RowGhosts(rows, i, n - 1), GhostMix(rows[i], rows[n - 1]);
    if j < n - 1 {
      PairInRow(rows, i, j, n - 1);
      WithinUnion(GhostMix(rows[i], rows[j]), last, before);
    } else {
      WithinItself(last, 0);
      WithinUnion(last, before, last);
    }
  }

  lemma {:induction false} GhostsGrow(rows: seq<Row>, i: nat, k: nat)
    requires i <= k <= |rows|
    ensures Within(Ghosts(rows, i), Ghosts(rows, k))
    decreases k
  {
    hide Within, RowGhosts, Union;
    if i == k {
      WithinItself(Ghosts(rows, i), 0);
    } else {
      GhostsGrow(rows, i, k - 1);
      WithinUnion(Ghosts(rows, i), RowGhosts(rows, k - 1, |rows|), Ghosts(rows, k - 1));
    }
  }

  lemma PairInGhosts(rows: seq<Row>, i: nat, j: nat)
    requires i < j < |rows|
    ensures Within(GhostMix(rows[i], rows[j]), Ghosts(rows, i + 1))
    ensures Within(GhostMix(rows[i], rows[j]), Ghosts(rows, |rows|))
  {
    hide GhostMix, Within, RowGhosts, Union;
    PairInRow(rows, i, j, |rows|);
    WithinUnion(GhostMix(rows[i], rows[j]), Ghosts(rows, i), RowGhosts(rows, i, |rows|));
    GhostsGrow(rows, i + 1, |rows|);
    WithinTrans(GhostMix(rows[i], rows[j]), Ghosts(rows, i + 1), Ghosts(rows, |rows|));
  }

  /** A later row's ghosts that touch row `i` were already found from row `i`. */
  lemma {:induction false} LaterRow(rows: seq<Row>, i: nat, k: nat, j: nat)
    requires i < k < j <= |rows|
    ensures Within(Meet(rows[i], RowGhosts(rows, k, j)), Ghosts(rows, i + 1))
    decreases j
  {
    hide GhostMix, Within, Ghosts, Union, Meet;
    var a, found := rows[i], Ghosts(rows, i + 1);
    if j == k + 1 {
      NothingWithin(a, RowGhosts(rows, k, j), found);
    } else {
      var ak, aj, kj := GhostMix(a, rows[k]), GhostMix(a, rows[j - 1]), GhostMix(rows[k], rows[j - 1]);
      LaterRow(rows, i, k, j - 1);
      GhostSeenFrom(a, rows[k], rows[j - 1]);
      PairInGhosts(rows, i, k);
      PairInGhosts(rows, i, j - 1);
      WithinBoth(ak, aj, found);
      WithinTrans(Meet(a, kj), Union(ak, aj), found);
      MaskedUnion(a, RowGhosts(rows, k, j - 1), kj, found);
    }
  }

  lemma {:induction false} LaterGhosts(rows: seq<Row>, i: nat, k: nat)
    requires i < k <= |rows|
    ensures Within(Meet(rows[i], Ghosts(rows, k)), Ghosts(rows, i + 1))
    decreases k
  {
    hide Within, RowGhosts, Union, Meet;
    if k == i + 1 {
      WithinItself(Ghosts(rows, k), rows[i]);
    } else {
      LaterGhosts(rows, i, k - 1);
      LaterRow(rows, i, k - 1, |rows|);
      MaskedUnion(rows[i], Ghosts(rows, k - 1), RowGhosts(rows, k - 1, |rows|), Ghosts(rows, i + 1));
    }
  }

  /** Masking a row with what is known after its own round masks it with everything. */
  lemma EarlyMask(rows: seq<Row>, i: nat)
    requires i < |rows|
    ensures Minus(rows[i], Ghosts(rows, i + 1)) == Cleaned(rows)[i]
  {
    hide Within, Ghosts, Minus, Meet;
    LaterGhosts(rows, i, |rows|);
    GhostsGrow(rows, i + 1, |rows|);
    SameMask(rows[i], Ghosts(rows, i + 1), Ghosts(rows, |rows|));
  }

  /** `kb_rmv_ghost_key`: rows are masked while later rows are still being compared. */
  method RemoveGhostKeys(pressed: array<Row>)
    modifies pressed
    ensures pressed[..] == Cleaned(old(pressed[..]))
  {
    hide GhostMix, Cleaned, Union, Minus;
    ghost var rows := pressed[..];
    var mixFinal: Row := 0;
    var i := 0;
    while i < pressed.Length
      invariant 0 <= i <= pressed.Length && mixFinal == Ghosts(rows, i)
      invariant forall k | 0 <= k < i :: pressed[k] == Cleaned(rows)[k]
      invariant forall k | i <= k < pressed.Length :: pressed[k] == rows[k]
    {
      var j := i + 1;
      Regroup(Ghosts(rows, i), 0, 0);
      while j < pressed.Length
        invariant i < j <= pressed.Length
        invariant mixFinal == Union(Ghosts(rows, i), RowGhosts(rows, i, j))
        invariant forall k | 0 <= k < i :: pressed[k] == Cleaned(rows)[k]
        invariant forall k | i <= k < pressed.Length :: pressed[k] == rows[k]
      {
        mixFinal := AddGhosts(mixFinal, pressed[i], pressed[j]);
        Regroup(Ghosts(rows, i), RowGhosts(rows, i, j), GhostMix(rows[i], rows[j]));
        j := j + 1;
      }
      EarlyMask(rows, i);
      MinusIsMask(pressed[i], mixFinal);
      pressed[i] := pressed[i] & !mixFinal;
      i := i + 1;
    }
  }

  lemma MinusIsMask(x: Row, y: Row)
    ensures Minus(x, y) == x & !y
  {
  }

  /** The test of one pair of rows. */
  method AddGhosts(mixFinal: Row, a: Row, b: Row) returns (r: Row)
    ensures r == Union(mixFinal, GhostMix(a, b))
  {
    hide Union, AtMostOneBit;
    var mix := a & b;
    r := mixFinal;
    Regroup(mixFinal, 0, 0);
    if mix != 0 && (!AtMostOneBit(mix) || a ^ b != 0) {
      r := Union(r, mix);
    }
  }

  // What the result means

  /** No two rows could hide a key: if they share a column at all, both are that one key. */
  predicate NoGhosts(rows: seq<Row>) {
    forall i, j | 0 <= i < j < |rows| :: CannotGhost(rows[i], rows[j])
  }

  predicate CannotGhost(a: Row, b: Row) {
    Meet(a, b) == 0 || (a == b && AtMostOneBit(a))
  }

  lemma GhostMixDecides(a: Row, b: Row)
    ensures GhostMix(a, b) == 0 <==> CannotGhost(a, b)
  {
    XorZero(a, b);
    if a == b {
      assert a & b == a;
    }
  }

  /** No ghost remains, and no key appears that was not in the scan. */
  lemma CleanedHasNoGhosts(rows: seq<Row>)
    ensures NoGhosts(Cleaned(rows))
    ensures forall i | 0 <= i < |rows| :: Within(Cleaned(rows)[i], rows[i])
  {
    hide Minus, Meet, GhostMix, Within, Ghosts, AtMostOneBit;
    var removed := Ghosts(rows, |rows|);
    forall i, j | 0 <= i < j < |rows|
      ensures CannotGhost(Cleaned(rows)[i], Cleaned(rows)[j])
    {
      PairInGhosts(rows, i, j);
      PairCleaned(rows[i], rows[j], removed);
    }
    forall i | 0 <= i < |rows|
      ensures Within(Cleaned(rows)[i], rows[i])
    {
      MaskShrinks(rows[i], removed);
    }
  }

  lemma MaskShrinks(x: Row, y: Row)
    ensures Within(Minus(x, y), x)
  {
  }

  lemma {:induction false} NoGhostsInRow(rows: seq<Row>, i: nat, j: nat)
    requires NoGhosts(rows) && i < j <= |rows|
    ensures RowGhosts(rows, i, j) == 0
    decreases j
  {
    hide GhostMix, Union, Meet, AtMostOneBit;
    if j > i + 1 {
      NoGhostsInRow(rows, i, j - 1);
      GhostMixDecides(rows[i], rows[j - 1]);
      Zeros(0, 0);
    }
  }

  lemma {:induction false} NoGhostsNothingRemoved(rows: seq<Row>, i: nat)
    requires NoGhosts(rows) && i <= |rows|
    ensures Ghosts(rows, i) == 0
    decreases i
  {
    hide Union, RowGhosts, CannotGhost;
    if i > 0 {
      NoGhostsNothingRemoved(rows, i - 1);
      NoGhostsInRow(rows, i - 1, |rows|);
      Zeros(0, 0);
    }
  }

  /** The matrix is left alone exactly when it has no ghost pattern. */
  lemma UnchangedExactly(rows: seq<Row>)
    ensures Cleaned(rows) == rows <==> NoGhosts(rows)
  {
    hide Minus, CannotGhost, Ghosts;
    CleanedHasNoGhosts(rows);
    if NoGhosts(rows) {
      NoGhostsNothingRemoved(rows, |rows|);
      forall k | 0 <= k < |rows|
        ensures Cleaned(rows)[k] == rows[k]
      {
        Zeros(0, rows[k]);
      }
    }
  }

  /** A second run changes nothing. */
  lemma CleanedTwice(rows: seq<Row>)
    ensures Cleaned(Cleaned(rows)) == Cleaned(rows)
  {
    hide Cleaned, NoGhosts;
    CleanedHasNoGhosts(rows);
    UnchangedExactly(Cleaned(rows));
  }

  // Exactly which keys go

  /** No mask splits the row: it holds one key or none. */
  ghost predicate OneKey(x: Row) {
    forall m: Row :: Meet(x, m) == 0 || Meet(x, m) == x
  }

  lemma OneKeyExactly(x: Row)
    ensures AtMostOneBit(x) <==> OneKey(x)
  {
    if AtMostOneBit(x) {
      forall m: Row
        ensures Meet(x, m) == 0 || Meet(x, m) == x
      {
        OneBitOrNone(x, m);
      }
    } else {
      DropsOneBit(x);
      assert Meet(x, x - 1) != 0 && Meet(x, x - 1) != x;
    }
  }

  lemma DropsOneBit(x: Row)
    requires x != 0
    ensures x & (x - 1) != x
  {
  }

  /** Two rows that share a key, unless each holds nothing but that key. */
  ghost predicate GhostPair(a: Row, b: Row) {
    Meet(a, b) != 0 && !(a == b && OneKey(a))
  }

  lemma MixOfPair(a: Row, b: Row, m: Row)
    ensures Meet(GhostMix(a, b), m) != 0 <==> GhostPair(a, b) && Meet(Meet(a, b), m) != 0
  {
    GhostMixDecides(a, b);
    MixIsAllOrNothing(a, b);
    OneKeyExactly(a);
    hide OneKey, AtMostOneBit, GhostMix;
    MeetNothing(m);
  }

  lemma MeetNothing(m: Row)
    ensures Meet(0, m) == 0
  {
  }

  lemma MeetOfUnion(x: Row, y: Row, m: Row)
    ensures Meet(Union(x, y), m) != 0 <==> Meet(x, m) != 0 || Meet(y, m) != 0
  {
    MeetDistributes(x, y, m);
    UnionNothing(Meet(x, m), Meet(y, m));
    hide Meet, Union;
  }

  lemma MeetDistributes(x: Row, y: Row, m: Row)
    ensures Meet(Union(x, y), m) == Union(Meet(x, m), Meet(y, m))
  {
  }

  lemma UnionNothing(x: Row, y: Row)
    ensures Union(x, y) == 0 <==> x == 0 && y == 0
  {
  }

  /** Some pair of rows makes the columns of `m` ghost columns. */
  ghost predicate Ghosted(rows: seq<Row>, m: Row) {
    exists i, j | 0 <= i < j < |rows| :: GhostPair(rows[i], rows[j]) && Meet(Meet(rows[i], rows[j]), m) != 0
  }

  lemma {:induction false} RowGhostsFrom(rows: seq<Row>, i: nat, j: nat, m: Row)
    requires i < j <= |rows| && Meet(RowGhosts(rows, i, j), m) != 0
    ensures Ghosted(rows, m)
    decreases j
  {
    hide GhostMix, Union, Meet, GhostPair;
    MeetNothing(m);
    if j > i + 1 {
      MeetOfUnion(RowGhosts(rows, i, j - 1), GhostMix(rows[i], rows[j - 1]), m);
      if Meet(GhostMix(rows[i], rows[j - 1]), m) != 0 {
        MixOfPair(rows[i], rows[j - 1], m);
      } else {
        RowGhostsFrom(rows, i, j - 1, m);
      }
    }
  }

  lemma {:induction false} GhostsFrom(rows: seq<Row>, i: nat, m: Row)
    requires i <= |rows| && Meet(Ghosts(rows, i), m) != 0
    ensures Ghosted(rows, m)
    decreases i
  {
    hide RowGhosts, Union, Meet, Ghosted;
    MeetNothing(m);
    if i > 0 {
      MeetOfUnion(Ghosts(rows, i - 1), RowGhosts(rows, i - 1, |rows|), m);
      if Meet(RowGhosts(rows, i - 1, |rows|), m) != 0 {
        RowGhostsFrom(rows, i - 1, |rows|, m);
      } else {
        GhostsFrom(rows, i - 1, m);
      }
    }
  }

  lemma GhostedIsGhost(rows: seq<Row>, m: Row)
    requires Ghosted(rows, m)
    ensures Meet(Ghosts(rows, |rows|), m) != 0
  {
    hide GhostMix, Within, Ghosts, Meet, GhostPair;
    var i, j :| 0 <= i < j < |rows| && GhostPair(rows[i], rows[j]) && Meet(Meet(rows[i], rows[j]), m) != 0;
    MixOfPair(rows[i], rows[j], m);
    PairInGhosts(rows, i, j);
    WithinMeets(GhostMix(rows[i], rows[j]), Ghosts(rows, |rows|), m);
  }

  lemma WithinMeets(x: Row, y: Row, m: Row)
    requires Within(x, y) && Meet(x, m) != 0
    ensures Meet(y, m) != 0
  {
    assert x & m == ((x & !y) & m) | ((x & m) & (y & m));
  }

  lemma ColumnKept(x: Row, g: Row, m: Row)
    requires Meet(g, m) == 0
    ensures Meet(Minus(x, g), m) == Meet(x, m)
  {
    assert x & m == ((x & !g) & m) | (x & (g & m));
  }

  lemma ColumnGone(x: Row, g: Row, m: Row)
    requires Meet(g, m) == m
    ensures Meet(Minus(x, g), m) == 0
  {
    assert (x & !g) & (g & m) == 0;
  }

  /** Of a key in row `k` and column `m` exactly a key that was not pressed or a ghost column leaves nothing. */
  lemma KeyRemovedExactly(rows: seq<Row>, k: nat, m: Row)
    requires k < |rows| && OneKey(m)
    ensures Meet(Cleaned(rows)[k], m) == 0 <==> Meet(rows[k], m) == 0 || Ghosted(rows, m)
  {
    var g := Ghosts(rows, |rows|);
    assert Meet(m, g) == 0 || Meet(m, g) == m;
    MeetCommutes(m, g);
    hide Ghosts, Ghosted, OneKey, Minus, Meet;
    if Meet(g, m) == 0 {
      ColumnKept(rows[k], g, m);
    } else {
      ColumnGone(rows[k], g, m);
      GhostsFrom(rows, |rows|, m);
    }
    if Ghosted(rows, m) {
      GhostedIsGhost(rows, m);
    }
  }

  lemma MeetCommutes(x: Row, y: Row)
    ensures Meet(x, y) == Meet(y, x)
  {
  }
}

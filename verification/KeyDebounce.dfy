/**
 `key_debounce_filter` of `keyboard.c`: each key follows the majority of its last output and
 its last two scans.
*/
module KeyDebounce {
  import opened KeyMatrix

  function Majority(a: Row, b: Row, c: Row): Row { Union(Union(Meet(a, b), Meet(b, c)), Meet(a, c)) }

  /** The output of one row; without the filter the scan goes straight through. */
  function Filtered(last: Row, pre: Row, raw: Row, enabled: bool): Row {
    if enabled then Union(Minus(Meet(pre, raw), last), Meet(last, Union(pre, raw))) else raw
  }

  lemma FilteredIsMajority(last: Row, pre: Row, raw: Row)
    ensures Filtered(last, pre, raw, true) == Majority(last, pre, raw)
  {
    var x, a, b := Meet(pre, raw), Meet(last, pre), Meet(last, raw);
    hide Union, Meet, Minus;
    Distribute(last, pre, raw);
    SplitByLast(last, x);
    Inside(last, pre, raw);
    Absorb(Minus(x, last), a, b, Meet(last, x));
  }

  lemma Distribute(last: Row, pre: Row, raw: Row)
    ensures Meet(last, Union(pre, raw)) == Union(Meet(last, pre), Meet(last, raw))
  {
  }

  lemma Inside(last: Row, pre: Row, raw: Row)
    ensures Meet(Meet(last, Meet(pre, raw)), Meet(last, pre)) == Meet(last, Meet(pre, raw))
  {
  }

  lemma SplitByLast(last: Row, x: Row)
    ensures x == Union(Minus(x, last), Meet(last, x))
  {
  }

  lemma Absorb(x: Row, a: Row, b: Row, y: Row)
    requires Meet(y, a) == y
    ensures Union(x, Union(a, b)) == Union(Union(a, Union(x, y)), b)
  {
  }

  function FilteredRows(last: seq<Row>, pre: seq<Row>, raw: seq<Row>, enabled: bool): (out: seq<Row>)
    requires |last| == |pre| == |raw|
    ensures |out| == |raw|
  {
    seq(|raw|, i requires 0 <= i < |raw| => Filtered(last[i], pre[i], raw[i], enabled))
  }

  /** Without the filter the scan itself; with it the majority of each key. */
  lemma RowsFiltered(last: seq<Row>, pre: seq<Row>, raw: seq<Row>, enabled: bool)
    requires |last| == |pre| == |raw|
    ensures !enabled ==> FilteredRows(last, pre, raw, enabled) == raw
    ensures enabled ==> forall k | 0 <= k < |raw| ::
                          FilteredRows(last, pre, raw, enabled)[k] == Majority(last[k], pre[k], raw[k])
  {
    if enabled {
      hide Filtered, Majority;
      forall k | 0 <= k < |raw|
        ensures FilteredRows(last, pre, raw, enabled)[k] == Majority(last[k], pre[k], raw[k])
      {
        FilteredIsMajority(last[k], pre[k], raw[k]);
      }
    }
  }

  /** The statics `mtrx_pre` and `mtrx_last`, from power-on and from one scan to the next. */
  datatype Statics = Statics(pre: seq<Row>, last: seq<Row>)

  function PowerOn(rows: nat): Statics { Statics(seq(rows, _ => 0), seq(rows, _ => 0)) }

  function FilterStep(s: Statics, raw: seq<Row>, enabled: bool): Statics
    requires |s.pre| == |s.last| == |raw|
  {
    Statics(raw, FilteredRows(s.last, s.pre, raw, enabled))
  }

  class Debouncer {
    const pre: array<Row>
    const last: array<Row>

    ghost predicate Valid() { pre.Length == last.Length && pre != last }

    ghost function View(): Statics
      reads pre, last
    {
      Statics(pre[..], last[..])
    }

    constructor (rows: nat)
      ensures View() == PowerOn(rows)
      ensures Valid() && pre.Length == rows && fresh(pre) && fresh(last)
      ensures forall i | 0 <= i < rows :: pre[i] == 0 && last[i] == 0
    {
      pre := new Row[rows](_ => 0);
      last := new Row[rows](_ => 0);
    }

    /** Filters the matrix in place; the flag tells whether any row's output changed. */
    method Filter(cur: array<Row>, enabled: bool) returns (changed: bool)
      requires Valid() && cur.Length == pre.Length && cur != pre && cur != last
      modifies cur, pre, last
      ensures cur[..] == FilteredRows(old(last[..]), old(pre[..]), old(cur[..]), enabled)
      ensures View() == FilterStep(old(View()), old(cur[..]), enabled) && last[..] == cur[..]
      ensures pre[..] == old(cur[..])
      ensures changed <==> last[..] != old(last[..])
      ensures !enabled ==> cur[..] == old(cur[..]) && (changed <==> old(cur[..]) != old(last[..]))
    {
      RowsFiltered(last[..], pre[..], cur[..], enabled);
      hide Filtered, FilteredRows;
      changed := FilterRows(cur, enabled);
    }

    /** The loop over the rows. */
    method FilterRows(cur: array<Row>, enabled: bool) returns (changed: bool)
      requires Valid() && cur.Length == pre.Length && cur != pre && cur != last
      modifies cur, pre, last
      ensures cur[..] == FilteredRows(old(last[..]), old(pre[..]), old(cur[..]), enabled)
      ensures last[..] == cur[..] && pre[..] == old(cur[..])
      ensures changed <==> last[..] != old(last[..])
    {
      hide Filtered;
      changed := false;
      ghost var at := 0;
      var i := 0;
      while i < cur.Length
        invariant 0 <= i <= cur.Length
        invariant forall k | 0 <= k < i :: cur[k] == Filtered(old(last[k]), old(pre[k]), old(cur[k]), enabled)
        invariant forall k | 0 <= k < i :: pre[k] == old(cur[k]) && last[k] == cur[k]
        invariant forall k | i <= k < cur.Length :: cur[k] == old(cur[k])
        invariant forall k | i <= k < cur.Length :: pre[k] == old(pre[k]) && last[k] == old(last[k])
        invariant changed ==> at < i && last[at] != old(last[at])
        invariant !changed ==> forall k | 0 <= k < i :: last[k] == old(last[k])
      {
        var raw := cur[i];
        cur[i] := FilterRow(last[i], pre[i], cur[i], raw, enabled);
        if cur[i] != last[i] {
          changed := true;
          at := i;
        }
        pre[i] := raw;
        last[i] := cur[i];
        i := i + 1;
      }
      if !changed {
        assert last[..] == old(last[..]);
      } else {
        assert last[..][at] != old(last[..])[at];
      }
    }

    method FilterRow(lastRow: Row, preRow: Row, curRow: Row, raw: Row, enabled: bool) returns (r: Row)
      requires curRow == raw
      ensures r == Filtered(lastRow, preRow, raw, enabled)
    {
      r := curRow;
      if enabled {
        r := (!lastRow & (preRow & raw)) | (lastRow & (preRow | raw));
        Commute(!lastRow, preRow & raw);
      }
    }
  }

  lemma Commute(x: Row, y: Row)
    ensures x & y == y & x
  {
  }

  // Runs of one row from power-on

  datatype Scan = Scan(raw: Row, enabled: bool)

  function Out(scans: seq<Scan>, k: nat): Row
    requires k < |scans|
    decreases k
  {
    Filtered(LastOut(scans, k), PreScan(scans, k), scans[k].raw, scans[k].enabled)
  }

  function LastOut(scans: seq<Scan>, k: nat): Row
    requires k <= |scans|
    decreases k, 0
  {
    if k == 0 then 0 else Out(scans, k - 1)
  }

  function PreScan(scans: seq<Scan>, k: nat): Row
    requires k <= |scans|
  {
    if k == 0 then 0 else scans[k - 1].raw
  }

  /** One call of the filter: the matrix and whether the filter is on. */
  datatype MatrixScan = MatrixScan(rows: seq<Row>, enabled: bool)

  ghost predicate Shaped(calls: seq<MatrixScan>, rows: nat) {
    forall c | c in calls :: |c.rows| == rows
  }

  /** The statics after a run of calls. */
  ghost function AfterCalls(calls: seq<MatrixScan>, rows: nat): (s: Statics)
    requires Shaped(calls, rows)
    ensures |s.pre| == |s.last| == rows
  {
    if calls == [] then PowerOn(rows)
    else
      var c := calls[|calls| - 1];
      assert c in calls;
      FilterStep(AfterCalls(calls[..|calls| - 1], rows), c.rows, c.enabled)
  }

  /** What row `i` sees of the calls. */
  ghost function RowScans(calls: seq<MatrixScan>, rows: nat, i: nat): (scans: seq<Scan>)
    requires Shaped(calls, rows) && i < rows
    ensures |scans| == |calls|
  {
    seq(|calls|, k requires 0 <= k < |calls| => assert calls[k] in calls; Scan(calls[k].rows[i], calls[k].enabled))
  }

  /** Over every run of calls each row of the statics follows its own scans. */
  lemma {:induction false} CallsFollowRows(calls: seq<MatrixScan>, rows: nat, i: nat)
    requires Shaped(calls, rows) && i < rows
    ensures var scans := RowScans(calls, rows, i);
            && AfterCalls(calls, rows).last[i] == LastOut(scans, |calls|)
            && AfterCalls(calls, rows).pre[i] == PreScan(scans, |calls|)
    decreases |calls|
  {
    hide Filtered;
    if calls != [] {
      var before := calls[..|calls| - 1];
      var scans, fewer := RowScans(calls, rows, i), RowScans(before, rows, i);
      CallsFollowRows(before, rows, i);
      assert scans[..|before|] == fewer;
      SameStart(scans, fewer, |before|);
    }
  }

  lemma {:induction false} SameStart(scans: seq<Scan>, fewer: seq<Scan>, k: nat)
    requires k <= |fewer| <= |scans| && scans[..|fewer|] == fewer
    ensures LastOut(scans, k) == LastOut(fewer, k) && PreScan(scans, k) == PreScan(fewer, k)
  {
    if k > 0 {
      SameStart(scans, fewer, k - 1);
      assert scans[k - 1] == scans[..|fewer|][k - 1] == fewer[k - 1];
    }
  }

  /** On the columns of `mask`, the two rows are the same. */
  predicate Agree(a: Row, b: Row, mask: Row) { a & mask == b & mask }

  function Changes(last: Row, out: Row): Row { out ^ last }

  /** A key that changes its output was seen changed in this scan and in the one before. */
  lemma FlipNeedsTwoScans(scans: seq<Scan>, k: nat)
    requires k < |scans| && scans[k].enabled
    ensures var flipped := Changes(LastOut(scans, k), Out(scans, k));
            && Agree(scans[k].raw, Out(scans, k), flipped)
            && Agree(PreScan(scans, k), Out(scans, k), flipped)
  {
    hide Filtered, Agree, Changes;
    FlipOfRow(LastOut(scans, k), PreScan(scans, k), scans[k].raw);
  }

  lemma FlipOfRow(last: Row, pre: Row, raw: Row)
    ensures var out := Filtered(last, pre, raw, true);
            Agree(raw, out, Changes(last, out)) && Agree(pre, out, Changes(last, out))
  {
  }

  /** Two scans that agree settle the output. */
  lemma TwoScansSettle(scans: seq<Scan>, k: nat, mask: Row)
    requires k < |scans| && Agree(PreScan(scans, k), scans[k].raw, mask)
    ensures Agree(Out(scans, k), scans[k].raw, mask)
  {
    SettleRow(LastOut(scans, k), PreScan(scans, k), scans[k].raw, scans[k].enabled, mask);
  }

  lemma SettleRow(last: Row, pre: Row, raw: Row, enabled: bool, mask: Row)
    requires Agree(pre, raw, mask)
    ensures Agree(Filtered(last, pre, raw, enabled), raw, mask)
  {
  }

  /** A disturbance of a single scan never shows: the output stays through it and after it. */
  lemma GlitchNeverShows(scans: seq<Scan>, k: nat, mask: Row)
    requires k + 1 < |scans| && scans[k].enabled && scans[k + 1].enabled
    requires Agree(PreScan(scans, k), LastOut(scans, k), mask)
    requires Agree(scans[k + 1].raw, LastOut(scans, k), mask)
    ensures Agree(Out(scans, k), LastOut(scans, k), mask)
    ensures Agree(Out(scans, k + 1), LastOut(scans, k), mask)
  {
    hide Filtered, Agree;
    HoldRow(LastOut(scans, k), PreScan(scans, k), scans[k].raw, LastOut(scans, k), mask);
    AgreeItself(LastOut(scans, k), mask);
    HoldRow2(Out(scans, k), scans[k].raw, scans[k + 1].raw, LastOut(scans, k), mask);
  }

  lemma AgreeItself(x: Row, mask: Row)
    ensures Agree(x, x, mask)
  {
  }

  lemma HoldRow(last: Row, pre: Row, raw: Row, v: Row, mask: Row)
    requires Agree(last, v, mask) && Agree(pre, v, mask)
    ensures Agree(Filtered(last, pre, raw, true), v, mask)
  {
  }

  lemma HoldRow2(last: Row, pre: Row, raw: Row, v: Row, mask: Row)
    requires Agree(last, v, mask) && Agree(raw, v, mask)
    ensures Agree(Filtered(last, pre, raw, true), v, mask)
  {
  }
}

/**
 `kb_scan_key_value` of `keyboard.c` after the pins were read: ghost removal, debouncing, and
 the four-slot ring of matrix snapshots from which one is read back.
*/
module KeyScan {
  import opened Options
  import opened KeyMatrix
  import opened KeyDebounce
  import R = DropOldest

  type Matrix = seq<Row>

  /** No snapshot equals the one before it; the first differs from the matrix with no key. */
  ghost predicate NoRepeats<T>(log: seq<T>, none: T) {
    forall i | 0 <= i < |log| :: log[i] != Prior(log, i, none)
  }

  function Prior<T>(log: seq<T>, i: nat, none: T): T
    requires i <= |log|
  {
    if i == 0 then none else log[i - 1]
  }

  function NoKeys(rows: nat): Matrix { seq(rows, _ => 0) }

  function LastPushed(log: seq<Matrix>, rows: nat): Matrix { Prior(log, |log|, NoKeys(rows)) }

  class Keyboard {
    const filter: Debouncer
    const buff: array<Matrix>
    var wptr: nat
    var rptr: nat
    /** Every snapshot ever pushed. */
    ghost var log: seq<Matrix>

    ghost function View(): R.Ring<Matrix>
      reads this, buff
    {
      R.Ring(buff[..], wptr, rptr, false)
    }

    /** The ring holds the newest snapshots. */
    ghost predicate RingValid()
      reads this, buff
    {
      && R.Valid(View())
      && R.Count(View()) <= |log|
      && R.Live(View()) == log[|log| - R.Count(View())..]
    }

    ghost predicate Valid()
      reads this, buff, filter.last
    {
      && filter.Valid() && buff as object != filter.pre && buff as object != filter.last
      && RingValid()
      && NoRepeats(log, NoKeys(filter.last.Length))
      && filter.last[..] == LastPushed(log, filter.last.Length)
    }

    constructor (rows: nat)
      ensures Valid() && log == [] && filter.last.Length == rows
      ensures fresh(buff) && fresh(filter.pre) && fresh(filter.last)
    {
      filter := new Debouncer(rows);
      buff := new Matrix[4](_ => []);
      wptr, rptr, log := 0, 0, [];
      new;
      R.EmptyRing(buff[..], false);
      hide R.Live, R.Valid, R.Count;
    }

    /** The push: the write pointer runs modulo 8, an overflow pulls the read pointer behind it. */
    method PushMatrix(m: Matrix)
      requires R.Valid(View())
      modifies this`wptr, this`rptr, buff
      ensures View() == R.Push(old(View()), m)
    {
      hide R.Push, R.Low3, R.Low2;
      NarrowPush(View(), m);
      buff[R.Low2(wptr)] := m;
      wptr := R.Low3(wptr + 1);
      if R.Low3(wptr - rptr) > 4 {
        rptr := R.Low3(wptr - 4);
      }
    }

    /**
     One scan. The result tells whether key data is returned; the matrix is the snapshot that
     was read, if any.
    */
    method ScanKeyValue(pressed: array<Row>, removeGhosts: bool, powerOn: bool, invalid: bool, readKey: bool)
      returns (ret: bool, read: Option<Matrix>)
      requires Valid() && pressed.Length == filter.pre.Length
      requires pressed != filter.pre && pressed != filter.last && buff as object != pressed
      modifies this`wptr, this`rptr, this`log, buff, pressed, filter.pre, filter.last
      ensures Valid()
      ensures powerOn ==>
                var scan := if removeGhosts then Cleaned(old(pressed[..])) else old(pressed[..]);
                log == (if scan != LastPushed(old(log), pressed.Length) then old(log) + [scan] else old(log))
      ensures var raw := if removeGhosts then Cleaned(old(pressed[..])) else old(pressed[..]);
              var out := FilteredRows(old(filter.last[..]), old(filter.pre[..]), raw, !powerOn);
              && pressed[..] == out && filter.pre[..] == raw
              && log == (if out != LastPushed(old(log), pressed.Length) then old(log) + [out] else old(log))
              && var queue := (if out != LastPushed(old(log), pressed.Length) then R.Appended(R.Live(old(View())), out)
                               else R.Live(old(View())));
                 if invalid || queue == [] || !readKey then
                   read == None && ret == invalid && R.Live(View()) == queue
                 else
                   read == Some(queue[0]) && ret && R.Live(View()) == queue[1..]
    {
      hide Cleaned, FilteredRows, NoRepeats, RingValid, R.Live, R.Valid, R.Appended, R.Count;
      ghost var none := NoKeys(pressed.Length);
      if removeGhosts {
        RemoveGhostKeys(pressed);
      }
      var changed := filter.Filter(pressed, !powerOn);
      if changed {
        OneMoreSnapshot(log, pressed[..], none);
        Record(pressed[..]);
      }
      ret, read := ReadOut(invalid, readKey);
    }

    method Record(m: Matrix)
      requires RingValid()
      modifies this`wptr, this`rptr, this`log, buff
      ensures RingValid() && log == old(log) + [m]
      ensures R.Live(View()) == R.Appended(old(R.Live(View())), m)
    {
      hide R.Push, R.Valid, R.Live, R.Count;
      R.PushRefines(View(), m);
      R.CountIsLength(View());
      PushMatrix(m);
      R.CountIsLength(View());
      log := log + [m];
    }

    /** The read-out at the end of `kb_scan_key_value`. */
    method ReadOut(invalid: bool, readKey: bool) returns (ret: bool, read: Option<Matrix>)
      requires RingValid()
      modifies this`rptr
      ensures RingValid()
      ensures var queue := old(R.Live(View()));
              if invalid || queue == [] || !readKey then
                read == None && ret == invalid && R.Live(View()) == queue
              else
                read == Some(queue[0]) && ret && R.Live(View()) == queue[1..]
    {
      R.CountIsLength(View());
      if invalid {
        return true, None;
      }
      R.EmptyWhenEqual(View());
      if wptr == rptr || !readKey {
        return false, None;
      }
      R.PopRefines(View());
      read := Some(buff[R.Low2(rptr)]);
      rptr := R.Low3(rptr + 1);
      ret := true;
    }
  }

  lemma OneMoreSnapshot<T>(log: seq<T>, m: T, none: T)
    requires NoRepeats(log, none) && m != Prior(log, |log|, none)
    ensures NoRepeats(log + [m], none)
  {
    var more := log + [m];
    forall i | 0 <= i < |more|
      ensures more[i] != Prior(more, i, none)
    {
      assert Prior(more, i, none) == Prior(log, i, none);
      assert i < |log| ==> more[i] == log[i];
    }
  }

  /** Pulling the read pointer to four behind the write pointer is giving up one entry. */
  lemma NarrowPush<T>(g: R.Ring<T>, x: T)
    requires R.Valid(g) && !g.wide
    ensures var w := R.Low3(g.w + 1);
            R.Push(g, x) ==
            R.Ring(g.slots[R.Low2(g.w) := x], w, if R.Low3(w - g.r) > 4 then R.Low3(w - 4) else g.r, false)
  {
    hide R.Low3, R.Low2;
    OverflowPointer(g.w, g.r);
  }

  lemma OverflowPointer(w: nat, r: nat)
    requires w < 8 && r < 8 && (w - r) % 8 <= 4
    ensures var w' := (w + 1) % 8; (w' - r) % 8 > 4 ==> (w' - 4) % 8 == (r + 1) % 8
  {
  }
}

/**
 The report FIFO shared by `usbkb.c` and `usbmouse.c`: reports that find their endpoint busy
 wait in four slots of eight bytes and are sent later from the head.
*/
module UsbReports {
  import opened Bits
  import R = DropOldest

  datatype Report = Keyboard(ctrl: u8, keys: seq<u8>) | Mouse(id: u8, data: seq<u8>)

  type Slot = s: seq<u8> | |s| == 8 witness [0, 0, 0, 0, 0, 0, 0, 0]

  const DAT_TYPE_KB: u8 := 1
  const DAT_TYPE_MOUSE: u8 := 2

  predicate Sendable(r: Report) {
    match r
    case Keyboard(_, keys) => |keys| == 6
    case Mouse(_, data) => |data| <= 4
  }

  predicate WellFormed(s: Slot) {
    s[0] == DAT_TYPE_KB || (s[0] == DAT_TYPE_MOUSE && s[2] <= 4)
  }

  /** What `usb_hid_report_fifo_proc` makes of a slot. */
  function ReportIn(s: Slot): Report
    requires WellFormed(s)
  {
    if s[0] == DAT_TYPE_KB then Keyboard(s[1], s[2..8]) else Mouse(s[1], s[4..4 + s[2] as int])
  }

  /** The bytes that the two producers write over the old content of a slot. */
  function Stored(old': Slot, r: Report): Slot
    requires Sendable(r)
  {
    match r
    case Keyboard(ctrl, keys) => [DAT_TYPE_KB, ctrl] + keys
    case Mouse(id, data) =>
      var n: int := |data|;
      [DAT_TYPE_MOUSE, id, n] + old'[3..4] + data + old'[4 + n..]
  }

  lemma StoredReadsBack(old': Slot, r: Report)
    requires Sendable(r)
    ensures WellFormed(Stored(old', r)) && ReportIn(Stored(old', r)) == r
  {
  }

  /** The bytes of a slot: type, keys or identifier, and for a mouse the length in front of a gap and the data. */
  lemma SlotLayout(old': Slot, r: Report)
    requires Sendable(r)
    ensures var s := Stored(old', r);
            match r
            case Keyboard(ctrl, keys) =>
              s[0] == 1 && s[1] == ctrl && forall i | 0 <= i < 6 :: s[2 + i] == keys[i]
            case Mouse(id, data) =>
              && s[0] == 2 && s[1] == id && s[2] == |data| && s[3] == old'[3]
              && (forall i | 0 <= i < |data| :: s[4 + i] == data[i])
              && forall i | 4 + |data| <= i < 8 :: s[i] == old'[i]
  {
  }

  ghost predicate AllWellFormed(q: seq<Slot>) {
    forall s | s in q :: WellFormed(s)
  }

  function Reports(q: seq<Slot>): (rs: seq<Report>)
    requires forall s | s in q :: WellFormed(s)
    ensures |rs| == |q|
  {
    seq(|q|, i requires 0 <= i < |q| => assert q[i] in q; ReportIn(q[i]))
  }

  lemma ReportsAppended(q: seq<Slot>, s: Slot, r: Report)
    requires |q| <= R.SLOTS && AllWellFormed(q) && WellFormed(s) && ReportIn(s) == r
    ensures AllWellFormed(R.Appended(q, s)) && Reports(R.Appended(q, s)) == R.Appended(Reports(q), r)
  {
    hide WellFormed, ReportIn;
  }

  lemma TailReports(q: seq<Slot>)
    requires q != [] && AllWellFormed(q)
    ensures AllWellFormed(q[1..]) && Reports(q[1..]) == Reports(q)[1..]
    ensures WellFormed(q[0]) && Reports(q)[0] == ReportIn(q[0])
  {
    hide WellFormed, ReportIn;
    assert q[0] in q;
  }

  /** Pushing a stored report appends it to the waiting ones. */
  lemma AppendedReport(g: R.Ring<Slot>, k: nat, r: Report)
    requires R.Valid(g) && AllWellFormed(R.Live(g)) && Sendable(r) && k < |g.slots|
    ensures var h := R.Push(g, Stored(g.slots[k], r));
            && R.Valid(h) && AllWellFormed(R.Live(h)) && Reports(R.Live(h)) == R.Appended(Reports(R.Live(g)), r)
  {
    hide *;
    var s := Stored(g.slots[k], r);
    R.CountIsLength(g);
    R.PushRefines(g, s);
    StoredReadsBack(g.slots[k], r);
    ReportsAppended(R.Live(g), s, r);
  }

  class ReportFifo {
    const fifo: array<Slot>
    var wptr: u8
    var rptr: u8
    /** What went out through the two endpoints. */
    var sent: seq<Report>

    ghost function View(): R.Ring<Slot>
      reads this, fifo
    {
      R.Ring(fifo[..], wptr, rptr, true)
    }

    ghost predicate Valid()
      reads this, fifo
    {
      R.Valid(View()) && AllWellFormed(R.Live(View()))
    }

    /** The waiting reports, oldest first. */
    ghost function Waiting(): seq<Report>
      requires Valid()
      reads this, fifo
    {
      Reports(R.Live(View()))
    }

    constructor ()
      ensures Valid() && Waiting() == [] && sent == [] && fresh(fifo)
    {
      fifo := new Slot[4](_ => [0, 0, 0, 0, 0, 0, 0, 0]);
      wptr, rptr, sent := 0, 0, [];
    }

    /** The overflowing write that both producers share. */
    method Enqueue(r: Report)
      requires Valid() && Sendable(r)
      modifies this`wptr, this`rptr, fifo
      ensures Valid() && Waiting() == R.Appended(old(Waiting()), r)
    {
      assert fifo.Length == 4;
      hide R.Push, R.Live, R.Valid, R.Low2, R.Low3, Stored, WellFormed, ReportIn, R.Appended, AllWellFormed, Reports;
      ghost var before := View();
      var k := R.Low2(wptr);
      ghost var s := Stored(fifo[k], r);
      AppendedReport(before, k, r);
      R.WidePush(before, s);
      fifo[k] := Stored(fifo[k], r);
      assert fifo[..] == before.slots[k := s];
      wptr := Wrap8(wptr + 1);
      var use := R.Low3(wptr - rptr);
      if use > R.SLOTS {
        rptr := Wrap8(rptr + 1);
      }
      assert View() == R.Push(before, s);
    }

    /** `usbkb_hid_report_normal` and `usbmouse_hid_report` */
    method Send(r: Report, busy: bool) returns (direct: bool)
      requires Valid() && Sendable(r)
      modifies this, fifo
      ensures Valid() && direct == !busy
      ensures busy ==> Waiting() == R.Appended(old(Waiting()), r) && sent == old(sent)
      ensures !busy ==> View() == old(View()) && Waiting() == old(Waiting()) && sent == old(sent) + [r]
    {
      if busy {
        Enqueue(r);
        return false;
      }
      sent := sent + [r];
      direct := true;
    }

    /** `usb_hid_report_fifo_proc`: the head waits for its own endpoint only. */
    method Proc(keyboardBusy: bool, mouseBusy: bool) returns (did: bool)
      requires Valid()
      modifies this, fifo
      ensures Valid()
      ensures did <==> old(Waiting()) != [] && !(if old(Waiting())[0].Keyboard? then keyboardBusy else mouseBusy)
      ensures did ==> sent == old(sent) + [old(Waiting())[0]] && Waiting() == old(Waiting())[1..]
      ensures !did ==> sent == old(sent) && Waiting() == old(Waiting())
    {
      assert fifo.Length == 4;
      R.CountIsLength(View());
      R.EmptyWhenEqual(View());
      if rptr == wptr {
        return false;
      }
      R.HeadSlot(View());
      R.PopRefines(View());
      R.WidePop(View());
      hide R.Pop, R.Low2, R.Live, R.Valid;
      TailReports(R.Live(View()));
      var head := fifo[R.Low2(rptr)];
      if head[0] == DAT_TYPE_KB {
        if keyboardBusy {
          return false;
        }
        did := Send(Keyboard(head[1], head[2..8]), false);
      } else {
        if mouseBusy {
          return false;
        }
        did := Send(Mouse(head[1], head[4..4 + head[2] as int]), false);
      }
      rptr := Wrap8(rptr + 1);
      assert View() == R.Pop(old(View()));
    }
  }
}

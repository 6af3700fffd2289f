/**
 The page-splitting loop shared by `flash_page_program` and `flash_write_otp` of
 `drivers/B85/flash.c`, against a NOR device that programs by clearing bits and whose
 write address wraps inside a page.
*/
module Flash {
  import opened Bits

  /** One write transaction on the serial bus; `cmd` is 0x02 for a page, 0x42 for a security register. */
  datatype Command = Write(cmd: u8, addr: nat, data: seq<u8>)

  // Addresses

  /** `flash_send_addr` clocks out three bytes; the device sees no more. */
  function At(addr: nat): (a: nat)
    ensures a < 0x100_0000
  {
    addr % 0x100_0000
  }

  /** The bytes left in the 256-byte page of `addr`. */
  function Room(addr: nat): (n: nat)
    ensures 0 < n <= 256
  {
    256 - addr % 256
  }

  lemma Congruent(a: nat, b: nat, t: int)
    requires b == a + 0x100_0000 * t
    ensures At(b) == At(a) && Room(b) == Room(a)
  {
    Turns(a, 0x100_0000, t);
    Turns(a, 256, 0x1_0000 * t);
  }

  lemma SameStep(a: nat, b: nat, k: nat)
    requires At(a) == At(b)
    ensures At(a + k) == At(b + k) && Room(a) == Room(b)
  {
    var t := b / 0x100_0000 - a / 0x100_0000;
    assert b == a + 0x100_0000 * t;
    hide At, Room;
    Congruent(a, b, t);
    Congruent(a + k, b + k, t);
  }

  lemma AtTwice(addr: nat)
    ensures At(At(addr)) == At(addr) && Room(At(addr)) == Room(addr)
  {
    var t := addr / 0x100_0000;
    assert addr == At(addr) + 0x100_0000 * t;
    hide At, Room;
    Congruent(At(addr), addr, t);
  }

  lemma AtWrapped(addr: nat)
    ensures At(Wrap32(addr)) == At(addr) && Room(Wrap32(addr)) == Room(addr)
  {
    var t := addr / 0x1_0000_0000;
    assert addr == Wrap32(addr) + 0x100_0000 * (256 * t);
    hide At, Room, Wrap32;
    Congruent(Wrap32(addr), addr, 256 * t);
  }

  // The loop

  /** The transactions of one call: each up to the end of its page. */
  function Split(cmd: u8, addr: nat, data: seq<u8>): (r: seq<Command>)
    ensures r != []
    decreases |data|
  {
    var room := Room(addr);
    if |data| <= room then [Write(cmd, At(addr), data)]
    else [Write(cmd, At(addr), data[..room])] + Split(cmd, addr + room, data[room..])
  }

  lemma {:induction false} SplitSame(cmd: u8, a: nat, b: nat, data: seq<u8>)
    requires At(a) == At(b)
    ensures Split(cmd, a, data) == Split(cmd, b, data)
    decreases |data|
  {
    hide At, Room;
    SameStep(a, b, Room(a));
    if |data| > Room(a) {
      SplitSame(cmd, a + Room(a), b + Room(a), data[Room(a)..]);
    }
  }

  /** One turn of the loop peels one transaction off, also where the 32-bit address wraps. */
  lemma SplitStep(cmd: u8, addr: nat, data: seq<u8>, nw: nat)
    requires nw == if |data| > Room(addr) then Room(addr) else |data|
    ensures var first := Write(cmd, At(addr), data[..nw]);
            Split(cmd, addr, data) ==
            if nw < |data| then [first] + Split(cmd, Wrap32(addr + nw), data[nw..]) else [first]
  {
    hide At, Room;
    if nw < |data| {
      AtWrapped(addr + nw);
      SplitSame(cmd, addr + nw, Wrap32(addr + nw), data[nw..]);
    } else {
      assert data[..nw] == data;
    }
  }

  /** The same step seen from the transactions issued so far. */
  lemma IssueStep(issued: seq<Command>, cmd: u8, addr: nat, rest: seq<u8>, nw: nat, whole: seq<Command>)
    requires nw == if |rest| > Room(addr) then Room(addr) else |rest|
    requires issued + Split(cmd, addr, rest) == whole
    ensures var more := issued + [Write(cmd, At(addr), rest[..nw])];
            whole == if nw < |rest| then more + Split(cmd, Wrap32(addr + nw), rest[nw..]) else more
  {
    hide At, Room, Split, Wrap32;
    SplitStep(cmd, addr, rest, nw);
  }

  lemma PageEnd(addr: nat)
    ensures Room(Wrap32(addr + Room(addr))) == 256
  {
    var end, t := addr + Room(addr), addr / 256 + 1;
    assert end == 256 * t;
    assert Room(end) == 256 by { Turns(0, 256, t); }
    hide Room, Wrap32;
    AtWrapped(end);
  }

  /** The loop of both functions; a length of 0 issues one command without data. */
  method Issue(cmd: u8, start: u32, length: u32, buf: seq<u8>) returns (issued: seq<Command>)
    requires length <= |buf|
    ensures issued == Split(cmd, start, buf[..length])
  {
    var addr: int, len: int, next: int := start, length, 0;
    var ns: int := 256 - addr % 256;
    issued := [];
    var again := true;
    while again
      invariant 0 <= addr && 0 <= next <= length && len == length - next
      invariant again ==> ns == Room(addr)
      invariant again ==> issued + Split(cmd, addr, buf[next..length]) == Split(cmd, start, buf[..length])
      invariant !again ==> issued == Split(cmd, start, buf[..length])
      decreases len + if again then 1 else 0
    {
      hide At, Room, Split, Wrap32;
      var nw: int := if len > ns then ns else len;
      IssueStep(issued, cmd, addr, buf[next..length], nw, Split(cmd, start, buf[..length]));
      PageEnd(addr);
      assert buf[next..next + nw] == buf[next..length][..nw];
      assert buf[next + nw..length] == buf[next..length][nw..];
      issued := issued + [Write(cmd, At(addr), buf[next..next + nw])];
      ns := 256;
      addr := Wrap32(addr + nw);
      next := next + nw;
      len := len - nw;
      again := len > 0;
    }
  }

  // What the transactions are

  function Payload(commands: seq<Command>): seq<u8> {
    if commands == [] then [] else commands[0].data + Payload(commands[1..])
  }

  /** The payloads, in order, are the buffer. */
  lemma {:induction false} PayloadOfSplit(cmd: u8, addr: nat, data: seq<u8>)
    ensures Payload(Split(cmd, addr, data)) == data
    decreases |data|
  {
    hide At, Room;
    var room, commands := Room(addr), Split(cmd, addr, data);
    if |data| > room {
      PayloadOfSplit(cmd, addr + room, data[room..]);
      assert commands[1..] == Split(cmd, addr + room, data[room..]);
      assert data[..room] + data[room..] == data;
    } else {
      assert commands[1..] == [];
    }
  }

  ghost predicate InsidePage(c: Command) { c.addr < 0x100_0000 && |c.data| <= Room(c.addr) }

  /** Each transaction starts where the one before ended and stays in one page. */
  lemma {:induction false} SplitContiguous(cmd: u8, addr: nat, data: seq<u8>, k: nat)
    requires k < |Split(cmd, addr, data)|
    ensures var s := Split(cmd, addr, data);
            s[k].cmd == cmd && s[k].addr == At(addr + |Payload(s[..k])|) && InsidePage(s[k])
    decreases |data|
  {
    hide At, Room;
    var room, s := Room(addr), Split(cmd, addr, data);
    if k == 0 {
      assert s[..0] == [];
      AtTwice(addr);
    } else {
      var rest := Split(cmd, addr + room, data[room..]);
      SplitContiguous(cmd, addr + room, data[room..], k - 1);
      assert s[..k][1..] == rest[..k - 1];
      assert s[..k][0] == s[0] && s[k] == rest[k - 1];
    }
  }

  /** The number of transactions is the number of pages touched, so no page is addressed twice. */
  lemma {:induction false} OnePerPage(cmd: u8, addr: nat, data: seq<u8>)
    requires data != []
    ensures |Split(cmd, addr, data)| == (addr + |data| - 1) / 256 - addr / 256 + 1
    decreases |data|
  {
    if |data| > Room(addr) {
      OnePerPage(cmd, addr + Room(addr), data[Room(addr)..]);
    }
  }

  // What the device makes of them

  /** Programming can only clear bits. */
  function Cleared(cell: u8, data: u8): (r: u8)
    ensures r <= data && r <= cell
  {
    AndAtMost(data, cell);
    And(data, cell)
  }

  lemma {:induction false} AndAtMost(a: nat, b: nat)
    ensures And(a, b) <= a && And(a, b) <= b
  {
    if a > 0 && b > 0 {
      AndAtMost(a / 2, b / 2);
    }
  }

  type Cells = s: seq<u8> | |s| == 0x100_0000 witness seq(0x100_0000, _ => 0xff)

  /** Behind the last byte of the page comes its first. */
  function InPage(addr: nat): (next: nat)
    requires addr < 0x100_0000
    ensures next < 0x100_0000
    ensures Room(addr) > 1 ==> next == addr + 1 && Room(next) == Room(addr) - 1
  {
    addr - addr % 256 + (addr + 1) % 256
  }

  /** A page program. */
  function PageWrite(dev: Cells, addr: nat, data: seq<u8>): Cells
    requires addr < 0x100_0000
    decreases |data|
  {
    if data == [] then dev
    else PageWrite(dev[addr := Cleared(dev[addr], data[0])], InPage(addr), data[1..])
  }

  function Run(dev: Cells, commands: seq<Command>): Cells
    decreases |commands|
  {
    if commands == [] then dev
    else Run(PageWrite(dev, At(commands[0].addr), commands[0].data), commands[1..])
  }

  /** What the caller has in mind: one write over consecutive addresses. */
  function LinearWrite(dev: Cells, addr: nat, data: seq<u8>): Cells
    decreases |data|
  {
    if data == [] then dev
    else LinearWrite(dev[At(addr) := Cleared(dev[At(addr)], data[0])], addr + 1, data[1..])
  }

  lemma {:induction false} InsidePageIsLinear(dev: Cells, addr: nat, data: seq<u8>)
    requires addr < 0x100_0000 && |data| <= Room(addr)
    ensures PageWrite(dev, addr, data) == LinearWrite(dev, addr, data)
    decreases |data|
  {
    assert At(addr) == addr;
    hide At, Room, InPage, Cleared;
    if |data| > 1 {
      InsidePageIsLinear(dev[addr := Cleared(dev[addr], data[0])], addr + 1, data[1..]);
    }
  }

  lemma {:induction false} LinearAppend(dev: Cells, addr: nat, a: seq<u8>, b: seq<u8>)
    ensures LinearWrite(dev, addr, a + b) == LinearWrite(LinearWrite(dev, addr, a), addr + |a|, b)
    decreases |a|
  {
    hide At, Cleared;
    if a == [] {
      assert a + b == b;
    } else {
      assert (a + b)[1..] == a[1..] + b;
      LinearAppend(dev[At(addr) := Cleared(dev[At(addr)], a[0])], addr + 1, a[1..], b);
    }
  }

  lemma {:induction false} LinearSame(dev: Cells, a: nat, b: nat, data: seq<u8>)
    requires At(a) == At(b)
    ensures LinearWrite(dev, a, data) == LinearWrite(dev, b, data)
    decreases |data|
  {
    hide At, Cleared;
    if data != [] {
      SameStep(a, b, 1);
      LinearSame(dev[At(a) := Cleared(dev[At(a)], data[0])], a + 1, b + 1, data[1..]);
    }
  }

  /** The wrap inside the page never shows: the split write is the linear one. */
  lemma {:induction false} SplitIsLinear(dev: Cells, cmd: u8, addr: nat, data: seq<u8>)
    ensures Run(dev, Split(cmd, addr, data)) == LinearWrite(dev, addr, data)
    decreases |data|
  {
    hide At, Room, PageWrite, LinearWrite;
    var room, s := Room(addr), Split(cmd, addr, data);
    var head := s[0].data;
    AtTwice(addr);
    InsidePageIsLinear(dev, At(addr), head);
    LinearSame(dev, At(addr), addr, head);
    if |data| <= room {
      assert s[1..] == [];
    } else {
      var rest := data[room..];
      SplitIsLinear(LinearWrite(dev, addr, head), cmd, addr + room, rest);
      assert s[1..] == Split(cmd, addr + room, rest);
      LinearAppend(dev, addr, head, rest);
      assert head + rest == data;
    }
  }

  // The linear write, cell by cell

  /** How far cell `x` lies behind the start address. */
  function Offset(addr: nat, x: nat): nat { (x - addr) % 0x100_0000 }

  lemma OffsetStep(addr: nat, x: nat)
    requires x < 0x100_0000
    ensures x == At(addr) ==> Offset(addr, x) == 0 && Offset(addr + 1, x) == 0xff_ffff
    ensures x != At(addr) ==> Offset(addr, x) > 0 && Offset(addr + 1, x) == Offset(addr, x) - 1
  {
  }

  lemma OffsetOf(addr: nat, i: nat)
    requires i < 0x100_0000
    ensures Offset(addr, At(addr + i)) == i
  {
  }

  /** A write no longer than the device clears in each addressed cell exactly the zero bits of its byte. */
  lemma {:induction false} LinearCells(dev: Cells, addr: nat, data: seq<u8>, x: nat)
    requires |data| <= 0x100_0000 && x < 0x100_0000
    ensures var o := Offset(addr, x);
            LinearWrite(dev, addr, data)[x] == if o < |data| then Cleared(dev[x], data[o]) else dev[x]
    decreases |data|
  {
    hide At, Offset, Cleared;
    if data != [] {
      OffsetStep(addr, x);
      LinearCells(dev[At(addr) := Cleared(dev[At(addr)], data[0])], addr + 1, data[1..], x);
    }
  }

  /** `flash_read_data` of `n` bytes. */
  function Read(dev: Cells, addr: nat, n: nat): (r: seq<u8>)
    ensures |r| == n && forall i | 0 <= i < n :: r[i] == dev[At(addr + i)]
  {
    seq(n, i requires 0 <= i < n => dev[At(addr + i)])
  }

  /** The buffer reads back exactly when no bit it sets was cleared before. */
  lemma ReadsBackExactly(dev: Cells, addr: nat, data: seq<u8>)
    requires |data| <= 0x100_0000
    ensures Read(LinearWrite(dev, addr, data), addr, |data|) == data <==>
            forall i | 0 <= i < |data| :: Cleared(Read(dev, addr, |data|)[i], data[i]) == data[i]
  {
    hide At, Cleared, LinearWrite;
    var was, back := Read(dev, addr, |data|), Read(LinearWrite(dev, addr, data), addr, |data|);
    forall i | 0 <= i < |data|
      ensures back[i] == Cleared(was[i], data[i])
    {
      OffsetOf(addr, i);
      LinearCells(dev, addr, data, At(addr + i));
    }
  }

  /** Writing an erased range with either function and reading it returns the buffer. */
  lemma ErasedReadsBack(dev: Cells, cmd: u8, addr: nat, data: seq<u8>)
    requires |data| <= 0x100_0000
    requires forall i | 0 <= i < |data| :: Read(dev, addr, |data|)[i] == 0xff
    ensures Read(Run(dev, Split(cmd, addr, data)), addr, |data|) == data
  {
    SplitIsLinear(dev, cmd, addr, data);
    forall i | 0 <= i < |data|
      ensures Cleared(Read(dev, addr, |data|)[i], data[i]) == data[i]
    {
      ErasedTakes(data[i]);
    }
    ReadsBackExactly(dev, addr, data);
  }

  lemma ErasedTakes(b: u8)
    ensures Cleared(0xff, b) == b
  {
    hide And;
    Pow2Values();
    AndLowMask(b, 8);
  }
}

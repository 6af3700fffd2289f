/**
 The control endpoint of `application/usbstd/usb.c`: setup and data interrupts, the dispatch of
 `usb_handle_request`, the descriptor clamps and the packets of `usb_send_response`.
*/
module UsbControl {
  import opened Bits
  import opened Options

  type Bytes = s: seq<u8> | |s| < 0x1_0000 witness []

  /** The eight bytes of a setup packet. */
  datatype Request = Request(kind: u8, code: u8, value: u16, index: u16, length: u16)
  {
    function ValueLow(): u8 { value % 0x100 }
    function ValueHigh(): u8 { value / 0x100 }
    function IndexLow(): u8 { index % 0x100 }
  }

  /** The Microsoft OS feature descriptors of a build with `MS_OS_DESCRIPTOR_ENABLE`. */
  datatype MsOs = MsOs(compatId: Bytes, feature: Bytes)

  /** The descriptor tables of one build; `hid` and `report` by interface number. */
  datatype Tables = Tables(device: Bytes, configuration: Bytes, strings: map<u8, Bytes>,
                           hid: map<u8, Bytes>, report: map<u8, Bytes>, msOs: Option<MsOs>)

  const REQ_GetDescriptor: u8 := 6
  const MS_VENDORCODE: u8 := 0x54

  // Finding the descriptor

  /** The switch of `usb_prepare_desc_data`: device, configuration, string. */
  function Standard(t: Tables, valueHigh: u8, valueLow: u8): Option<Bytes> {
    match valueHigh
    case 1 => Some(t.device)
    case 2 => Some(t.configuration)
    case 3 => if valueLow in t.strings then Some(t.strings[valueLow]) else None
    case _ => None
  }

  /** `Ignored` leaves the response alone, `Refused` does so and stalls. */
  datatype Answer = Found(desc: Bytes) | Ignored | Refused

  /** The switch of `usb_handle_std_intf_req`: HID, report, physical and any other descriptor. */
  function OnInterface(t: Tables, valueHigh: u8, indexLow: u8): Answer {
    match valueHigh
    case 0x21 => if indexLow in t.hid then Found(t.hid[indexLow]) else Ignored
    case 0x22 => if indexLow in t.report then Found(t.report[indexLow]) else Refused
    case _ => Ignored
  }

  function OnVendor(m: MsOs, indexLow: u8): Answer {
    match indexLow
    case 4 => Found(m.compatId)
    case 5 => Found(m.feature)
    case _ => Refused
  }

  /** Where `usb_handle_request` sends a request; `Outside` are the class, endpoint and set-interface handlers. */
  datatype Handler = Device | Interface | Vendor | Silent | Outside | Unknown

  function HandlerOf(t: Tables, r: Request): Handler {
    if r.kind == 0x80 then if r.code == REQ_GetDescriptor then Device else Silent
    else if r.kind == 0x81 then if r.code == REQ_GetDescriptor then Interface else Outside
    else if (r.kind == 0xc0 || r.kind == 0xc1) && t.msOs.Some? then
      if r.code == MS_VENDORCODE then Vendor else Silent
    else if r.kind in {0x01, 0x21, 0x22, 0xa1, 0xa2} then Outside
    else Unknown
  }

  /** What the handlers for interfaces and for vendor requests find. */
  function AnswerOf(t: Tables, r: Request): Answer
    requires HandlerOf(t, r).Interface? || HandlerOf(t, r).Vendor?
  {
    if HandlerOf(t, r).Interface? then OnInterface(t, r.ValueHigh(), r.IndexLow())
    else OnVendor(t.msOs.value, r.IndexLow())
  }

  /** What an outside handler puts in the endpoint, and whether it stalls; none of them touches the response. */
  datatype Effect = Effect(written: seq<u8>, stalls: bool)

  // The steps

  /** One view of the endpoint: what is still to send, and the packet of the last interrupt. */
  datatype State = State(request: Request, pending: seq<u8>, packet: seq<u8>, stall: bool)
  {
    /** A stalled packet never leaves. */
    function Received(): seq<u8> { if stall then [] else packet }
  }

  function Min(a: nat, b: nat): (m: nat)
    ensures m <= a && m <= b && (m == a || m == b)
  {
    if a < b then a else b
  }

  function Clamped(d: seq<u8>, length: nat): seq<u8> { d[..Min(|d|, length)] }

  /** `usb_send_response` */
  function Sent(s: State): State {
    var n := Min(|s.pending|, 8);
    s.(packet := s.pending[..n], pending := s.pending[n..])
  }

  /** `usb_prepare_desc_data` */
  function Prepared(t: Tables, s: State): State {
    match Standard(t, s.request.ValueHigh(), s.request.ValueLow())
    case Some(d) => s.(pending := Clamped(d, s.request.length))
    case None => s.(pending := [], stall := true)
  }

  /** The other two handlers: the old response stays where no branch sets a new one. */
  function Answered(s: State, a: Answer): State {
    match a
    case Found(d) => s.(pending := Clamped(d, s.request.length))
    case Ignored => s.(pending := Clamped(s.pending, s.request.length))
    case Refused => s.(pending := Clamped(s.pending, s.request.length), stall := true)
  }

  /** A setup interrupt. */
  function SetupStep(t: Tables, s: State, r: Request, outside: Effect): State {
    var begun := State(r, s.pending, [], false);
    match HandlerOf(t, r)
    case Device => Sent(Prepared(t, begun))
    case Interface => Sent(Answered(begun, AnswerOf(t, r)))
    case Vendor => Sent(Answered(begun, AnswerOf(t, r)))
    case Silent => begun
    case Unknown => begun.(stall := true)
    case Outside => begun.(packet := outside.written, stall := outside.stalls)
  }

  /** A data interrupt goes on with the request of the last setup. */
  function DataStep(t: Tables, s: State, outside: Effect): State {
    var begun := s.(packet := [], stall := false);
    match HandlerOf(t, s.request)
    case Silent => begun
    case Unknown => begun.(stall := true)
    case Outside => begun.(packet := outside.written, stall := outside.stalls)
    case _ => Sent(begun)
  }

  /** The globals of `usb.c`. */
  class ControlEndpoint {
    const tables: Tables
    var request: Request
    /** The bytes `g_response` points at. */
    var response: seq<u8>
    var responseLen: u16
    var stall: bool
    var fifo: seq<u8>

    ghost predicate Valid()
      reads this
    {
      responseLen <= |response|
    }

    ghost function View(): State
      requires Valid()
      reads this
    {
      State(request, response[..responseLen], fifo, stall)
    }

    constructor (tables: Tables)
      ensures Valid() && View().pending == [] && this.tables == tables
    {
      this.tables := tables;
      request := Request(0, 0, 0, 0, 0);
      response, responseLen, stall, fifo := [], 0, false, [];
    }

    method SendResponse()
      requires Valid()
      modifies this
      ensures Valid() && View() == Sent(old(View()))
    {
      ghost var len := responseLen;
      var n: int := if responseLen < 8 then responseLen else 8;
      ghost var all, whole := n, response;
      responseLen := responseLen - n;
      fifo := [];
      while n > 0
        invariant 0 <= n <= all && responseLen == len - all
        invariant response == whole[all - n..] && fifo == whole[..all - n]
        invariant request == old(request) && stall == old(stall)
      {
        OneByte(whole, all - n);
        fifo := fifo + [response[0]];
        response := response[1..];
        n := n - 1;
      }
      TakeThenDrop(whole, all, len);
    }

    /** The clamp that ends all handlers. */
    method ClampLength()
      requires Valid()
      modifies this`responseLen
      ensures Valid() && View() == old(View()).(pending := Clamped(old(View()).pending, request.length))
    {
      ghost var pending := response[..responseLen];
      if request.length < responseLen {
        responseLen := request.length;
      }
      assert response[..responseLen] == Clamped(pending, request.length);
    }

    method PrepareDescData()
      requires Valid()
      modifies this
      ensures Valid() && View() == Prepared(tables, old(View()))
    {
      response, responseLen := [], 0;
      match Standard(tables, request.ValueHigh(), request.ValueLow()) {
      case Some(d) =>
        response, responseLen := d, |d|;
        assert response[..responseLen] == d;
      case None =>
        stall := true;
      }
      ClampLength();
    }

    /** `usb_handle_std_intf_req` and the vendor branch, which do not clear the response first. */
    method PrepareAnswer()
      requires Valid() && (HandlerOf(tables, request).Interface? || HandlerOf(tables, request).Vendor?)
      modifies this
      ensures Valid() && View() == Answered(old(View()), AnswerOf(tables, old(request)))
    {
      match AnswerOf(tables, request) {
      case Found(d) =>
        response, responseLen := d, |d|;
        assert response[..responseLen] == d;
      case Ignored =>
      case Refused =>
        stall := true;
      }
      ClampLength();
    }

    /** `usb_handle_request`; `outside` is the effect of the handlers that are not modelled. */
    method HandleRequest(setup: bool, outside: Effect)
      requires Valid() && !stall
      modifies this
      ensures Valid()
      ensures View() == if setup then SetupStep(tables, old(View()), old(request), outside)
                        else DataStep(tables, old(View()), outside)
    {
      fifo := [];
      hide Sent, Prepared, Answered, HandlerOf, AnswerOf;
      match HandlerOf(tables, request) {
      case Device =>
        if setup {
          PrepareDescData();
        }
        SendResponse();
      case Interface =>
        if setup {
          PrepareAnswer();
        }
        SendResponse();
      case Vendor =>
        if setup {
          PrepareAnswer();
        }
        SendResponse();
      case Silent =>
      case Outside =>
        fifo, stall := outside.written, outside.stalls;
      case Unknown =>
        stall := true;
      }
    }

    /** `usb_handle_ctl_ep_setup` */
    method SetupInterrupt(r: Request, outside: Effect)
      requires Valid()
      modifies this
      ensures Valid() && View() == SetupStep(tables, old(View()), r, outside)
    {
      request := r;
      stall := false;
      HandleRequest(true, outside);
    }

    /** `usb_handle_ctl_ep_data` */
    method DataInterrupt(outside: Effect)
      requires Valid()
      modifies this
      ensures Valid() && View() == DataStep(tables, old(View()), outside)
    {
      stall := false;
      HandleRequest(false, outside);
    }
  }

  lemma OneByte(whole: seq<u8>, j: nat)
    requires j < |whole|
    ensures whole[j..][0] == whole[j] && whole[j..][1..] == whole[j + 1..]
    ensures whole[..j] + [whole[j]] == whole[..j + 1]
  {
  }

  lemma TakeThenDrop(whole: seq<u8>, n: nat, len: nat)
    requires n <= len <= |whole|
    ensures whole[n..][..len - n] == whole[..len][n..] && whole[..n] == whole[..len][..n]
  {
  }

  // Whole transfers

  /** The state after `k` data interrupts. */
  function After(t: Tables, s: State, k: nat, outside: Effect): State {
    if k == 0 then s else DataStep(t, After(t, s, k - 1, outside), outside)
  }

  /** What the host receives from a setup and the `k` data interrupts that follow it. */
  function Packets(t: Tables, s: State, k: nat, outside: Effect): (r: seq<seq<u8>>)
    ensures |r| == k + 1
  {
    if k == 0 then [s.Received()] else Packets(t, s, k - 1, outside) + [After(t, s, k, outside).Received()]
  }

  function Joined(packets: seq<seq<u8>>): seq<u8> {
    if packets == [] then [] else Joined(packets[..|packets| - 1]) + packets[|packets| - 1]
  }

  /** The state right after the setup of a descriptor request whose answer is `d`. */
  ghost predicate Answering(t: Tables, s: State, d: seq<u8>) {
    && (HandlerOf(t, s.request).Device? || HandlerOf(t, s.request).Interface? || HandlerOf(t, s.request).Vendor?)
    && !s.stall && s.packet + s.pending == d && |s.packet| == Min(|d|, 8)
  }

  /** The byte at which packet `k` starts. */
  function Mark(d: seq<u8>, k: nat): (m: nat)
    ensures m <= |d|
  {
    Min(8 * k, |d|)
  }

  lemma MarkStep(d: seq<u8>, k: nat)
    ensures Mark(d, k + 1) == Mark(d, k) + Min(|d| - Mark(d, k), 8)
  {
  }

  lemma SliceOfRest(d: seq<u8>, from: nat, n: nat)
    requires from + n <= |d|
    ensures d[from..][..n] == d[from..from + n] && d[from..][n..] == d[from + n..]
  {
  }

  lemma SentAt(s: State, d: seq<u8>, k: nat)
    requires s.pending == d[Mark(d, k)..]
    ensures Mark(d, k) <= Mark(d, k + 1)
    ensures Sent(s).packet == d[Mark(d, k)..Mark(d, k + 1)] && Sent(s).pending == d[Mark(d, k + 1)..]
    ensures Sent(s).request == s.request && Sent(s).stall == s.stall
  {
    MarkStep(d, k);
    hide Mark, Min;
    SliceOfRest(d, Mark(d, k), Min(|d| - Mark(d, k), 8));
  }

  /** After `k` data interrupts the endpoint stands at byte `8k` of the answer. */
  lemma {:induction false} AfterData(t: Tables, s: State, d: seq<u8>, k: nat, outside: Effect)
    requires Answering(t, s, d)
    ensures Mark(d, k) <= Mark(d, k + 1)
    ensures var a := After(t, s, k, outside);
            && a.request == s.request && !a.stall
            && a.Received() == a.packet == d[Mark(d, k)..Mark(d, k + 1)] && a.pending == d[Mark(d, k + 1)..]
  {
    hide Mark, Sent, After, Answering, Min;
    AnswerGoesOn(t, s, d, k, outside);
    if k > 0 {
      AfterData(t, s, d, k - 1, outside);
      SentAt(After(t, s, k - 1, outside).(packet := [], stall := false), d, k);
    }
  }

  /** The first packet is out at the setup; a data interrupt for the same request sends the next one. */
  lemma AnswerGoesOn(t: Tables, s: State, d: seq<u8>, k: nat, outside: Effect)
    requires Answering(t, s, d)
    ensures Mark(d, 0) <= Mark(d, 1) && s.packet == d[Mark(d, 0)..Mark(d, 1)] && s.pending == d[Mark(d, 1)..]
    ensures !s.stall && After(t, s, 0, outside) == s
    ensures k > 0 && After(t, s, k - 1, outside).request == s.request ==>
              After(t, s, k, outside) == Sent(After(t, s, k - 1, outside).(packet := [], stall := false))
  {
    hide HandlerOf, Sent;
    assert |d| == |s.packet| + |s.pending|;
  }

  lemma JoinStep(packets: seq<seq<u8>>, p: seq<u8>, d: seq<u8>, a: nat, b: nat)
    requires a <= b <= |d| && Joined(packets) == d[..a] && p == d[a..b]
    ensures Joined(packets + [p]) == d[..b]
  {
    assert (packets + [p])[..|packets|] == packets;
  }

  lemma PacketsLast(t: Tables, s: State, k: nat, outside: Effect)
    ensures Packets(t, s, k, outside) ==
            (if k == 0 then [] else Packets(t, s, k - 1, outside)) + [After(t, s, k, outside).Received()]
  {
    hide DataStep, State.Received;
    assert After(t, s, 0, outside) == s;
  }

  lemma {:induction false} PacketIs(t: Tables, s: State, k: nat, outside: Effect, i: nat)
    requires i <= k
    ensures Packets(t, s, k, outside)[i] == After(t, s, i, outside).Received()
  {
    PacketsLast(t, s, k, outside);
    hide *;
    if i < k {
      PacketIs(t, s, k - 1, outside, i);
    }
  }

  /** Packet `i` is what lies between two multiples of eight, as far as the answer goes. */
  lemma PacketSize(t: Tables, s: State, d: seq<u8>, k: nat, outside: Effect, i: nat)
    requires Answering(t, s, d) && i <= k
    ensures |Packets(t, s, k, outside)[i]| == Mark(d, i + 1) - Mark(d, i)
  {
    hide After, Mark, Packets, Answering;
    PacketIs(t, s, k, outside, i);
    AfterData(t, s, d, i, outside);
  }

  /** The packets together are the first `8 (k + 1)` bytes of the answer. */
  lemma {:induction false} PacketsOfAnswer(t: Tables, s: State, d: seq<u8>, k: nat, outside: Effect)
    requires Answering(t, s, d)
    ensures Joined(Packets(t, s, k, outside)) == d[..Mark(d, k + 1)]
  {
    hide *;
    PacketsLast(t, s, k, outside);
    AfterData(t, s, d, k, outside);
    NothingJoined(d);
    if k > 0 {
      PacketsOfAnswer(t, s, d, k - 1, outside);
    }
    JoinStep(if k == 0 then [] else Packets(t, s, k - 1, outside), After(t, s, k, outside).Received(),
             d, Mark(d, k), Mark(d, k + 1));
  }

  lemma NothingJoined(d: seq<u8>)
    ensures Mark(d, 0) == 0 && Joined([]) == d[..0]
  {
  }

  lemma MarkGap(d: seq<u8>, i: nat)
    ensures Mark(d, i + 1) - Mark(d, i) <= 8
    ensures Mark(d, i + 1) - Mark(d, i) < 8 <==> |d| < 8 * (i + 1)
  {
  }

  /**
   The host gets the first `length` bytes of `d`, eight at a time, and the first short packet, empty where
   the number of bytes is a multiple of eight, ends the transfer.
  */
  ghost predicate Arrives(t: Tables, first: State, d: seq<u8>, length: nat, k: nat, outside: Effect) {
    var packets, total := Packets(t, first, k, outside), Min(|d|, length);
    && Joined(packets) == d[..Min(8 * (k + 1), total)]
    && forall i | 0 <= i <= k :: |packets[i]| <= 8 && (|packets[i]| < 8 <==> total < 8 * (i + 1))
  }

  lemma AnswerArrives(t: Tables, first: State, d: seq<u8>, length: nat, k: nat, outside: Effect)
    requires Answering(t, first, Clamped(d, length))
    ensures Arrives(t, first, d, length, k, outside)
  {
    var answer := Clamped(d, length);
    assert |answer| == Min(|d|, length);
    PacketsOfAnswer(t, first, answer, k, outside);
    assert answer[..Mark(answer, k + 1)] == d[..Min(8 * (k + 1), |answer|)];
    hide After, Mark, Packets, Answering, Joined, Clamped;
    forall i | 0 <= i <= k
      ensures |Packets(t, first, k, outside)[i]| <= 8
      ensures |Packets(t, first, k, outside)[i]| < 8 <==> |answer| < 8 * (i + 1)
    {
      PacketSize(t, first, answer, k, outside, i);
      MarkGap(answer, i);
    }
  }

  /**
   GET_DESCRIPTOR to the device (sections 8.5.3 and 9.4.3 of the USB 2.0 specification): a descriptor it has
   arrives as asked for; one it does not have is stalled with nothing left to send.
  */
  lemma DescriptorTransfer(t: Tables, s: State, r: Request, k: nat, outside: Effect)
    requires HandlerOf(t, r).Device?
    ensures var first := SetupStep(t, s, r, outside);
            match Standard(t, r.ValueHigh(), r.ValueLow())
            case Some(d) => !first.stall && Arrives(t, first, d, r.length, k, outside)
            case None => first.stall && first.packet == [] && first.pending == []
  {
    var first := SetupStep(t, s, r, outside);
    hide Standard, Arrives, HandlerOf;
    match Standard(t, r.ValueHigh(), r.ValueLow())
    case Some(d) =>
      SentAnswers(t, State(r, Clamped(d, r.length), [], false));
      AnswerArrives(t, first, d, r.length, k, outside);
    case None =>
  }

  /** Sending the first packet leaves the endpoint answering. */
  lemma SentAnswers(t: Tables, s: State)
    requires HandlerOf(t, s.request).Device? || HandlerOf(t, s.request).Interface? || HandlerOf(t, s.request).Vendor?
    requires !s.stall
    ensures Answering(t, Sent(s), s.pending)
  {
    hide HandlerOf;
  }

  /** The same for an interface descriptor and for an OS feature descriptor that the device has. */
  lemma AnswerTransfer(t: Tables, s: State, r: Request, k: nat, outside: Effect)
    requires (HandlerOf(t, r).Interface? || HandlerOf(t, r).Vendor?) && AnswerOf(t, r).Found?
    ensures var first := SetupStep(t, s, r, outside);
            !first.stall && Arrives(t, first, AnswerOf(t, r).desc, r.length, k, outside)
  {
    var d := AnswerOf(t, r).desc;
    SentAnswers(t, State(r, Clamped(d, r.length), [], false));
    hide AnswerOf, Arrives, HandlerOf;
    AnswerArrives(t, SetupStep(t, s, r, outside), d, r.length, k, outside);
  }

  /**
   Without an answer the host receives nothing exactly when the request is stalled, when the transfer before
   had nothing left, or when no byte is asked for.
  */
  lemma NoAnswerExactly(t: Tables, s: State, r: Request, outside: Effect)
    requires (HandlerOf(t, r).Interface? || HandlerOf(t, r).Vendor?) && !AnswerOf(t, r).Found?
    ensures SetupStep(t, s, r, outside).Received() == [] <==>
            AnswerOf(t, r).Refused? || s.pending == [] || r.length == 0
  {
    hide HandlerOf, AnswerOf;
  }

  /**
   In every build: a device descriptor broken off after its first packet goes on, acknowledged, as the answer
   to a request for the physical descriptor of an interface.
  */
  lemma StaleAnswer(t: Tables, s: State, first: Request, second: Request, outside: Effect)
    requires first.kind == 0x80 && first.code == REQ_GetDescriptor && first.ValueHigh() == 1
    requires second.kind == 0x81 && second.code == REQ_GetDescriptor && second.ValueHigh() == 0x23
    requires |t.device| >= 16 && first.length >= 16 && second.length >= 8
    ensures var s1 := SetupStep(t, s, first, outside);
            SetupStep(t, s1, second, outside).Received() == t.device[8..16]
  {
    hide Request.ValueHigh, Request.ValueLow, Request.IndexLow;
    var d, n := t.device, Min(|t.device|, first.length);
    assert SetupStep(t, s, first, outside).pending == d[..n][8..];
    SecondPacket(d, n, Min(n - 8, second.length));
  }

  lemma SecondPacket(d: seq<u8>, n: nat, m: nat)
    requires 16 <= n <= |d| && 8 <= m <= n - 8
    ensures d[..n][8..][..m][..8] == d[8..16]
  {
    assert d[..n][8..][..m] == d[8..8 + m];
  }

  // The requests by their bytes

  /** The answer `d` arrives, clamped to the length asked for, and without a stall. */
  ghost predicate Delivered(t: Tables, s: State, r: Request, k: nat, outside: Effect, d: seq<u8>) {
    var first := SetupStep(t, s, r, outside);
    !first.stall && Arrives(t, first, d, r.length, k, outside)
  }

  /** GET_DESCRIPTOR to the device: type 1, 2 or 3 in the high byte of the value, the string in its low byte. */
  lemma DescriptorByType(t: Tables, s: State, r: Request, k: nat, outside: Effect)
    requires r.kind == 0x80 && r.code == 6
    ensures var kind, which := r.value / 0x100, r.value % 0x100;
            if kind == 1 then Delivered(t, s, r, k, outside, t.device)
            else if kind == 2 then Delivered(t, s, r, k, outside, t.configuration)
            else if kind == 3 && which in t.strings then Delivered(t, s, r, k, outside, t.strings[which])
            else
              var first := SetupStep(t, s, r, outside);
              first.stall && first.packet == [] && first.pending == []
  {
    var kind, which := r.value / 0x100, r.value % 0x100;
    StandardByType(t, r);
    hide *;
    if kind == 1 {
      DescriptorFound(t, s, r, k, outside, t.device);
    } else if kind == 2 {
      DescriptorFound(t, s, r, k, outside, t.configuration);
    } else if kind == 3 && which in t.strings {
      DescriptorFound(t, s, r, k, outside, t.strings[which]);
    } else {
      DescriptorTransfer(t, s, r, k, outside);
    }
  }

  lemma DescriptorFound(t: Tables, s: State, r: Request, k: nat, outside: Effect, d: Bytes)
    requires HandlerOf(t, r).Device? && Standard(t, r.ValueHigh(), r.ValueLow()) == Some(d)
    ensures Delivered(t, s, r, k, outside, d)
  {
    hide SetupStep, Arrives, Standard, HandlerOf;
    DescriptorTransfer(t, s, r, k, outside);
  }

  lemma StandardByType(t: Tables, r: Request)
    requires r.kind == 0x80 && r.code == 6
    ensures HandlerOf(t, r).Device?
    ensures var kind, which := r.value / 0x100, r.value % 0x100;
            Standard(t, r.ValueHigh(), r.ValueLow()) ==
            if kind == 1 then Some(t.device)
            else if kind == 2 then Some(t.configuration)
            else if kind == 3 && which in t.strings then Some(t.strings[which])
            else None
  {
  }

  /**
   The same to an interface, which the low byte of the index names: 0x21 is its HID descriptor, 0x22 its report
   descriptor, stalled where it has none; anything else goes on with what the transfer before left over.
  */
  lemma InterfaceByType(t: Tables, s: State, r: Request, k: nat, outside: Effect)
    requires r.kind == 0x81 && r.code == 6
    ensures var kind, which := r.value / 0x100, r.index % 0x100;
            if kind == 0x21 && which in t.hid then Delivered(t, s, r, k, outside, t.hid[which])
            else if kind == 0x22 && which in t.report then Delivered(t, s, r, k, outside, t.report[which])
            else
              var first := SetupStep(t, s, r, outside);
              && (first.stall <==> kind == 0x22)
              && (!first.stall ==> Arrives(t, first, s.pending, r.length, k, outside))
  {
    if AnswerOf(t, r).Found? {
      AnswerTransfer(t, s, r, k, outside);
    } else if AnswerOf(t, r).Ignored? {
      SentAnswers(t, State(r, Clamped(s.pending, r.length), [], false));
      AnswerArrives(t, SetupStep(t, s, r, outside), s.pending, r.length, k, outside);
    }
    hide Arrives;
  }

  /** Vendor requests of a build with the OS feature descriptors: indices 4 and 5, else a stall. */
  lemma FeatureByIndex(t: Tables, s: State, r: Request, k: nat, outside: Effect)
    requires r.kind in {0xc0, 0xc1} && r.code == 0x54 && t.msOs.Some?
    ensures var which := r.index % 0x100;
            if which == 4 then Delivered(t, s, r, k, outside, t.msOs.value.compatId)
            else if which == 5 then Delivered(t, s, r, k, outside, t.msOs.value.feature)
            else SetupStep(t, s, r, outside).stall
  {
    if AnswerOf(t, r).Found? {
      AnswerTransfer(t, s, r, k, outside);
    }
    hide Arrives;
  }

  /** Of the other requests to the device and the vendor nothing comes back; request types of no handler are stalled. */
  lemma OtherRequests(t: Tables, s: State, r: Request, outside: Effect)
    ensures var first := SetupStep(t, s, r, outside);
            && (r.kind == 0x80 && r.code != 6 ==> !first.stall && first.packet == [])
            && (r.kind in {0xc0, 0xc1} && t.msOs.Some? && r.code != 0x54 ==> !first.stall && first.packet == [])
            && (r.kind !in {0x80, 0x81, 0x01, 0x21, 0x22, 0xa1, 0xa2, 0xc0, 0xc1} ==> first.stall && first.packet == [])
            && (r.kind in {0xc0, 0xc1} && t.msOs.None? ==> first.stall && first.packet == [])
  {
  }

  /** A request for nine bytes of configuration brings the first nine bytes of the configuration descriptor. */
  lemma ConfigurationHeader(t: Tables, s: State, outside: Effect)
    requires |t.configuration| >= 9
    ensures var first := SetupStep(t, s, Request(0x80, 6, 0x0200, 0, 9), outside);
            first.Received() + DataStep(t, first, outside).Received() == t.configuration[..9]
  {
    var r := Request(0x80, 6, 0x0200, 0, 9);
    var first := SetupStep(t, s, r, outside);
    assert r.value / 0x100 == 2;
    assert first.pending == t.configuration[..9][8..] && first.packet == t.configuration[..9][..8];
    assert DataStep(t, first, outside).packet == first.pending;
  }
}

/**
 The ADPCM packet ring of `tl_audio.c`: the Telink and Google builds overwrite the oldest
 packet, the HID build does not encode while four packets wait. A reader first asks for the
 packet and confirms it later.
*/
module MicPackets {
  import opened Bits
  import opened Options
  import R = DropOldest

  type Packet = seq<u8>

  class PacketRing {
    const enc: array<Packet>
    var wptr: u8
    var rptr: u8

    ghost function View(): R.Ring<Packet>
      reads this, enc
    {
      R.Ring(enc[..], wptr, rptr, true)
    }

    ghost predicate Valid()
      reads this, enc
    {
      R.Valid(View())
    }

    constructor ()
      ensures Valid() && R.Live(View()) == [] && fresh(enc)
    {
      enc := new Packet[4](_ => []);
      wptr, rptr := 0, 0;
    }

    /** `proc_mic_encoder` of the Telink and Google builds, with a packet ready. */
    method Encode(packet: Packet)
      requires Valid()
      modifies this, enc
      ensures View() == R.Push(old(View()), packet)
      ensures Valid() && R.Live(View()) == R.Appended(old(R.Live(View())), packet)
    {
      assert enc.Length == 4;
      R.WidePush(View(), packet);
      R.PushRefines(View(), packet);
      hide R.Push, R.Low2, R.Low3, R.Valid, R.Live;
      enc[R.Low2(wptr)] := packet;
      wptr := Wrap8(wptr + 1);
      var pkts := R.Low3(wptr - rptr);
      if pkts > R.SLOTS {
        rptr := Wrap8(rptr + 1);
      }
    }

    /** `proc_mic_encoder` of the HID build: no packet is made while the ring is full. */
    method EncodeIfRoom(packet: Packet) returns (encoded: bool)
      requires Valid()
      modifies this, enc
      ensures Valid() && (encoded <==> |old(R.Live(View()))| < R.SLOTS)
      ensures R.Live(View()) == if encoded then old(R.Live(View())) + [packet] else old(R.Live(View()))
    {
      assert enc.Length == 4;
      R.MaskedCount(View());
      if |R.Live(View())| < R.SLOTS {
        R.RoomPush(View(), packet);
      }
      hide R.Push, R.Low2, R.Low3, R.Valid, R.Live;
      if R.Low3(wptr - rptr) < R.SLOTS {
        enc[R.Low2(wptr)] := packet;
        wptr := Wrap8(wptr + 1);
        encoded := true;
      } else {
        encoded := false;
      }
    }

    /** `mic_encoder_data_buffer` */
    method DataBuffer() returns (p: Option<Packet>)
      requires Valid()
      ensures p == if R.Live(View()) == [] then None else Some(R.Live(View())[0])
    {
      R.EmptyWhenEqual(View());
      R.CountIsLength(View());
      if wptr == rptr {
        return None;
      }
      R.HeadSlot(View());
      p := Some(enc[R.Low2(rptr)]);
    }

    /** `mic_encoder_data_read_ok` */
    method ReadOk()
      requires Valid() && R.Live(View()) != []
      modifies this
      ensures View() == R.Pop(old(View()))
      ensures Valid() && R.Live(View()) == old(R.Live(View()))[1..]
    {
      R.CountIsLength(View());
      R.PopRefines(View());
      R.WidePop(View());
      rptr := Wrap8(rptr + 1);
    }
  }
}

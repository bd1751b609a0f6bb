/** The send buffer of `struct p4_sender` in kmod/sender.c. */
module SendBuffer {
  import opened Bytes
  import opened Packets

  /** `buf_emit` refuses a packet that writes outside the framebuffer. */
  predicate InBounds(p: Packet) {
    p.hdr.Data? ==> PktAddr(p.hdr) + PktLen(p.hdr) <= FB_SIZE
  }

  class Sender {
    const buf: array<u8>
    var bufLen: nat
    var bufPos: nat
    var enabled: bool
    var deviceOnline: bool
    var lastSentFlags: u8

    /** The packets encoded since the buffer was last reset. */
    ghost var packets: seq<Packet>

    constructor ()
      ensures Valid() && packets == [] && !enabled && !deviceOnline && lastSentFlags == 0
      ensures fresh(buf)
    {
      buf := new u8[SPI_BUF_SIZE];
      bufLen, bufPos, packets := 0, 0, [];
      enabled, deviceOnline, lastSentFlags := false, false, 0;
    }

    /** The buffer holds exactly the wire bytes of the packets, and never more than fits. */
    ghost predicate Valid()
      reads this, buf
    {
      && buf.Length == SPI_BUF_SIZE && bufPos <= bufLen <= SPI_BUF_SIZE
      && buf[..bufLen] == WireAll(packets)
    }

    /** `buf_is_empty` */
    predicate IsEmpty()
      reads this
    {
      bufPos >= bufLen
    }

    /** `buf_reset` */
    method Reset()
      requires Valid()
      modifies this`bufLen, this`bufPos, this`packets
      ensures Valid() && packets == [] && IsEmpty()
    {
      bufLen, bufPos, packets := 0, 0, [];
    }

    /** Could the buffer hold these packets? */
    ghost predicate Room(ps: seq<Packet>)
      reads this
    {
      enabled && deviceOnline && |WireAll(ps)| <= SPI_BUF_SIZE
    }

    /** `buf_emit`: append a whole packet or nothing. */
    method BufEmit(p: Packet) returns (ok: bool)
      requires Valid()
      modifies this`bufLen, this`packets, buf
      ensures Valid()
      ensures ok <==> InBounds(p) && Room(old(packets) + [p])
      ensures packets == if ok then old(packets) + [p] else old(packets)
    {
      WireAllSnoc(packets, p);
      var needed := |Wire(p)|;
      if p.hdr.Data? {
        var addr, len := PktAddr(p.hdr), PktLen(p.hdr);
        var end := addr + len;
        if end > FB_SIZE {
          return false;
        }
      }
      if !enabled || !deviceOnline {
        return false;
      }
      if bufLen + needed > SPI_BUF_SIZE {
        return false;
      }
      var wire := Wire(p);
      ghost var before := buf[..bufLen];
      forall i | 0 <= i < needed {
        buf[bufLen + i] := wire[i];
      }
      assert buf[..bufLen + needed] == before + wire;
      bufLen := bufLen + needed;
      packets := packets + [p];
      ok := true;
    }
  }
}

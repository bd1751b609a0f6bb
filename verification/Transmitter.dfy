/** The serial burst transmitter of fpga/tx.v and what a receiver on its wires makes of it. */
module Transmitter {
  import opened Bytes

  datatype Tx = Tx(bits: u8, sck: bool, ticks: nat, ack: bool, idle: bool)

  const RESET := Tx(0, false, 0, false, false)

  /** The data wire. */
  predicate Sdat(t: Tx) {
    t.bits >= 0x80
  }

  predicate Latches(t: Tx, transmit: bool) {
    t.ticks == 0 && transmit
  }

  /** One rising edge of the clock. */
  function Clock(t: Tx, transmit: bool, data: u8): Tx {
    var rising := t.ticks % 2 == 1;
    if t.ticks == 0 then
      if transmit then Tx(data, rising, 1, true, false) else Tx(0, rising, 0, false, true)
    else
      Tx(if rising then t.bits else t.bits * 2 % 0x100, rising, (t.ticks + 1) % 16, false, false)
  }

  // ---- The receiver ----

  /** A receiver that shifts one bit into an 8-bit register on each rising edge of `sck`. */
  datatype Rx = Rx(count: nat, acc: u8)

  /** The receiver's state when `sck` was and is so, and the byte it has completed, if any. */
  function Sample(r: Rx, was: bool, sck: bool, sdat: bool): (Rx, seq<u8>) {
    if was || !sck then (r, [])
    else
      var acc: u8 := (2 * r.acc + if sdat then 1 else 0) % 0x100;
      if r.count == 7 then (Rx(0, 0), [acc]) else (Rx(r.count + 1, acc), [])
  }

  /** The same after a clock edge of the transmitter. */
  function Listen(r: Rx, before: Tx, after: Tx): (Rx, seq<u8>) {
    Sample(r, before.sck, after.sck, Sdat(after))
  }

  /** `b` times two to the `j`. */
  function Scaled(b: u8, j: nat): nat {
    if j == 0 then b else 2 * Scaled(b, j - 1)
  }

  lemma ScaledByByte(b: u8, j: nat)
    requires j <= 8
    ensures j < 8 ==> Scaled(b, j) <= 128 * b
    ensures j == 8 ==> Scaled(b, j) == 256 * b
  {
    assert Scaled(b, 1) == 2 * b && Scaled(b, 2) == 4 * b && Scaled(b, 3) == 8 * b && Scaled(b, 4) == 16 * b;
    assert Scaled(b, 5) == 32 * b && Scaled(b, 6) == 64 * b && Scaled(b, 7) == 128 * b;
  }

  /** The bits of the shift register that the receiver has not seen. */
  function Unseen(t: Tx): nat {
    if t.ticks % 2 == 1 then t.bits else t.bits * 2 % 0x100
  }

  /**
   * The byte `cur` is on its way: what the receiver has of it, followed by what it has not seen, is
   * `cur` shifted by the number of bits sent. Between bytes the receiver waits for a first bit.
   */
  ghost predicate Sending(t: Tx, cur: u8, r: Rx) {
    && t.ticks < 16
    && (t.ack <==> t.ticks == 1)
    && r.count == t.ticks / 2
    && (t.ticks == 0 ==> r.acc == 0)
    && (t.ticks > 0 ==>
          && t.sck == (t.ticks % 2 == 0)
          && 256 * r.acc + Unseen(t) == Scaled(cur, t.ticks / 2))
  }

  lemma FallingEdgeSends(t: Tx, cur: u8, r: Rx, transmit: bool, data: u8)
    requires Sending(t, cur, r) && t.ticks > 0 && t.ticks % 2 == 0
    ensures var t' := Clock(t, transmit, data);
            Listen(r, t, t') == (r, []) && Sending(t', cur, r)
  {}

  /** One bit from the top of the shift register to the bottom of the receiver's. */
  lemma OneBit(cur: u8, j: nat, acc: u8, bits: u8)
    requires j < 8 && 256 * acc + bits == Scaled(cur, j)
    ensures var acc' := (2 * acc + if bits >= 0x80 then 1 else 0) % 0x100;
            if j == 7 then acc' == cur else 256 * acc' + bits * 2 % 0x100 == Scaled(cur, j + 1)
  {
    ScaledByByte(cur, j);
    ScaledByByte(cur, j + 1);
    assert acc <= 127;
    assert bits * 2 % 0x100 == if bits >= 0x80 then bits * 2 - 0x100 else bits * 2;
  }

  lemma RisingEdgeSends(t: Tx, cur: u8, r: Rx, transmit: bool, data: u8)
    requires Sending(t, cur, r) && t.ticks % 2 == 1
    ensures var t' := Clock(t, transmit, data);
            var (r', got) := Listen(r, t, t');
            Sending(t', cur, r') && got == if t.ticks == 15 then [cur] else []
  {
    OneBit(cur, t.ticks / 2, r.acc, t.bits);
  }

  /**
   * Every edge, whatever is offered: between bytes the transmitter starts the offered byte exactly
   * when told to, and acknowledges it; during a byte it ignores its inputs, and on the sixteenth
   * edge the receiver completes the very byte that was latched.
   */
  lemma EdgeSends(t: Tx, cur: u8, r: Rx, transmit: bool, data: u8)
    requires Sending(t, cur, r)
    ensures var t' := Clock(t, transmit, data);
            var (r', got) := Listen(r, t, t');
            && Sending(t', if t.ticks == 0 then data else cur, r')
            && got == (if t.ticks == 15 then [cur] else [])
            && (t'.ack <==> Latches(t, transmit))
            && (t'.idle <==> t.ticks == 0 && !transmit)
  {
    if t.ticks % 2 == 1 {
      RisingEdgeSends(t, cur, r, transmit, data);
    } else if t.ticks > 0 {
      FallingEdgeSends(t, cur, r, transmit, data);
    }
  }

  // ---- Whole runs ----

  datatype Offer = Offer(transmit: bool, data: u8)

  /** The bytes latched in a run. */
  function Latched(t: Tx, offers: seq<Offer>): seq<u8>
    decreases |offers|
  {
    if offers == [] then []
    else (if Latches(t, offers[0].transmit) then [offers[0].data] else [])
         + Latched(Clock(t, offers[0].transmit, offers[0].data), offers[1..])
  }

  /** The bytes received in a run. */
  function Received(t: Tx, r: Rx, offers: seq<Offer>): seq<u8>
    decreases |offers|
  {
    if offers == [] then []
    else
      var t' := Clock(t, offers[0].transmit, offers[0].data);
      var (r', got) := Listen(r, t, t');
      got + Received(t', r', offers[1..])
  }

  function Final(t: Tx, offers: seq<Offer>): Tx
    decreases |offers|
  {
    if offers == [] then t else Final(Clock(t, offers[0].transmit, offers[0].data), offers[1..])
  }

  /** The byte being sent, if any. */
  function InFlight(t: Tx, cur: u8): seq<u8> {
    if t.ticks == 0 then [] else [cur]
  }

  lemma {:induction false} ReceivesAll(t: Tx, cur: u8, r: Rx, offers: seq<Offer>)
    returns (last: u8)
    requires Sending(t, cur, r)
    ensures InFlight(t, cur) + Latched(t, offers)
         == Received(t, r, offers) + InFlight(Final(t, offers), last)
    decreases |offers|
  {
    last := cur;
    if offers != [] {
      var o := offers[0];
      var t' := Clock(t, o.transmit, o.data);
      var (r', got) := Listen(r, t, t');
      var cur' := if t.ticks == 0 then o.data else cur;
      EdgeSends(t, cur, r, o.transmit, o.data);
      last := ReceivesAll(t', cur', r', offers[1..]);
      var rest := Latched(t', offers[1..]);
      var end := InFlight(Final(t', offers[1..]), last);
      assert InFlight(t, cur) + Latched(t, offers) == got + (InFlight(t', cur') + rest);
      assert Received(t, r, offers) + end == got + (Received(t', r', offers[1..]) + end);
    }
  }

  /** From reset, the receiver gets exactly the bytes that were latched, whole and in order, but for one in flight. */
  lemma SerialIsFaithful(offers: seq<Offer>)
    ensures var sent := Latched(RESET, offers);
            var n := |sent| - if Final(RESET, offers).ticks == 0 then 0 else 1;
            n >= 0 && Received(RESET, Rx(0, 0), offers) == sent[..n]
  {
    var last := ReceivesAll(RESET, 0, Rx(0, 0), offers);
    assert InFlight(RESET, 0) + Latched(RESET, offers) == Latched(RESET, offers);
  }

  // ---- The registers themselves ----

  class Transmitter {
    var bits: u8
    var sck: bool
    var ticks: nat
    var ack: bool
    var idle: bool

    function Abs(): Tx
      reads this
    {
      Tx(bits, sck, ticks, ack, idle)
    }

    constructor ()
      ensures Abs() == RESET
    {
      bits, sck, ticks, ack, idle := 0, false, 0, false, false;
    }

    method Posedge(transmit: bool, data: u8)
      modifies this
      ensures Abs() == Clock(old(Abs()), transmit, data)
    {
      var wasTicks := ticks;
      ack, idle := false, false;
      sck := wasTicks % 2 == 1;
      ticks := (wasTicks + 1) % 16;
      if wasTicks == 0 {
        if transmit {
          ack := true;
          bits := data;
        } else {
          idle := true;
          bits := 0;
          ticks := 0;
        }
      } else if wasTicks % 2 == 0 {
        bits := bits * 2 % 0x100;
      }
    }
  }

  /** What was latched has been received, but for the byte on its way. */
  ghost predicate Underway(t: Tx, cur: u8, r: Rx, latched: seq<u8>, received: seq<u8>) {
    Sending(t, cur, r) && latched == received + InFlight(t, cur)
  }

  lemma EdgeUnderway(t: Tx, cur: u8, r: Rx, o: Offer, latched: seq<u8>, received: seq<u8>) returns (cur': u8)
    requires Underway(t, cur, r, latched, received)
    ensures var t' := Clock(t, o.transmit, o.data);
            var (r', got) := Listen(r, t, t');
            && t'.ack == Latches(t, o.transmit)
            && Underway(t', cur', r', latched + (if t'.ack then [o.data] else []), received + got)
  {
    EdgeSends(t, cur, r, o.transmit, o.data);
    cur' := if t.ticks == 0 then o.data else cur;
  }

  lemma LatchedNext(t: Tx, offers: seq<Offer>, n: nat, latched: seq<u8>)
    requires n < |offers|
    ensures latched + Latched(t, offers[n..])
         == latched + (if Latches(t, offers[n].transmit) then [offers[n].data] else [])
            + Latched(Clock(t, offers[n].transmit, offers[n].data), offers[n + 1..])
  {
    assert offers[n..][0] == offers[n] && offers[n..][1..] == offers[n + 1..];
  }

  /** One clock, with the receiver on the wires. */
  method ClockOnce(t: Transmitter, o: Offer, rx: Rx) returns (rx': Rx, got: seq<u8>)
    modifies t
    ensures t.Abs() == Clock(old(t.Abs()), o.transmit, o.data)
    ensures (rx', got) == Listen(rx, old(t.Abs()), t.Abs())
  {
    var sck := t.sck;
    t.Posedge(o.transmit, o.data);
    var (r, byte) := Sample(rx, sck, t.sck, t.bits >= 0x80);
    rx', got := r, byte;
  }

  /**
   * The registers clocked once for each offer, with a receiver on the wires that shifts a bit in
   * whenever `sck` rises. What is acknowledged is what the receiver gets, in order, but for one byte
   * while the transmitter is busy.
   */
  method Transmit(offers: seq<Offer>) returns (latched: seq<u8>, received: seq<u8>, busy: bool)
    ensures latched == Latched(RESET, offers)
    ensures received <= latched && |latched| == |received| + if busy then 1 else 0
  {
    var t := new Transmitter();
    var rx := Rx(0, 0);
    ghost var cur: u8 := 0;
    latched, received := [], [];
    for n := 0 to |offers|
      invariant Underway(t.Abs(), cur, rx, latched, received)
      invariant latched + Latched(t.Abs(), offers[n..]) == Latched(RESET, offers)
    {
      var o := offers[n];
      LatchedNext(t.Abs(), offers, n, latched);
      cur := EdgeUnderway(t.Abs(), cur, rx, o, latched, received);
      var got;
      rx, got := ClockOnce(t, o, rx);
      latched := latched + if t.ack then [o.data] else [];
      received := received + got;
    }
    busy := t.ticks != 0;
  }
}

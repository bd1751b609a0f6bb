/**
 * READY goes low while the display copies its frame buffer: "at most 2 bytes after going unready"
 * may still arrive. Over every run, time-outs included, only the byte under way does.
 */
module Throttle {
  import opened Bytes
  import opened Transmitter
  import opened PrivEye

  predicate NeverReady(es: seq<Env>) {
    forall i | 0 <= i < |es| :: !es[i].ready
  }

  /** How often the transmitter takes a byte, as its acknowledgement tells. */
  function Acknowledged(h: Hw, es: seq<Env>): nat
    decreases |es|
  {
    if es == [] then 0
    else
      var h' := Edge(h, es[0]);
      (if h'.tx.ack then 1 else 0) + Acknowledged(h', es[1..])
  }

  /** The bytes whose last bit reaches a receiver on the wires. */
  function Arrived(h: Hw, rx: Rx, es: seq<Env>): seq<u8>
    decreases |es|
  {
    if es == [] then []
    else
      var h' := Edge(h, es[0]);
      var (rx', got) := Listen(rx, h.tx, h'.tx);
      got + Arrived(h', rx', es[1..])
  }

  lemma UnreadyOperation(c: Ctl, i: OpIn)
    requires !i.ready
    ensures !OpNext(c, i).transmit
  {}

  /** Without READY, nothing more is offered to the transmitter. */
  lemma UnreadyEdge(h: Hw, e: Env)
    requires !e.ready
    ensures !Edge(h, e).ctl.transmit
  {
    UnreadyOperation(h.ctl, OpInputs(h, e));
  }

  lemma {:induction false} UnreadyOffersNothing(h: Hw, rx: Rx, cur: u8, es: seq<Env>)
    requires NeverReady(es) && Sending(h.tx, cur, rx) && !h.ctl.transmit
    ensures Acknowledged(h, es) == 0
    ensures Arrived(h, rx, es) <= if h.tx.ticks == 0 then [] else [cur]
    decreases |es|
  {
    if es != [] {
      var h' := Edge(h, es[0]);
      var (rx', got) := Listen(rx, h.tx, h'.tx);
      UnreadyEdge(h, es[0]);
      EdgeSends(h.tx, cur, rx, h.ctl.transmit, TxData(h));
      UnreadyOffersNothing(h', rx', if h.tx.ticks == 0 then TxData(h) else cur, es[1..]);
    }
  }

  /**
   * However long READY stays low: the transmitter takes at most one byte, and only if that byte was
   * on offer before; and at most one byte arrives, the one under way or the one taken.
   */
  lemma AtMostOneByte(h: Hw, rx: Rx, cur: u8, es: seq<Env>)
    requires NeverReady(es) && Sending(h.tx, cur, rx)
    ensures Acknowledged(h, es) == if es != [] && h.ctl.transmit && h.tx.ticks == 0 then 1 else 0
    ensures Arrived(h, rx, es) <= if h.tx.ticks != 0 then [cur] else if h.ctl.transmit then [TxData(h)] else []
  {
    if es != [] {
      var h' := Edge(h, es[0]);
      var (rx', got) := Listen(rx, h.tx, h'.tx);
      UnreadyEdge(h, es[0]);
      EdgeSends(h.tx, cur, rx, h.ctl.transmit, TxData(h));
      UnreadyOffersNothing(h', rx', if h.tx.ticks == 0 then TxData(h) else cur, es[1..]);
    }
  }
}

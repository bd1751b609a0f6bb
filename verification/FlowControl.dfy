/**
 * Why the host cannot overrun the FIFO: fpga/eye.v raises DEV_RDY when at least 4096 + 32 bytes are
 * free as far as the read clock knows, and the driver sends at most 4096 bytes after seeing it.
 */
module FlowControl {
  import opened Bytes
  import opened GrayCode
  import opened AsyncFifo

  // fpga/eye.v:28-30
  const FIFO_BITNESS := 14
  const BUF_MIN_SPACE := 4096
  const MIN_SPACE_MARGIN := 32

  /** Bytes that may be written but not yet counted when DEV_RDY is seen. */
  const UNSEEN := 30

  function EyeFifo(): Params {
    Params(FIFO_BITNESS, BUF_MIN_SPACE + MIN_SPACE_MARGIN)
  }

  lemma FifoSize()
    ensures Sane(EyeFifo()) && Depth(EyeFifo()) == 16384
  {
    assert Pow2(4) == 16;
    assert Pow2(8) == 256;
    assert Pow2(12) == 4096;
    assert Pow2(14) == 16384;
  }

  /** The FIFO and the bytes the host may still send before it must look at DEV_RDY again. */
  datatype Link = Link(run: Run, credit: nat)

  datatype Act =
    | Look            // the host sees DEV_RDY high
    | Tick(e: Event)  // clock edges; every write-clock edge is a byte of the host

  /** `DEV_RDY`: the FIFO accepts bytes (so it is not full) and has room. */
  predicate DevReady(f: Fifo) {
    !f.w.full && f.r.avail
  }

  /** The host's protocol, and the bound on what the read side has not counted yet. */
  ghost predicate Obeys(l: Link, act: Act)
    requires Sane(EyeFifo()) && Sized(EyeFifo(), l.run.f)
  {
    match act
    case Look => DevReady(l.run.f) && |l.run.accepted| <= l.run.seen.wa + UNSEEN
    case Tick(e) => Plausible(EyeFifo(), l.run.f, e) && (e.wEdge ==> l.credit > 0)
  }

  function Do(l: Link, act: Act): (l': Link)
    requires Sane(EyeFifo()) && Sized(EyeFifo(), l.run.f)
    ensures Sized(EyeFifo(), l'.run.f)
  {
    match act
    case Look => l.(credit := BUF_MIN_SPACE)
    case Tick(e) => Link(Track(EyeFifo(), l.run, e), if e.wEdge && l.credit > 0 then l.credit - 1 else l.credit)
  }

  /**
   * What is in the FIFO plus what may still come stays below its size, even as the write side sees
   * it: the read pointer it compares with is two strobes old.
   */
  ghost predicate Roomy(l: Link) {
    var wc := |l.run.accepted|;
    && Faithful(EyeFifo(), l.run)
    && !l.run.f.w.full
    && wc + l.credit <= |l.run.delivered| + 16381
    && wc <= l.run.seen.r1 + 16381
    && wc <= l.run.seen.r2 + 16382
  }

  lemma LookIsRoomy(l: Link)
    requires Roomy(l) && Obeys(l, Look)
    ensures Roomy(Do(l, Look))
  {
    FifoSize();
  }

  lemma TickIsRoomy(l: Link, e: Event)
    requires Roomy(l) && Obeys(l, Tick(e))
    ensures Roomy(Do(l, Tick(e)))
  {
    var p := EyeFifo();
    FifoSize();
    StepIsFaithful(p, l.run, e);
    if e.wEdge {
      var t := Track(p, l.run, e);
      PointersKept(p, l.run, e);
      FullExactly(p, |t.accepted|, l.run.seen.r2);
    }
  }

  lemma DoIsRoomy(l: Link, act: Act)
    requires Roomy(l) && Obeys(l, act)
    ensures Roomy(Do(l, act))
  {
    match act
    case Look => LookIsRoomy(l);
    case Tick(e) => TickIsRoomy(l, e);
  }

  function DoAll(l: Link, acts: seq<Act>): (l': Link)
    requires Sane(EyeFifo()) && Sized(EyeFifo(), l.run.f)
    ensures Sized(EyeFifo(), l'.run.f)
    decreases |acts|
  {
    if acts == [] then l else DoAll(Do(l, acts[0]), acts[1..])
  }

  ghost predicate ObeysAll(l: Link, acts: seq<Act>)
    requires Sane(EyeFifo()) && Sized(EyeFifo(), l.run.f)
    decreases |acts|
  {
    acts == [] || (Obeys(l, acts[0]) && ObeysAll(Do(l, acts[0]), acts[1..]))
  }

  lemma {:induction false} StaysRoomy(l: Link, acts: seq<Act>)
    requires Roomy(l) && ObeysAll(l, acts)
    ensures Roomy(DoAll(l, acts))
    decreases |acts|
  {
    if acts != [] {
      DoIsRoomy(l, acts[0]);
      StaysRoomy(Do(l, acts[0]), acts[1..]);
    }
  }

  lemma StartIsRoomy(mem: seq<u8>, data: u8)
    requires Sane(EyeFifo()) && |mem| == Depth(EyeFifo())
    ensures Roomy(Link(Start(mem, data), 0))
  {
    FifoSize();
    var l := Link(Start(mem, data), 0);
    assert Gray(0) == 0;
    assert Faithful(EyeFifo(), l.run);
  }

  /**
   * Once the flags are up to date, DEV_RDY promises room for a chunk and 32 bytes more: it is high
   * exactly if fewer than 12256 of the 16384 bytes are taken, except while the pointers straddle the
   * wrap.
   */
  lemma ReadyExactly(s: Run)
    requires Faithful(EyeFifo(), s)
    ensures var p := EyeFifo();
            var w1 := Track(p, s, IdleWrite(s.f));
            var w2 := Track(p, w1, IdleWrite(w1.f));
            var w3 := Track(p, w2, IdleWrite(w2.f));
            var r1 := Track(p, w3, IdleRead(w3.f));
            var r2 := Track(p, r1, IdleRead(r1.f));
            var r3 := Track(p, r2, IdleRead(r2.f));
            DevReady(r3.f) <==> |s.accepted| < |s.delivered| + 12256
                                && |s.accepted| / 32768 == |s.delivered| / 32768
  {
    var p := EyeFifo();
    FifoSize();
    FullSettles(p, s);
    IdleWriteIsFaithful(p, s);
    var w1 := Track(p, s, IdleWrite(s.f));
    IdleWriteIsFaithful(p, w1);
    var w2 := Track(p, w1, IdleWrite(w1.f));
    IdleWriteIsFaithful(p, w2);
    var w3 := Track(p, w2, IdleWrite(w2.f));
    EmptySettles(p, w3);
    IdleReadIsFaithful(p, w3);
    var r1 := Track(p, w3, IdleRead(w3.f));
    IdleReadIsFaithful(p, r1);
    var r2 := Track(p, r1, IdleRead(r1.f));
    IdleReadIsFaithful(p, r2);
  }

  /**
   * From reset, however the clocks interleave: if the host keeps to the protocol, the full flag,
   * which would raise the overflow alarm and lock the controller up, never rises.
   */
  lemma NeverFull(mem: seq<u8>, data: u8, acts: seq<Act>)
    requires Sane(EyeFifo()) && |mem| == Depth(EyeFifo())
    requires ObeysAll(Link(Start(mem, data), 0), acts)
    ensures !DoAll(Link(Start(mem, data), 0), acts).run.f.w.full
  {
    StartIsRoomy(mem, data);
    StaysRoomy(Link(Start(mem, data), 0), acts);
  }

  /** So every byte that is written while the controller is enabled enters the FIFO. */
  lemma EveryByteEnters(l: Link, e: Event)
    requires Roomy(l) && Obeys(l, Tick(e)) && e.wEdge && e.wEn
    ensures Do(l, Tick(e)).run.accepted == l.run.accepted + [e.data]
  {}
}

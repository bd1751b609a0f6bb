/**
 * The dual-clock FIFO of fpga/async-fifo.v with its pointer modules, for any address size.
 *
 * Each step of a run is a write-clock edge, a read-clock edge, or both at once. When both happen,
 * a synchroniser may catch every line of the other side's Gray pointer before or after its change.
 */
module AsyncFifo {
  import opened Bytes
  import opened GrayCode
  import opened Modular

  // ---- Counting modulo the pointer range ----

  /** Dropping the top bit of a pointer gives the address. */
  lemma AddressOf(x: nat, a: nat)
    ensures x % Pow2(a + 1) % Pow2(a) == x % Pow2(a)
  {
    var d := Pow2(a);
    var p := x % Pow2(a + 1);
    var q := x / Pow2(a + 1);
    assert x == 2 * d * q + p;
    if p < d {
      ModUnique(p, d, 0, p);
      ModUnique(x, d, 2 * q, p);
    } else {
      ModUnique(p, d, 1, p - d);
      assert d * (2 * q + 1) == 2 * d * q + d;
      ModUnique(x, d, 2 * q + 1, p - d);
    }
  }

  // ---- The registers ----

  /** The write side: memory, pointer, full flag, and the read pointer as it arrives. */
  datatype WSide = WSide(mem: seq<u8>, bin: nat, gray: nat, full: bool, pipe: nat, syn: nat)

  /** The read side: pointer, flags, the write pointer as it arrives, and the output register. */
  datatype RSide = RSide(bin: nat, gray: nat, empty: bool, avail: bool, pipe: nat, syn: nat, data: u8)

  datatype Fifo = Fifo(w: WSide, r: RSide)

  /** `ADDR_SIZE` and `MIN_FREE`. */
  datatype Params = Params(a: nat, minFree: nat)

  function Depth(p: Params): nat { Pow2(p.a) }

  function Range(p: Params): nat { Pow2(p.a + 1) }

  ghost predicate Sane(p: Params) {
    0 < p.a && p.minFree < Depth(p) && Range(p) <= 0x8000_0000
  }

  ghost predicate Sized(p: Params, f: Fifo) {
    |f.w.mem| == Depth(p)
  }

  /** A rising edge of the write clock; `sample` is what the first synchroniser stage catches. */
  function WEdge(p: Params, w: WSide, en: bool, data: u8, sample: nat): (w': WSide)
    requires 0 < p.a && |w.mem| == Depth(p)
    ensures |w'.mem| == Depth(p)
  {
    var inc := en && !w.full;
    var next := (w.bin + if inc then 1 else 0) % Range(p);
    WSide(if inc then w.mem[w.bin % Depth(p) := data] else w.mem,
          next, Gray(next), FullTest(p.a, Gray(next), w.syn), sample, w.pipe)
  }

  /** The subtraction of `r_avail_val`: 32 bits wide, because the right operand is. */
  function Distance(w: nat, r: nat): nat {
    (w - r) % 0x1_0000_0000
  }

  /** A rising edge of the read clock. */
  function REdge(p: Params, r: RSide, mem: seq<u8>, en: bool, sample: nat): RSide
    requires p.minFree <= Depth(p) && |mem| == Depth(p)
  {
    var inc := en && !r.empty;
    var next := (r.bin + if inc then 1 else 0) % Range(p);
    RSide(next, Gray(next), Gray(next) == r.syn, Distance(Ungray(r.syn), r.bin) < Depth(p) - p.minFree,
          sample, r.pipe, if inc then mem[r.bin % Depth(p)] else r.data)
  }

  /** One step: which clocks rise, the inputs, and what the synchronisers catch. */
  datatype Event = Event(wEdge: bool, wEn: bool, data: u8, rSample: nat,
                         rEdge: bool, rEn: bool, wSample: nat)

  function Next(p: Params, f: Fifo, e: Event): (f': Fifo)
    requires Sane(p) && Sized(p, f)
    ensures Sized(p, f')
  {
    Fifo(if e.wEdge then WEdge(p, f.w, e.wEn, e.data, e.rSample) else f.w,
         if e.rEdge then REdge(p, f.r, f.w.mem, e.rEn, e.wSample) else f.r)
  }

  /** Each line that a synchroniser samples has the value before or after the step. */
  ghost predicate Plausible(p: Params, f: Fifo, e: Event)
    requires Sane(p) && Sized(p, f)
  {
    var f' := Next(p, f, e);
    && (e.wEdge ==> Mix(e.rSample, f.r.gray, f'.r.gray))
    && (e.rEdge ==> Mix(e.wSample, f.w.gray, f'.w.gray))
  }

  /** Both resets; the memory is whatever it was. */
  function AfterReset(mem: seq<u8>, data: u8): Fifo {
    Fifo(WSide(mem, 0, 0, false, 0, 0), RSide(0, 0, true, true, 0, 0, data))
  }

  // ---- Runs and what they accepted and delivered ----

  /**
   * How many bytes had been read (written) when the pointer values now in the synchronisers were
   * current: `r1`, `r2` on the write side, `w1`, `w2` on the read side, `wa` behind `avail`.
   */
  datatype Seen = Seen(r1: nat, r2: nat, w1: nat, w2: nat, wa: nat)

  datatype Run = Run(f: Fifo, accepted: seq<u8>, delivered: seq<u8>, seen: Seen)

  predicate Accepts(f: Fifo, e: Event) {
    e.wEdge && e.wEn && !f.w.full
  }

  predicate Delivers(f: Fifo, e: Event) {
    e.rEdge && e.rEn && !f.r.empty
  }

  function Track(p: Params, s: Run, e: Event): (t: Run)
    requires Sane(p) && Sized(p, s.f)
    ensures Sized(p, t.f)
  {
    var f' := Next(p, s.f, e);
    var accepted := if Accepts(s.f, e) then s.accepted + [e.data] else s.accepted;
    var delivered := if Delivers(s.f, e) then s.delivered + [f'.r.data] else s.delivered;
    var r := if e.rSample == s.f.r.gray then |s.delivered| else |delivered|;
    var w := if e.wSample == s.f.w.gray then |s.accepted| else |accepted|;
    Run(f', accepted, delivered,
        Seen(if e.wEdge then r else s.seen.r1, if e.wEdge then s.seen.r1 else s.seen.r2,
             if e.rEdge then w else s.seen.w1, if e.rEdge then s.seen.w1 else s.seen.w2,
             if e.rEdge then s.seen.w2 else s.seen.wa))
  }

  function Code(p: Params, count: nat): nat {
    Gray(count % Range(p))
  }

  /** Pointers only ever lag: no count is ahead of the one it was sampled from. */
  ghost predicate Ordered(p: Params, wc: nat, rc: nat, n: Seen) {
    && n.r2 <= n.r1 <= rc <= n.w2 <= n.w1 <= wc <= n.r2 + Depth(p)
    && n.wa <= n.w2
  }

  ghost predicate Pointers(p: Params, f: Fifo, wc: nat, rc: nat, n: Seen) {
    && f.w.bin == wc % Range(p) && f.w.gray == Code(p, wc)
    && f.r.bin == rc % Range(p) && f.r.gray == Code(p, rc)
    && f.w.pipe == Code(p, n.r1) && f.w.syn == Code(p, n.r2)
    && f.r.pipe == Code(p, n.w1) && f.r.syn == Code(p, n.w2)
  }

  ghost predicate Flags(p: Params, f: Fifo, wc: nat, rc: nat, n: Seen) {
    && (!f.w.full ==> wc < n.r2 + Depth(p))
    && (!f.r.empty ==> rc < n.w2)
    && (f.r.avail ==> n.wa + p.minFree < rc + Depth(p))
  }

  /** Every byte accepted and not yet delivered is in its place in the memory. */
  ghost predicate Stored(p: Params, mem: seq<u8>, accepted: seq<u8>, rc: nat)
    requires |mem| == Depth(p)
  {
    forall k | rc <= k < |accepted| :: mem[k % Depth(p)] == accepted[k]
  }

  ghost predicate Faithful(p: Params, s: Run) {
    && Sane(p) && Sized(p, s.f)
    && Ordered(p, |s.accepted|, |s.delivered|, s.seen)
    && Pointers(p, s.f, |s.accepted|, |s.delivered|, s.seen)
    && Flags(p, s.f, |s.accepted|, |s.delivered|, s.seen)
    && Stored(p, s.f.w.mem, s.accepted, |s.delivered|)
    && s.delivered <= s.accepted
  }

  // ---- What the flags mean ----

  /** The full test on lagging Gray pointers: exactly a whole memory apart. */
  lemma FullExactly(p: Params, w: nat, r: nat)
    requires 0 < p.a && r <= w <= r + Depth(p)
    ensures FullTest(p.a, Code(p, w), Code(p, r)) <==> w == r + Depth(p)
  {
    FullMeansOpposite(p.a, w % Range(p), r % Range(p));
    ModAdd(r, w - r, Range(p));
  }

  /** The empty test: exactly caught up. */
  lemma EmptyExactly(p: Params, w: nat, r: nat)
    requires r <= w <= r + Depth(p)
    ensures Code(p, w) == Code(p, r) <==> w == r
  {
    if Code(p, w) == Code(p, r) && w != r {
      GrayInjective(w % Range(p), r % Range(p));
      ModApart(r, w, Range(p));
    }
  }

  /**
   * `avail` is exact except that it is low whenever the write pointer has wrapped and the read
   * pointer has not.
   */
  lemma AvailExactly(p: Params, w: nat, r: nat)
    requires Sane(p) && r <= w <= r + Depth(p)
    ensures Distance(Ungray(Code(p, w)), r % Range(p)) < Depth(p) - p.minFree
        <==> w + p.minFree < r + Depth(p) && w / Range(p) == r / Range(p)
  {
    UngrayGray(w % Range(p));
    ModAdd(r, w - r, Range(p));
  }

  /** One more byte changes one line of the pointer, the wrap to zero included. */
  lemma NextCode(p: Params, n: nat)
    ensures OneBitApart(Code(p, n), Code(p, n + 1))
  {
    ModAdd(n, 1, Range(p));
    if n % Range(p) + 1 < Range(p) {
      GrayAdjacent(n % Range(p));
    } else {
      GrayWraps(p.a + 1);
    }
  }

  /** A pointer sampled while it may be changing is the old or the new one. */
  lemma SampledPointer(p: Params, n: nat, n': nat, sample: nat)
    requires n' == n || n' == n + 1
    requires Mix(sample, Code(p, n), Code(p, n'))
    ensures sample == Code(p, n) || sample == Code(p, n')
  {
    if n' == n + 1 {
      NextCode(p, n);
    }
    SampleIsOldOrNew(sample, Code(p, n), Code(p, n'));
  }

  // ---- Every step keeps the invariant ----

  lemma WritePointer(p: Params, w: WSide, wc: nat, en: bool, data: u8, sample: nat)
    requires Sane(p) && |w.mem| == Depth(p) && w.bin == wc % Range(p)
    ensures var w' := WEdge(p, w, en, data, sample);
            var wc' := if en && !w.full then wc + 1 else wc;
            w'.bin == wc' % Range(p) && w'.gray == Code(p, wc')
  {
    ModAdd(wc, 1, Range(p));
    ModUnique(w.bin, Range(p), 0, w.bin);
    ModAdd(w.bin, 1, Range(p));
  }

  lemma ReadPointer(p: Params, r: RSide, rc: nat, mem: seq<u8>, en: bool, sample: nat)
    requires Sane(p) && |mem| == Depth(p) && r.bin == rc % Range(p)
    ensures var r' := REdge(p, r, mem, en, sample);
            var rc' := if en && !r.empty then rc + 1 else rc;
            r'.bin == rc' % Range(p) && r'.gray == Code(p, rc')
  {
    ModAdd(rc, 1, Range(p));
    ModUnique(r.bin, Range(p), 0, r.bin);
    ModAdd(r.bin, 1, Range(p));
  }

  lemma PointersKept(p: Params, s: Run, e: Event)
    requires Faithful(p, s) && Plausible(p, s.f, e)
    ensures var t := Track(p, s, e);
            && Pointers(p, t.f, |t.accepted|, |t.delivered|, t.seen)
            && Ordered(p, |t.accepted|, |t.delivered|, t.seen)
  {
    var t := Track(p, s, e);
    if e.wEdge {
      WritePointer(p, s.f.w, |s.accepted|, e.wEn, e.data, e.rSample);
    }
    if e.rEdge {
      ReadPointer(p, s.f.r, |s.delivered|, s.f.w.mem, e.rEn, e.wSample);
    }
    if e.wEdge {
      SampledPointer(p, |s.delivered|, |t.delivered|, e.rSample);
    }
    if e.rEdge {
      SampledPointer(p, |s.accepted|, |t.accepted|, e.wSample);
    }
  }

  lemma FlagsKept(p: Params, s: Run, e: Event)
    requires Faithful(p, s) && Plausible(p, s.f, e)
    ensures var t := Track(p, s, e);
            Flags(p, t.f, |t.accepted|, |t.delivered|, t.seen)
  {
    var t := Track(p, s, e);
    PointersKept(p, s, e);
    if e.wEdge {
      FullExactly(p, |t.accepted|, s.seen.r2);
    }
    if e.rEdge {
      EmptyExactly(p, s.seen.w2, |t.delivered|);
      AvailExactly(p, s.seen.w2, |s.delivered|);
    }
  }

  /** An accepted byte lands where no undelivered byte is. */
  lemma StoredWrite(p: Params, mem: seq<u8>, accepted: seq<u8>, rc: nat, b: u8)
    requires |mem| == Depth(p) && rc <= |accepted| < rc + Depth(p) && Stored(p, mem, accepted, rc)
    ensures Stored(p, mem[|accepted| % Depth(p) := b], accepted + [b], rc)
  {
    forall k | rc <= k < |accepted|
      ensures k % Depth(p) != |accepted| % Depth(p)
    {
      ModApart(k, |accepted|, Depth(p));
    }
  }

  /** A delivered byte is the oldest one. */
  lemma StoredRead(p: Params, mem: seq<u8>, accepted: seq<u8>, delivered: seq<u8>)
    requires |mem| == Depth(p) && Stored(p, mem, accepted, |delivered|)
    requires delivered <= accepted && |delivered| < |accepted|
    ensures delivered + [mem[|delivered| % Depth(p)]] <= accepted
  {
    assert mem[|delivered| % Depth(p)] == accepted[|delivered|];
  }

  lemma StoredKept(p: Params, s: Run, e: Event)
    requires Faithful(p, s)
    ensures var t := Track(p, s, e);
            Stored(p, t.f.w.mem, t.accepted, |t.delivered|) && t.delivered <= t.accepted
  {
    if Accepts(s.f, e) {
      AddressOf(|s.accepted|, p.a);
      StoredWrite(p, s.f.w.mem, s.accepted, |s.delivered|, e.data);
    }
    if Delivers(s.f, e) {
      AddressOf(|s.delivered|, p.a);
      StoredRead(p, s.f.w.mem, s.accepted, s.delivered);
    }
  }

  /** When a byte is written while another is read, the two addresses differ. */
  lemma NoCollision(p: Params, s: Run, e: Event)
    requires Faithful(p, s) && Accepts(s.f, e) && Delivers(s.f, e)
    ensures s.f.w.bin % Depth(p) != s.f.r.bin % Depth(p)
  {
    AddressOf(|s.accepted|, p.a);
    AddressOf(|s.delivered|, p.a);
    ModApart(|s.delivered|, |s.accepted|, Depth(p));
  }

  lemma StepIsFaithful(p: Params, s: Run, e: Event)
    requires Faithful(p, s) && Plausible(p, s.f, e)
    ensures Faithful(p, Track(p, s, e))
  {
    PointersKept(p, s, e);
    FlagsKept(p, s, e);
    StoredKept(p, s, e);
  }

  function TrackAll(p: Params, s: Run, es: seq<Event>): (t: Run)
    requires Sane(p) && Sized(p, s.f)
    ensures Sized(p, t.f)
    decreases |es|
  {
    if es == [] then s else TrackAll(p, Track(p, s, es[0]), es[1..])
  }

  ghost predicate AllPlausible(p: Params, s: Run, es: seq<Event>)
    requires Sane(p) && Sized(p, s.f)
    decreases |es|
  {
    es == [] || (Plausible(p, s.f, es[0]) && AllPlausible(p, Track(p, s, es[0]), es[1..]))
  }

  lemma {:induction false} RunIsFaithful(p: Params, s: Run, es: seq<Event>)
    requires Faithful(p, s) && AllPlausible(p, s, es)
    ensures Faithful(p, TrackAll(p, s, es))
    decreases |es|
  {
    if es != [] {
      StepIsFaithful(p, s, es[0]);
      RunIsFaithful(p, Track(p, s, es[0]), es[1..]);
    }
  }

  function Start(mem: seq<u8>, data: u8): Run {
    Run(AfterReset(mem, data), [], [], Seen(0, 0, 0, 0, 0))
  }

  /**
   * From reset, under every interleaving of the two clocks: what was delivered is a prefix of what
   * was accepted, everything else accepted is still in the memory, and it fits.
   */
  lemma EveryRunIsAPrefix(p: Params, mem: seq<u8>, data: u8, es: seq<Event>)
    requires Sane(p) && |mem| == Depth(p) && AllPlausible(p, Start(mem, data), es)
    ensures var t := TrackAll(p, Start(mem, data), es);
            && t.delivered <= t.accepted
            && |t.accepted| <= |t.delivered| + Depth(p)
            && forall k | |t.delivered| <= k < |t.accepted| :: t.f.w.mem[k % Depth(p)] == t.accepted[k]
  {
    var s := Start(mem, data);
    assert Gray(0) == 0;
    assert Faithful(p, s);
    RunIsFaithful(p, s, es);
  }

  // ---- The flags do not lag for ever ----

  /** A write-clock edge with nothing to write, while the read side stands still. */
  function IdleWrite(f: Fifo): Event {
    Event(true, false, 0, f.r.gray, false, false, 0)
  }

  /** A read-clock edge with nothing to read, while the write side stands still. */
  function IdleRead(f: Fifo): Event {
    Event(false, false, 0, 0, true, false, f.w.gray)
  }

  lemma {:induction false} MixSelf(v: nat)
    ensures Mix(v, v, v)
  {
    if v > 0 {
      MixSelf(v / 2);
    }
  }

  lemma IdleWriteIsFaithful(p: Params, s: Run)
    requires Faithful(p, s)
    ensures var t := Track(p, s, IdleWrite(s.f));
            && Faithful(p, t) && t.f.r == s.f.r && t.accepted == s.accepted && t.delivered == s.delivered
            && t.seen.r1 == |s.delivered| && t.seen.r2 == s.seen.r1
            && (t.f.w.full <==> |s.accepted| == s.seen.r2 + Depth(p))
  {
    MixSelf(s.f.r.gray);
    var e := IdleWrite(s.f);
    assert Next(p, s.f, e).r == s.f.r;
    StepIsFaithful(p, s, e);
    FullExactly(p, |s.accepted|, s.seen.r2);
  }

  lemma IdleReadIsFaithful(p: Params, s: Run)
    requires Faithful(p, s)
    ensures var t := Track(p, s, IdleRead(s.f));
            && Faithful(p, t) && t.f.w == s.f.w && t.accepted == s.accepted && t.delivered == s.delivered
            && t.seen.w1 == |s.accepted| && t.seen.w2 == s.seen.w1
            && (t.f.r.empty <==> |s.delivered| == s.seen.w2)
            && (t.f.r.avail <==> s.seen.w2 + p.minFree < |s.delivered| + Depth(p)
                                 && s.seen.w2 / Range(p) == |s.delivered| / Range(p))
  {
    MixSelf(s.f.w.gray);
    var e := IdleRead(s.f);
    assert Next(p, s.f, e).w == s.f.w;
    StepIsFaithful(p, s, e);
    EmptyExactly(p, s.seen.w2, |s.delivered|);
    AvailExactly(p, s.seen.w2, |s.delivered|);
  }

  /** Three quiet write-clock edges make the full flag exact. */
  lemma FullSettles(p: Params, s: Run)
    requires Faithful(p, s)
    ensures var s1 := Track(p, s, IdleWrite(s.f));
            var s2 := Track(p, s1, IdleWrite(s1.f));
            var s3 := Track(p, s2, IdleWrite(s2.f));
            s3.f.w.full <==> |s.accepted| == |s.delivered| + Depth(p)
  {
    IdleWriteIsFaithful(p, s);
    var s1 := Track(p, s, IdleWrite(s.f));
    IdleWriteIsFaithful(p, s1);
    var s2 := Track(p, s1, IdleWrite(s1.f));
    IdleWriteIsFaithful(p, s2);
  }

  /** Three quiet read-clock edges make the empty flag exact. */
  lemma EmptySettles(p: Params, s: Run)
    requires Faithful(p, s)
    ensures var s1 := Track(p, s, IdleRead(s.f));
            var s2 := Track(p, s1, IdleRead(s1.f));
            var s3 := Track(p, s2, IdleRead(s2.f));
            && (s3.f.r.empty <==> s.accepted == s.delivered)
            && (s3.f.r.avail <==> |s.accepted| + p.minFree < |s.delivered| + Depth(p)
                                  && |s.accepted| / Range(p) == |s.delivered| / Range(p))
  {
    IdleReadIsFaithful(p, s);
    var s1 := Track(p, s, IdleRead(s.f));
    IdleReadIsFaithful(p, s1);
    var s2 := Track(p, s1, IdleRead(s1.f));
    IdleReadIsFaithful(p, s2);
  }

  // ---- Once the host stops ----

  /**
   * How far the read side has caught up with a write pointer that stands still: after one read-clock
   * edge in the first synchroniser, after two in the second, after three in the empty flag.
   */
  ghost predicate Caught(s: Run, k: nat) {
    && (k >= 1 ==> s.seen.w1 == |s.accepted|)
    && (k >= 2 ==> s.seen.w2 == |s.accepted|)
    && (k >= 3 ==> (s.f.r.empty <==> |s.delivered| == |s.accepted|))
  }

  /** Each read-clock edge catches up one more step, whether it reads or not. */
  lemma ReadCatchesUp(p: Params, s: Run, e: Event, k: nat)
    requires Faithful(p, s) && Plausible(p, s.f, e) && Caught(s, k) && !e.wEdge && e.rEdge
    ensures Caught(Track(p, s, e), k + 1) && Track(p, s, e).accepted == s.accepted
  {
    var t := Track(p, s, e);
    PointersKept(p, s, e);
    EmptyExactly(p, s.seen.w2, |t.delivered|);
  }

  /** What a read delivers is the next byte accepted. */
  lemma DeliversNext(p: Params, s: Run)
    requires Faithful(p, s) && !s.f.r.empty
    ensures |s.delivered| < |s.accepted|
    ensures s.f.w.mem[s.f.r.bin % Depth(p)] == s.accepted[|s.delivered|]
  {
    AddressOf(|s.delivered|, p.a);
  }

  // ---- The registers themselves ----

  /** The FIFO as clocked registers around a block RAM. */
  class AsyncFifo {
    const p: Params
    const mem: array<u8>
    var wBin: nat
    var wGray: nat
    var wFull: bool
    var wSynRGrayPipe: nat
    var wSynRGray: nat
    var rBin: nat
    var rGray: nat
    var rEmpty: bool
    var rAvail: bool
    var rSynWGrayPipe: nat
    var rSynWGray: nat
    var rData: u8

    ghost predicate Valid()
      reads this
    {
      Sane(p) && mem.Length == Depth(p)
    }

    ghost function Abs(): (f: Fifo)
      reads this, mem
      requires Valid()
      ensures Sized(p, f)
    {
      Fifo(WSide(mem[..], wBin, wGray, wFull, wSynRGrayPipe, wSynRGray),
           RSide(rBin, rGray, rEmpty, rAvail, rSynWGrayPipe, rSynWGray, rData))
    }

    /** The asynchronous resets of both domains. */
    method Reset()
      requires Valid()
      modifies this
      ensures Valid() && Abs() == AfterReset(old(mem[..]), old(rData))
    {
      wBin, wGray, wFull, wSynRGrayPipe, wSynRGray := 0, 0, false, 0, 0;
      rBin, rGray, rEmpty, rAvail, rSynWGrayPipe, rSynWGray := 0, 0, true, true, 0, 0;
    }

    /** A rising edge of the write clock. */
    method WClk(en: bool, data: u8, sample: nat)
      requires Valid()
      modifies this, mem
      ensures Valid() && Abs() == Fifo(WEdge(p, old(Abs()).w, en, data, sample), old(Abs()).r)
    {
      var inc := en && !wFull;
      var next := (wBin + if inc then 1 else 0) % Range(p);
      if inc {
        mem[wBin % Depth(p)] := data;
      }
      wFull := FullTest(p.a, Gray(next), wSynRGray);
      wSynRGrayPipe, wSynRGray := sample, wSynRGrayPipe;
      wBin, wGray := next, Gray(next);
    }

    /** The read side's flags and synchroniser. */
    method RegisterReadFlags(next: nat, sample: nat)
      requires Valid()
      modifies this`rEmpty, this`rAvail, this`rSynWGrayPipe, this`rSynWGray
      ensures rEmpty == (Gray(next) == old(rSynWGray))
      ensures rAvail == (Distance(Ungray(old(rSynWGray)), rBin) < Depth(p) - p.minFree)
      ensures rSynWGrayPipe == sample && rSynWGray == old(rSynWGrayPipe)
    {
      rAvail := Distance(Ungray(rSynWGray), rBin) < Depth(p) - p.minFree;
      rEmpty := Gray(next) == rSynWGray;
      rSynWGrayPipe, rSynWGray := sample, rSynWGrayPipe;
    }

    /** A rising edge of the read clock. */
    method RClk(en: bool, sample: nat)
      requires Valid()
      modifies this
      ensures Valid() && Abs() == Fifo(old(Abs()).w, REdge(p, old(Abs()).r, old(mem[..]), en, sample))
    {
      var inc := en && !rEmpty;
      var next := (rBin + if inc then 1 else 0) % Range(p);
      RegisterReadFlags(next, sample);
      if inc {
        rData := mem[rBin % Depth(p)];
      }
      rBin, rGray := next, Gray(next);
    }

    /** One step of either clock or both: the read port sees the memory as it was. */
    method Edge(e: Event)
      requires Valid()
      modifies this, mem
      ensures Valid() && Abs() == Next(p, old(Abs()), e)
    {
      if e.rEdge {
        RClk(e.rEn, e.wSample);
      }
      if e.wEdge {
        WClk(e.wEn, e.data, e.rSample);
      }
    }

    /**
     * Reset, and then any steps: what came out is a prefix of what was let in, and everything else
     * that was let in is still in the memory.
     */
    method Run(es: seq<Event>) returns (accepted: seq<u8>, delivered: seq<u8>)
      requires Valid() && AllPlausible(p, Start(mem[..], rData), es)
      modifies this, mem
      ensures Valid() && delivered <= accepted && |accepted| <= |delivered| + Depth(p)
      ensures forall k | |delivered| <= k < |accepted| :: mem[k % Depth(p)] == accepted[k]
    {
      ghost var s := Start(mem[..], rData);
      ghost var t := s;
      EveryRunIsAPrefix(p, mem[..], rData, es);
      Reset();
      accepted, delivered := [], [];
      for n := 0 to |es|
        invariant Valid() && t.f == Abs() && t.accepted == accepted && t.delivered == delivered
        invariant AllPlausible(p, t, es[n..]) && TrackAll(p, t, es[n..]) == TrackAll(p, s, es)
      {
        var e := es[n];
        assert es[n..][0] == e && es[n..][1..] == es[n + 1..];
        if e.wEdge && e.wEn && !wFull {
          accepted := accepted + [e.data];
        }
        var delivers := e.rEdge && e.rEn && !rEmpty;
        t := Track(p, t, e);
        Edge(e);
        if delivers {
          delivered := delivered + [rData];
        }
      }
    }
  }
}

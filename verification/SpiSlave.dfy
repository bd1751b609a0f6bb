/** The asynchronous SPI slave of fpga/spi_slave_async.v, and the echo of fpga/eye.v:172-173. */
module SpiSlave {
  import opened Bytes
  import opened Transmitter

  /** `eight` is also the ninth bit of the receive register: a sentinel that arrives after eight bits. */
  datatype Slave = Slave(rxEn: bool, eight: bool, rxData: u8, tx: u8)

  /** Reset, or chip select released; the transmit register is not reset. */
  function Init(s: Slave): Slave {
    Slave(false, true, 0, s.tx)
  }

  function Rising(s: Slave, mosi: bool): Slave {
    var x: u8 := if s.eight then 1 else s.rxData;
    Slave(true, x >= 0x80, x * 2 % 0x100 + (if mosi then 1 else 0), s.tx)
  }

  function Falling(s: Slave, txData: u8): Slave {
    s.(tx := if s.eight then txData else s.tx * 2 % 0x100)
  }

  predicate Strobe(s: Slave, sck: bool) {
    s.eight && s.rxEn && !sck
  }

  predicate Miso(s: Slave, init: bool) {
    s.tx >= 0x80 && !init
  }

  /** `spi_tx_data`: zero while the controller is enabled, the received byte in echo mode. */
  function TxByte(s: Slave, enable: bool): u8 {
    if enable then 0 else s.rxData
  }

  // ---- A master in mode 0 ----

  /**
   * Slave and master: the bytes still to be sent, how many bits of the first are out, the master's
   * shift registers, the bytes that the slave has strobed and those that the master has read back.
   */
  datatype Link = Link(s: Slave, queue: seq<u8>, j: nat, out: u8, acc: u8, strobed: seq<u8>, back: seq<u8>)

  function ShiftLeft(b: u8): u8 {
    b * 2 % 0x100
  }

  function ShiftIn(b: u8, bit: bool): u8 {
    (2 * b + if bit then 1 else 0) % 0x100
  }

  /** One clock: both sides sample when it rises; both shift when it falls, and a strobe may rise. */
  function ClockBit(l: Link, enable: bool): Link
    requires l.queue != []
  {
    var up := Rising(l.s, l.out >= 0x80);
    var down := Falling(up, TxByte(up, enable));
    var acc := ShiftIn(l.acc, Miso(l.s, false));
    var strobed := if !Strobe(up, true) && Strobe(down, false) then l.strobed + [down.rxData] else l.strobed;
    if l.j < 7 then
      Link(down, l.queue, l.j + 1, ShiftLeft(l.out), acc, strobed, l.back)
    else
      Link(down, l.queue[1..], 0, if |l.queue| > 1 then l.queue[1] else 0, 0, strobed, l.back + [acc])
  }

  /** Chip select falls, and the master has its first byte ready. */
  function Select(s: Slave, bytes: seq<u8>): Link {
    Link(Init(s), bytes, 0, if bytes == [] then 0 else bytes[0], 0, [], [])
  }

  // ---- The receiving side ----

  /** The sentinel: one shifted by the number of bits received. */
  function Sentinel(j: nat): nat {
    if j == 0 then 1 else 2 * Sentinel(j - 1)
  }

  lemma SentinelBound(j: nat)
    requires j <= 7
    ensures Sentinel(j) <= 128 && (j == 7 ==> Sentinel(j) == 128)
  {
    assert Sentinel(1) == 2 && Sentinel(2) == 4 && Sentinel(3) == 8 && Sentinel(4) == 16;
    assert Sentinel(5) == 32 && Sentinel(6) == 64;
  }

  /** After `j` of the eight bits of `b`, of which `head` are the value and `out` is left to send. */
  ghost predicate Receiving(s: Slave, out: u8, b: u8, j: nat, head: u8) {
    && j < 8 && s.eight == (j == 0)
    && (if j == 0 then 1 else s.rxData) == Sentinel(j) + head
    && head < Sentinel(j) && 256 * head + out == Scaled(b, j)
  }

  /** The sentinel and the bits behind it fit the register until the eighth bit. */
  lemma SentinelMoves(j: nat, head: u8, bit: nat)
    requires j < 7 && head < Sentinel(j) && bit <= 1
    ensures 2 * head + bit < Sentinel(j + 1)
    ensures 2 * (Sentinel(j) + head) + bit == Sentinel(j + 1) + (2 * head + bit)
    ensures Sentinel(j) + head < 128
  {
    SentinelBound(j + 1);
  }

  lemma ShiftedIn(x: u8, bit: nat)
    requires bit <= 1
    ensures x * 2 % 0x100 + bit == if x >= 0x80 then 2 * x + bit - 0x100 else 2 * x + bit
  {}

  /** One more bit of `b` arrives. */
  lemma BitArrives(s: Slave, out: u8, b: u8, j: nat, head: u8) returns (head': u8)
    requires Receiving(s, out, b, j, head) && j < 7
    ensures Receiving(Rising(s, out >= 0x80), out * 2 % 0x100, b, j + 1, head')
  {
    var bit := if out >= 0x80 then 1 else 0;
    SentinelMoves(j, head, bit);
    OneBit(b, j, head, out);
    ShiftedIn(head, bit);
    ShiftedIn(if s.eight then 1 else s.rxData, bit);
    head' := 2 * head + bit;
  }

  /** The eighth bit pushes the sentinel out of the register: the byte is complete. */
  lemma ByteComplete(s: Slave, out: u8, b: u8, head: u8)
    requires Receiving(s, out, b, 7, head)
    ensures Rising(s, out >= 0x80) == Slave(true, true, b, s.tx)
  {
    var bit := if out >= 0x80 then 1 else 0;
    SentinelBound(7);
    OneBit(b, 7, head, out);
    ShiftedIn(head, bit);
    ShiftedIn(s.rxData, bit);
  }

  // ---- Whole transfers ----

  /** What the master reads in place `k`: whatever was in the transmit register, then the replies. */
  function Reply(stale: u8, bytes: seq<u8>, enable: bool, k: nat): u8
    requires k <= |bytes|
  {
    if k == 0 then stale else if enable then 0 else bytes[k - 1]
  }

  /** A transfer of `bytes` under way. */
  ghost predicate Exchanging(l: Link, stale: u8, bytes: seq<u8>, enable: bool, head: u8) {
    var k := |l.strobed|;
    && k <= |bytes| && l.strobed == bytes[..k] && l.queue == bytes[k..]
    && |l.back| == k && (forall i | 0 <= i < k :: l.back[i] == Reply(stale, bytes, enable, i))
    && 256 * l.acc + l.s.tx == Scaled(Reply(stale, bytes, enable, k), l.j)
    && if k == |bytes| then l.s.eight && l.j == 0 else Receiving(l.s, l.out, bytes[k], l.j, head)
  }

  /** During a byte nothing is strobed. */
  lemma MiddleBit(l: Link, stale: u8, bytes: seq<u8>, enable: bool, head: u8) returns (head': u8)
    requires Exchanging(l, stale, bytes, enable, head) && l.queue != [] && l.j < 7
    ensures Exchanging(ClockBit(l, enable), stale, bytes, enable, head')
    ensures ClockBit(l, enable).strobed == l.strobed
  {
    var k := |l.strobed|;
    head' := BitArrives(l.s, l.out, bytes[k], l.j, head);
    OneBit(Reply(stale, bytes, enable, k), l.j, l.acc, l.s.tx);
  }

  /** The eighth bit strobes the byte, and the reply to it is loaded. */
  lemma EighthBit(l: Link, stale: u8, bytes: seq<u8>, enable: bool, head: u8)
    requires Exchanging(l, stale, bytes, enable, head) && l.queue != [] && l.j == 7
    ensures Exchanging(ClockBit(l, enable), stale, bytes, enable, 0)
    ensures ClockBit(l, enable).strobed == l.strobed + [bytes[|l.strobed|]]
  {
    var k := |l.strobed|;
    ByteComplete(l.s, l.out, bytes[k], head);
    OneBit(Reply(stale, bytes, enable, k), l.j, l.acc, l.s.tx);
    var l' := ClockBit(l, enable);
    assert l'.s == Slave(true, true, bytes[k], if enable then 0 else bytes[k]);
    assert l.strobed + [bytes[k]] == bytes[..k + 1] && bytes[k..][1..] == bytes[k + 1..];
    if k + 1 < |bytes| {
      assert bytes[k..][1] == bytes[k + 1];
    }
  }

  /** Any number of clocks. */
  function ClockBits(l: Link, enable: bool, n: nat): Link
    decreases n
  {
    if n == 0 || l.queue == [] then l else ClockBits(ClockBit(l, enable), enable, n - 1)
  }

  lemma {:induction false} TransferGoesOn(l: Link, stale: u8, bytes: seq<u8>, enable: bool, head: u8, n: nat)
    returns (head': u8)
    requires Exchanging(l, stale, bytes, enable, head)
    ensures var l' := ClockBits(l, enable, n);
            && Exchanging(l', stale, bytes, enable, head')
            && (l'.queue != [] ==> 8 * |l'.strobed| + l'.j == 8 * |l.strobed| + l.j + n)
    decreases n
  {
    head' := head;
    if n > 0 && l.queue != [] {
      if l.j < 7 {
        head' := MiddleBit(l, stale, bytes, enable, head);
      } else {
        EighthBit(l, stale, bytes, enable, head);
        head' := 0;
      }
      head' := TransferGoesOn(ClockBit(l, enable), stale, bytes, enable, head', n - 1);
    }
  }

  /**
   * A transfer of any length, after any number of clocks: the slave has strobed one byte for each
   * eight clocks, exactly the bytes sent and in order; the master has read back the stale contents
   * of the transmit register and then, in echo mode, each byte but the last.
   */
  lemma TransferIsExact(s: Slave, bytes: seq<u8>, enable: bool, n: nat)
    requires n <= 8 * |bytes|
    ensures var l := ClockBits(Select(s, bytes), enable, n);
            && l.strobed == bytes[..n / 8] && |l.back| == n / 8
            && forall i | 0 <= i < n / 8 :: l.back[i] == Reply(s.tx, bytes, enable, i)
  {
    var l := Select(s, bytes);
    assert Exchanging(l, s.tx, bytes, enable, 0);
    var head := TransferGoesOn(l, s.tx, bytes, enable, 0, n);
    var l' := ClockBits(l, enable, n);
    if l'.queue == [] {
      ClocksBound(l, s.tx, bytes, enable, 0, n);
    }
    assert |l'.strobed| == n / 8;
  }

  /** The queue cannot run out before eight clocks for each byte. */
  lemma {:induction false} ClocksBound(l: Link, stale: u8, bytes: seq<u8>, enable: bool, head: u8, n: nat)
    requires Exchanging(l, stale, bytes, enable, head)
    ensures 8 * |ClockBits(l, enable, n).strobed| <= 8 * |l.strobed| + l.j + n
    decreases n
  {
    if n > 0 && l.queue != [] {
      if l.j < 7 {
        var head' := MiddleBit(l, stale, bytes, enable, head);
        ClocksBound(ClockBit(l, enable), stale, bytes, enable, head', n - 1);
      } else {
        EighthBit(l, stale, bytes, enable, head);
        ClocksBound(ClockBit(l, enable), stale, bytes, enable, 0, n - 1);
      }
    }
  }

  // ---- The registers themselves ----

  class SpiSlaveAsync {
    var rxEn: bool
    var eight: bool
    var rxData: u8
    var tx: u8

    function Abs(): Slave
      reads this
    {
      Slave(rxEn, eight, rxData, tx)
    }

    method Deselect()
      modifies this`rxEn, this`eight, this`rxData
      ensures Abs() == Init(old(Abs()))
    {
      rxEn, eight, rxData := false, true, 0;
    }

    method PosedgeSck(mosi: bool)
      modifies this`rxEn, this`eight, this`rxData
      ensures Abs() == Rising(old(Abs()), mosi)
    {
      var x: u8 := if eight then 1 else rxData;
      rxEn, eight, rxData := true, x >= 0x80, x * 2 % 0x100 + (if mosi then 1 else 0);
    }

    method NegedgeSck(txData: u8)
      modifies this`tx
      ensures Abs() == Falling(old(Abs()), txData)
    {
      if eight {
        tx := txData;
      } else {
        tx := tx * 2 % 0x100;
      }
    }

    /** A whole clock: what the master samples, and whether a strobe rises at its end. */
    method ClockOnce(mosi: bool, enable: bool) returns (miso: bool, strobe: bool)
      modifies this
      ensures var up := Rising(old(Abs()), mosi); Abs() == Falling(up, TxByte(up, enable))
      ensures miso == Miso(old(Abs()), false) && strobe == Strobe(Abs(), false)
    {
      miso := tx >= 0x80;
      PosedgeSck(mosi);
      NegedgeSck(if enable then 0 else rxData);
      strobe := eight && rxEn;
    }
  }

  lemma {:induction false} ClockBitsSnoc(l: Link, enable: bool, n: nat)
    requires ClockBits(l, enable, n).queue != []
    ensures ClockBits(l, enable, n + 1) == ClockBit(ClockBits(l, enable, n), enable)
    decreases n
  {
    if n > 0 {
      ClockBitsSnoc(ClockBit(l, enable), enable, n - 1);
    }
  }

  lemma {:induction false} ClockBitsAdd(l: Link, enable: bool, m: nat, n: nat)
    ensures ClockBits(l, enable, m + n) == ClockBits(ClockBits(l, enable, m), enable, n)
    decreases m
  {
    if m > 0 && l.queue != [] {
      ClockBitsAdd(ClockBit(l, enable), enable, m - 1, n);
    }
  }

  /** After `j` clocks of a byte, the link `m` is as slave and master are; `l` is the link before the byte. */
  ghost predicate Mirrors(l: Link, m: Link, j: nat, s: Slave, out: u8, acc: u8, strobed: seq<u8>) {
    && l.queue != [] && m.s == s && m.strobed == l.strobed + strobed
    && if j < 8 then
         m.queue == l.queue && m.j == j && m.out == out && m.acc == acc && m.back == l.back
       else
         && m.queue == l.queue[1..] && m.j == 0 && m.acc == 0 && m.back == l.back + [acc]
         && (m.queue != [] ==> m.out == m.queue[0])
  }

  lemma ClockMirrors(l: Link, m: Link, j: nat, s: Slave, out: u8, acc: u8, strobed: seq<u8>, enable: bool)
    requires Mirrors(l, m, j, s, out, acc, strobed) && j < 8
    ensures var up := Rising(s, out >= 0x80);
            var s' := Falling(up, TxByte(up, enable));
            Mirrors(l, ClockBit(m, enable), j + 1, s', ShiftLeft(out), ShiftIn(acc, Miso(s, false)),
                    if Strobe(s', false) then strobed + [s'.rxData] else strobed)
  {}

  /** One byte: `n` clocks, eight, of the registers are `n` clocks of the link. */
  method TransferByte(slave: SpiSlaveAsync, b: u8, enable: bool, ghost l: Link, ghost n: nat)
    returns (acc: u8, strobed: seq<u8>)
    requires n == 8 && l.s == slave.Abs() && l.queue != [] && l.queue[0] == b == l.out && l.j == 0 && l.acc == 0
    modifies slave
    ensures Mirrors(l, ClockBits(l, enable, n), n, slave.Abs(), 0, acc, strobed)
  {
    var out := b;
    acc, strobed := 0, [];
    ghost var m := l;
    for j := 0 to 8
      invariant m == ClockBits(l, enable, j) && Mirrors(l, m, j, slave.Abs(), out, acc, strobed)
    {
      ClockBitsSnoc(l, enable, j);
      ClockMirrors(l, m, j, slave.Abs(), out, acc, strobed, enable);
      m := ClockBit(m, enable);
      var miso, strobe := slave.ClockOnce(out >= 0x80, enable);
      acc := ShiftIn(acc, miso);
      out := ShiftLeft(out);
      strobed := if strobe then strobed + [slave.rxData] else strobed;
    }
  }

  /** `k` bytes of a transfer are through. */
  ghost predicate Between(m: Link, bytes: seq<u8>, k: nat, s: Slave, strobed: seq<u8>, back: seq<u8>) {
    && k <= |bytes| && m.s == s && m.queue == bytes[k..] && m.j == 0 && m.acc == 0
    && m.strobed == strobed && m.back == back
    && (k < |bytes| ==> m.out == bytes[k])
  }

  lemma BetweenNext(m: Link, bytes: seq<u8>, k: nat, strobed: seq<u8>, back: seq<u8>,
                    m': Link, s': Slave, acc: u8, more: seq<u8>)
    requires Between(m, bytes, k, m.s, strobed, back) && k < |bytes| && Mirrors(m, m', 8, s', 0, acc, more)
    ensures Between(m', bytes, k + 1, s', strobed + more, back + [acc])
  {
    assert bytes[k..][1..] == bytes[k + 1..];
  }

  /**
   * The registers, clocked by a master in mode 0 that sends the bytes most significant bit first and
   * reads `miso` as the clock rises: the slave strobes exactly those bytes, and in echo mode the
   * master reads each one place late.
   */
  method Transfer(slave: SpiSlaveAsync, bytes: seq<u8>, enable: bool) returns (strobed: seq<u8>, back: seq<u8>)
    modifies slave
    ensures strobed == bytes && |back| == |bytes|
    ensures forall i | 0 <= i < |bytes| :: back[i] == Reply(old(slave.tx), bytes, enable, i)
  {
    ghost var before := slave.Abs();
    ghost var l := Select(before, bytes);
    slave.Deselect();
    ghost var m, n: nat, clocks: nat := l, 8, 0;
    strobed, back := [], [];
    for k := 0 to |bytes|
      invariant clocks == 8 * k && m == ClockBits(l, enable, clocks)
      invariant Between(m, bytes, k, slave.Abs(), strobed, back)
    {
      ClockBitsAdd(l, enable, clocks, n);
      ghost var m' := ClockBits(m, enable, n);
      var acc, more := TransferByte(slave, bytes[k], enable, m, n);
      BetweenNext(m, bytes, k, strobed, back, m', slave.Abs(), acc, more);
      m, clocks := m', clocks + n;
      strobed, back := strobed + more, back + [acc];
    }
    TransferIsExact(before, bytes, enable, clocks);
    assert bytes[..|bytes|] == bytes;
  }
}

/** SPI transaction framing (src/Module.cpp:183-227). The hardware is an
    event sink: a transaction is the sequence of bus events it produces, and
    the bytes the device shifts back during the payload are an input. */
module Spi {
  import opened Header

  datatype Option<T> = None | Some(value: T)

  /** One observable action on the byte bus. `Transfer` clocks one byte out. */
  datatype BusEvent =
    | BeginTransaction   // _spi->beginTransaction(_spiSettings)
    | SelectLow          // digitalWrite(_cs, LOW)
    | Transfer(mosi: Byte)
    | SelectHigh         // digitalWrite(_cs, HIGH)
    | EndTransaction     // _spi->endTransaction()

  /** A `uint8_t` used as a byte count. */
  type Count = n: nat | n < 0x100

  /** The events of one transaction and the bytes stored into `dataIn`. */
  datatype TransferResult = TransferResult(events: seq<BusEvent>, dataIn: seq<Byte>)

  function Transfers(bytes: seq<Byte>): seq<BusEvent>
  {
    seq(|bytes|, k requires 0 <= k < |bytes| => Transfer(bytes[k]))
  }

  function Zeros(n: nat): seq<Byte>
  {
    seq(n, _ => 0)
  }

  /** `SPItransfer(cmd, reg, dataOut, dataIn, numBytes)`. `miso[k]` is the byte
      the device returns while the k-th payload byte is clocked out. The
      caller's buffers must hold `numBytes` bytes when they are used. */
  function SpiTransfer(c: Consts, cmd: Byte, reg: Byte, dataOut: seq<Byte>,
                       numBytes: Count, miso: seq<Byte>): (r: TransferResult)
    requires c.Valid()
    requires cmd == c.writeCmd ==> numBytes <= |dataOut|
    requires cmd == c.readCmd ==> numBytes <= |miso|
    // one transaction, selected once, opened by the address byte with the access mode merged in
    ensures |r.events| >= 5
    ensures r.events[0] == BeginTransaction && r.events[1] == SelectLow
    ensures r.events[2] == Transfer(reg | cmd)
    ensures forall k :: 3 <= k < |r.events| - 2 ==> r.events[k].Transfer?
    ensures r.events[|r.events| - 2] == SelectHigh && r.events[|r.events| - 1] == EndTransaction
    // write: the payload bytes in order, nothing captured
    ensures cmd == c.writeCmd ==>
      && |r.events| == numBytes + 5
      && (forall k :: 3 <= k < numBytes + 3 ==> r.events[k] == Transfer(dataOut[k - 3]))
      && r.dataIn == []
    // read: zero fillers, and the k-th response lands in dataIn[k]
    ensures cmd == c.readCmd ==>
      && |r.events| == numBytes + 5
      && (forall k :: 3 <= k < numBytes + 3 ==> r.events[k] == Transfer(0))
      && |r.dataIn| == numBytes
      && (forall k :: 0 <= k < numBytes ==> r.dataIn[k] == miso[k])
    // any other command: only the address byte
    ensures cmd != c.writeCmd && cmd != c.readCmd ==> |r.events| == 5 && r.dataIn == []
  {
    var payload :=
      if cmd == c.writeCmd then dataOut[..numBytes]
      else if cmd == c.readCmd then Zeros(numBytes)
      else [];
    var captured := if cmd != c.writeCmd && cmd == c.readCmd then miso[..numBytes] else [];
    TransferResult(
      [BeginTransaction, SelectLow, Transfer(reg | cmd)] + Transfers(payload) + [SelectHigh, EndTransaction],
      captured)
  }

  /** `SPIreadRegisterBurst(reg, numBytes, inBytes)`. */
  function SpiReadRegisterBurst(c: Consts, reg: Byte, numBytes: Count, miso: seq<Byte>): (r: TransferResult)
    requires c.Valid()
    requires numBytes <= |miso|
    ensures r.dataIn == miso[..numBytes]
    ensures ParseFrame(r.events) == Some((Frame(reg | c.readCmd, Zeros(numBytes)), []))
  {
    var r := SpiTransfer(c, c.readCmd, reg, [], numBytes, miso);
    FrameRoundTrip(c, c.readCmd, reg, [], numBytes, miso, []);
    assert r.events + [] == r.events;
    r
  }

  /** `SPIreadRegister(reg)`: the single response byte is the value read. */
  function SpiReadRegister(c: Consts, reg: Byte, reply: Byte): (r: TransferResult)
    requires c.Valid()
    ensures r.dataIn == [reply]
    ensures ParseFrame(r.events) == Some((Frame(reg | c.readCmd, [0]), []))
  {
    assert Zeros(1) == [0];
    SpiReadRegisterBurst(c, reg, 1, [reply])
  }

  /** `SPIwriteRegisterBurst(reg, data, numBytes)`. */
  function SpiWriteRegisterBurst(c: Consts, reg: Byte, data: seq<Byte>, numBytes: Count): (r: TransferResult)
    requires c.Valid()
    requires numBytes <= |data|
    ensures r.dataIn == []
    ensures ParseFrame(r.events) == Some((Frame(reg | c.writeCmd, data[..numBytes]), []))
  {
    var r := SpiTransfer(c, c.writeCmd, reg, data, numBytes, []);
    FrameRoundTrip(c, c.writeCmd, reg, data, numBytes, [], []);
    assert r.events + [] == r.events;
    r
  }

  /** `SPIwriteRegister(reg, data)`. */
  function SpiWriteRegister(c: Consts, reg: Byte, data: Byte): (r: TransferResult)
    requires c.Valid()
    ensures r.dataIn == []
    ensures ParseFrame(r.events) == Some((Frame(reg | c.writeCmd, [data]), []))
  {
    assert [data][..1] == [data];
    SpiWriteRegisterBurst(c, reg, [data], 1)
  }

  // ---------------------------------------------------------------------------
  // Reading a bus trace back into transactions

  /** What one transaction carried: the address byte and the payload bytes. */
  datatype Frame = Frame(header: Byte, payload: seq<Byte>)

  /** Splits off the leading run of byte transfers. */
  function TakeTransfers(ev: seq<BusEvent>): (r: (seq<Byte>, seq<BusEvent>))
    ensures |r.1| <= |ev|
    decreases |ev|
  {
    if ev != [] && ev[0].Transfer? then
      var (bytes, rest) := TakeTransfers(ev[1..]);
      ([ev[0].mosi] + bytes, rest)
    else
      ([], ev)
  }

  /** Reads one complete transaction off the front of a trace:
      begin, select, address byte, payload transfers, deselect, end. */
  function ParseFrame(ev: seq<BusEvent>): (r: Option<(Frame, seq<BusEvent>)>)
    ensures r.Some? ==> |r.value.1| < |ev|
  {
    if |ev| >= 3 && ev[0] == BeginTransaction && ev[1] == SelectLow && ev[2].Transfer? then
      var (payload, rest) := TakeTransfers(ev[3..]);
      if |rest| >= 2 && rest[0] == SelectHigh && rest[1] == EndTransaction then
        Some((Frame(ev[2].mosi, payload), rest[2..]))
      else
        None
    else
      None
  }

  /** Splits a whole trace into transactions, or fails if it is not one. */
  function ParseFrames(ev: seq<BusEvent>): Option<seq<Frame>>
    decreases |ev|
  {
    if ev == [] then Some([])
    else
      match ParseFrame(ev)
      case None => None
      case Some((f, rest)) =>
        match ParseFrames(rest)
        case None => None
        case Some(fs) => Some([f] + fs)
  }

  lemma {:induction false} TakeTransfersOf(bytes: seq<Byte>, tail: seq<BusEvent>)
    requires tail == [] || !tail[0].Transfer?
    ensures TakeTransfers(Transfers(bytes) + tail) == (bytes, tail)
  {
    if bytes == [] {
      assert Transfers(bytes) + tail == tail;
    } else {
      var ev := Transfers(bytes) + tail;
      assert ev[1..] == Transfers(bytes[1..]) + tail;
      TakeTransfersOf(bytes[1..], tail);
      assert [bytes[0]] + bytes[1..] == bytes;
    }
  }

  /** Every transaction reads back as one frame carrying the address byte
      `reg | cmd` and exactly the payload it clocked out, whatever follows it. */
  lemma FrameRoundTrip(c: Consts, cmd: Byte, reg: Byte, dataOut: seq<Byte>,
                       numBytes: Count, miso: seq<Byte>, tail: seq<BusEvent>)
    requires c.Valid()
    requires cmd == c.writeCmd ==> numBytes <= |dataOut|
    requires cmd == c.readCmd ==> numBytes <= |miso|
    ensures var payload :=
              if cmd == c.writeCmd then dataOut[..numBytes]
              else if cmd == c.readCmd then Zeros(numBytes)
              else [];
            ParseFrame(SpiTransfer(c, cmd, reg, dataOut, numBytes, miso).events + tail)
            == Some((Frame(reg | cmd, payload), tail))
  {
    var payload :=
      if cmd == c.writeCmd then dataOut[..numBytes]
      else if cmd == c.readCmd then Zeros(numBytes)
      else [];
    var ev := SpiTransfer(c, cmd, reg, dataOut, numBytes, miso).events + tail;
    var closing := [SelectHigh, EndTransaction] + tail;
    assert ev[3..] == Transfers(payload) + closing;
    TakeTransfersOf(payload, closing);
    assert closing[2..] == tail;
  }
}

/** The bit-field register helpers `SPIgetRegValue` and `SPIsetRegValue`
    (src/Module.cpp:128-181). A helper's effect on the device is the list of
    register accesses it makes; each access is one SPI transaction. The bytes
    the device answers are inputs: `raw` and `current` for the first read, and
    `window` for the read-backs that fit into the verification window. */
module Registers {
  import opened Header
  import opened Bits
  import opened Spi

  /** One register access, with the byte read or written. */
  datatype RegOp = ReadReg(reg: Byte, got: Byte) | WriteReg(reg: Byte, put: Byte)

  /** The `int16_t` status or value a helper returns, and its accesses. */
  datatype RegOutcome = RegOutcome(code: int, ops: seq<RegOp>)

  /** `SPIgetRegValue(reg, msb, lsb)`, where the register holds `raw`. */
  function GetRegValue(c: Consts, reg: Byte, msb: Byte, lsb: Byte, raw: Byte): (r: RegOutcome)
    requires c.Valid()
    // a bad descriptor is rejected before any access
    ensures !ValidRange(msb, lsb) ==> r.code == c.errInvalidBitRange && r.ops == []
    // otherwise one read, and the field's bits in place, which never look like an error
    ensures ValidRange(msb, lsb) ==>
      && r.ops == [ReadReg(reg, raw)]
      && 0 <= r.code < 0x100
      && r.code == GetField(raw, msb, lsb) as int
    ensures r.code < 0 <==> !ValidRange(msb, lsb)
  {
    if msb > 7 || lsb > 7 || lsb > msb then
      RegOutcome(c.errInvalidBitRange, [])
    else
      var rawValue := SpiReadRegister(c, reg, raw).dataIn[0];
      var maskedValue := GetField(rawValue, msb, lsb);
      RegOutcome(maskedValue as int, [ReadReg(reg, rawValue)])
  }

  /** How the read-back loop ended: whether it saw the expected byte, and how
      many reads it made. */
  datatype PollOutcome = PollOutcome(matched: bool, count: nat)

  /** The read-back loop of lines 152-158 over the bytes read while the
      window lasts: it stops at the first byte equal to `target`. */
  function Poll(target: Byte, window: seq<Byte>): (r: PollOutcome)
    ensures r.count <= |window|
    ensures r.matched <==> target in window
    ensures r.matched ==> r.count > 0 && window[r.count - 1] == target && target !in window[..r.count - 1]
    ensures !r.matched ==> r.count == |window|
  {
    if window == [] then
      PollOutcome(false, 0)
    else if window[0] == target then
      PollOutcome(true, 1)
    else
      var rest := Poll(target, window[1..]);
      PollOutcome(rest.matched, rest.count + 1)
  }

  /** The read-backs that fit into the window: none at all when
      `checkInterval` is 0, since the loop condition fails at once. */
  function ReadBacks(checkInterval: Byte, window: seq<Byte>): seq<Byte>
  {
    if checkInterval == 0 then [] else window
  }

  /** Lines 143-158 once the new byte is known: read the register, write
      `newValue`, then read back `polls` until one shows `newValue`. */
  function WriteAndVerify(c: Consts, reg: Byte, current: Byte, newValue: Byte, polls: seq<Byte>): (r: RegOutcome)
    requires c.Valid()
    ensures 2 <= |r.ops| <= 2 + |polls|
    ensures r.ops[0] == ReadReg(reg, current) && r.ops[1] == WriteReg(reg, newValue)
    ensures forall k :: 2 <= k < |r.ops| ==> r.ops[k] == ReadReg(reg, polls[k - 2])
    ensures r.code == c.errNone <==> newValue in polls
    ensures r.code == c.errNone ==>
      && |r.ops| > 2
      && r.ops[|r.ops| - 1].got == newValue
      && (forall k :: 2 <= k < |r.ops| - 1 ==> r.ops[k].got != newValue)
    ensures r.code != c.errNone ==> r.code == c.errSpiWriteFailed && |r.ops| == 2 + |polls|
  {
    var p := Poll(newValue, polls);
    var readOps := seq(p.count, k requires 0 <= k < p.count => ReadReg(reg, polls[k]));
    var ops := [ReadReg(reg, current), WriteReg(reg, newValue)] + readOps;
    assert forall k :: 2 <= k < |ops| - 1 ==> ops[k].got == polls[..p.count - 1][k - 2];
    RegOutcome(if p.matched then c.errNone else c.errSpiWriteFailed, ops)
  }

  /** `SPIsetRegValue(reg, value, msb, lsb, checkInterval)`, where the
      register holds `current` and the reads during the window return `window`. */
  function SetRegValue(c: Consts, reg: Byte, value: Byte, msb: Byte, lsb: Byte,
                       checkInterval: Byte, current: Byte, window: seq<Byte>): (r: RegOutcome)
    requires c.Valid()
    // a bad descriptor is rejected before any access
    ensures !ValidRange(msb, lsb) ==> r.code == c.errInvalidBitRange && r.ops == []
    // one read, one write of the merged byte, then only reads of the same register
    ensures ValidRange(msb, lsb) ==>
      && 2 <= |r.ops| <= 2 + |ReadBacks(checkInterval, window)|
      && r.ops[0] == ReadReg(reg, current)
      && r.ops[1] == WriteReg(reg, NewValue(current, value, msb, lsb))
      && (forall k :: 2 <= k < |r.ops| ==> r.ops[k] == ReadReg(reg, window[k - 2]))
    // success exactly when some read-back shows the written byte, at the first such one
    ensures ValidRange(msb, lsb) ==>
      (r.code == c.errNone <==> checkInterval != 0 && NewValue(current, value, msb, lsb) in window)
    ensures ValidRange(msb, lsb) && r.code == c.errNone ==>
      && |r.ops| > 2
      && r.ops[|r.ops| - 1].got == NewValue(current, value, msb, lsb)
      && (forall k :: 2 <= k < |r.ops| - 1 ==> r.ops[k].got != NewValue(current, value, msb, lsb))
    // otherwise the whole window was read and the write is reported failed
    ensures ValidRange(msb, lsb) && r.code != c.errNone ==>
      && r.code == c.errSpiWriteFailed
      && |r.ops| == 2 + |ReadBacks(checkInterval, window)|
  {
    if msb > 7 || lsb > 7 || lsb > msb then
      RegOutcome(c.errInvalidBitRange, [])
    else
      var currentValue := SpiReadRegister(c, reg, current).dataIn[0];
      var newValue := NewValue(currentValue, value, msb, lsb);
      WriteAndVerify(c, reg, currentValue, newValue, ReadBacks(checkInterval, window))
  }

  // ---------------------------------------------------------------------------
  // Register accesses on the bus

  /** The transaction of one register access. */
  function OpEvents(c: Consts, op: RegOp): seq<BusEvent>
    requires c.Valid()
  {
    match op
    case ReadReg(reg, got) => SpiReadRegister(c, reg, got).events
    case WriteReg(reg, put) => SpiWriteRegister(c, reg, put).events
  }

  /** What one register access puts on the bus: its address byte and payload. */
  function OpFrame(c: Consts, op: RegOp): Frame
  {
    match op
    case ReadReg(reg, _) => Frame(reg | c.readCmd, [0])
    case WriteReg(reg, put) => Frame(reg | c.writeCmd, [put])
  }

  /** The bus trace of a list of register accesses. */
  function BusTrace(c: Consts, ops: seq<RegOp>): seq<BusEvent>
    requires c.Valid()
  {
    if ops == [] then [] else OpEvents(c, ops[0]) + BusTrace(c, ops[1..])
  }

  /** The frames a list of register accesses should produce, one each. */
  function OpFrames(c: Consts, ops: seq<RegOp>): seq<Frame>
  {
    if ops == [] then [] else [OpFrame(c, ops[0])] + OpFrames(c, ops[1..])
  }

  /** One register access is one complete transaction, whatever follows it. */
  lemma OpFrameRoundTrip(c: Consts, op: RegOp, tail: seq<BusEvent>)
    requires c.Valid()
    ensures ParseFrame(OpEvents(c, op) + tail) == Some((OpFrame(c, op), tail))
  {
    match op {
      case ReadReg(reg, got) =>
        assert OpEvents(c, op) == SpiTransfer(c, c.readCmd, reg, [], 1, [got]).events;
        FrameRoundTrip(c, c.readCmd, reg, [], 1, [got], tail);
        assert Zeros(1) == [0];
      case WriteReg(reg, put) =>
        assert OpEvents(c, op) == SpiTransfer(c, c.writeCmd, reg, [put], 1, []).events;
        FrameRoundTrip(c, c.writeCmd, reg, [put], 1, [], tail);
        assert [put][..1] == [put];
    }
  }

  /** A list of register accesses is exactly as many complete, non-interleaved
      transactions on the bus, one per access, in order. */
  lemma {:induction false} BusTraceFrames(c: Consts, ops: seq<RegOp>)
    requires c.Valid()
    ensures ParseFrames(BusTrace(c, ops)) == Some(OpFrames(c, ops))
  {
    if ops != [] {
      var rest := BusTrace(c, ops[1..]);
      OpFrameRoundTrip(c, ops[0], rest);
      BusTraceFrames(c, ops[1..]);
      assert OpEvents(c, ops[0]) + rest != [];
    }
  }

  /** Against a device that shows a write at once, setting a field succeeds
      after a single read-back, and reading the field afterwards yields the
      requested bits in place. */
  lemma SetThenGet(c: Consts, reg: Byte, value: Byte, msb: Byte, lsb: Byte,
                   checkInterval: Byte, current: Byte, later: seq<Byte>)
    requires c.Valid()
    requires ValidRange(msb, lsb) && checkInterval != 0
    ensures var written := NewValue(current, value, msb, lsb);
            var s := SetRegValue(c, reg, value, msb, lsb, checkInterval, current, [written] + later);
            && s.code == c.errNone
            && |s.ops| == 3
            && GetRegValue(c, reg, msb, lsb, written).code == GetField(value, msb, lsb) as int
  {
    GetAfterSet(current, value, msb, lsb);
  }
}

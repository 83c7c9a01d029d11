# KiteLib `Module` transport core in Dafny

This project models the transport primitives of the KiteLib `Module` class (`src/Module.cpp`)
that every radio driver in the library uses to talk to its chip:

- **Register bit fields** (`SPIgetRegValue`, `SPIsetRegValue`): validation of a `(msb, lsb)`
  field descriptor, the two 8-bit mask expressions, the masked read, the read-modify-write
  merge, and the post-write read-back loop.
- **SPI framing** (`SPItransfer` and `SPIreadRegister`, `SPIwriteRegister`,
  `SPIreadRegisterBurst`, `SPIwriteRegisterBurst`): the sequence of bus events one
  transaction produces and where read responses land.
- **AT line protocol** (`ATemptyBuffer`, `ATsendCommand`, `ATsendData`, `ATgetResponse`):
  flushing stale input, writing a command or raw data followed by the line terminator, and
  classifying the accumulated reply by substring search for "OK" (checked first) and "ERROR".

Hardware is abstracted into inputs and traces:

- The SPI bus is an event sink. A transaction is a `seq<BusEvent>`: begin transaction,
  select low, byte transfers, select high, end transaction. The bytes the chip returns
  are input sequences.
- A register helper's effect is a list of register accesses (`RegOp`), and `BusTrace`
  expands each access into its transaction.
- The serial port is a source and sink of `SerialEvent`s. Bytes already waiting are
  `pending`, and the bytes drained in each turn of the response loop are one chunk of
  `chunks`.
- Time is not modelled. The verification window of `SPIsetRegValue` is the finite sequence
  of values read back before it closes. The AT timeout is the number of loop turns, which
  is `|chunks|`.

Bytes are `bv8`. The C `int` intermediates of the mask expressions are modelled as `bv16`
and truncated to their low eight bits, as the assignment to `uint8_t` does. The constants
of `Module.h` (status codes, `SPIreadCommand`, `SPIwriteCommand`, `AtLineFeed`) are fields
of a `Header.Consts` parameter. Its `Valid` predicate requires:

- negative, distinct `int16_t` error codes and a non-negative success code;
- distinct read and write command values;
- a terminator without a NUL byte.

Modules: `Header` (bytes and constants), `Bits` (mask arithmetic), `Spi` (framing and a
parser of bus traces back into frames), `Registers` (the bit-field helpers), `AtLine`
(AT exchange).

**Fields stay in place.** Neither register helper shifts. `SPIgetRegValue` returns
`raw & mask` with the field at its own bit positions (src/Module.cpp:134), and
`SPIsetRegValue` merges `value & mask` at those same positions (src/Module.cpp:145), so
callers pass values already shifted into the field. `Bits.InPlaceExample` shows that
0b101 written into bits 3..1 of 0b1111_0000 gives 0b1111_0100, and that the pre-shifted
0b1010 gives 0b1111_1010. Every contract states this in-place convention.

## Model

| member | source | states |
|---|---|---|
| `Bits.GetMask` | src/Module.cpp:134 | The read-path mask `(0xFF << lsb) & (0xFF >> (7 - msb))`, truncated to 8 bits, has exactly bits lsb..msb set for every valid descriptor, including lsb = 0 and msb = 7. |
| `Bits.SetMask` | src/Module.cpp:144 | The write-path mask `~((0xFF << (msb + 1)) \| (0xFF >> (8 - lsb)))`, truncated to 8 bits, has exactly bits lsb..msb set. This covers the shifts by 8 at msb = 7 and lsb = 0. |
| `Bits.MasksAgree` | src/Module.cpp:134-144 | The read path and the write path build the same mask for every valid descriptor. |
| `Bits.GetField` | src/Module.cpp:133-135 | The masked read keeps each bit of the register inside [lsb, msb] at its own position and clears every bit outside. |
| `Bits.MergeBit` | src/Module.cpp:145 | Each bit of `(current & ~mask) \| (value & mask)` comes from `value` where the mask is set and from `current` elsewhere. |
| `Bits.NewValue` | src/Module.cpp:143-145 | The byte written back equals the register on every bit outside [lsb, msb] and equals `value`, unshifted, on every bit inside. |
| `Bits.NewValueUnchangedIff` | src/Module.cpp:145 | The write leaves the register byte unchanged if and only if the field bits of `value` already equal those of the register (idempotence, both directions). |
| `Bits.GetAfterSet` | src/Module.cpp:133-145 | Reading a field after merging `value` into it yields `value`'s field bits in place. |
| `Bits.SetOfGet` | src/Module.cpp:133-145 | Merging back the field just read leaves the register byte unchanged. |
| `Bits.SetTwice` | src/Module.cpp:145 | Of two merges into the same field, the second one wins. |
| `Bits.InPlaceExample` | src/Module.cpp:134-145 | Writing the unshifted argument 0b101 into bits 3..1 of 0b1111_0000 gives 0b1111_0100; the pre-shifted argument 0b1010 gives 0b1111_1010, and reading bits 3..1 back yields 0b1010 in place. |
| `Spi.SpiTransfer` | src/Module.cpp:201-227 | The trace is one begin, one select-low, the byte `reg \| cmd`, then only transfers, then one select-high and one end. For the write command the payload is `dataOut[0..n)` in order. For the read command the payload is n zero fillers and `dataIn[k]` is the k-th response. For any other command nothing follows the address byte. |
| `Spi.FrameRoundTrip` | src/Module.cpp:201-227 | Parsing a transaction's trace, with any events after it, gives back exactly one frame: the address byte `reg \| cmd` and the payload clocked out. The parser returns the following events untouched. |
| `Spi.SpiReadRegisterBurst` | src/Module.cpp:183-185 | A burst read stores the first `numBytes` responses, in order. Its trace is one read frame of `numBytes` fillers. |
| `Spi.SpiReadRegister` | src/Module.cpp:187-191 | A single read returns the one response byte. Its trace is one read frame with one filler. |
| `Spi.SpiWriteRegisterBurst` | src/Module.cpp:193-195 | A burst write is one write frame carrying `data[0..numBytes)` and captures nothing. |
| `Spi.SpiWriteRegister` | src/Module.cpp:197-199 | A single write is one write frame carrying the one data byte. |
| `Registers.GetRegValue` | src/Module.cpp:128-136 | A bad descriptor returns `ERR_INVALID_BIT_RANGE` with no register access. A valid one reads the register once and returns the field in place, in [0, 255]. The result is negative exactly for a bad descriptor. |
| `Registers.Poll` | src/Module.cpp:150-158 | The read-back loop stops at the first read equal to the target. It matches if and only if the target occurs in the window. Without a match it reads the whole window. |
| `Registers.WriteAndVerify` | src/Module.cpp:143-158 | One read, one write of the new byte, then only reads, of the window's values in order. The code is `ERR_NONE` exactly when the new byte occurs in the window, and the last read is the first match. Otherwise the code is `ERR_SPI_WRITE_FAILED` after reading the whole window. |
| `Registers.SetRegValue` | src/Module.cpp:138-181 | A bad descriptor returns `ERR_INVALID_BIT_RANGE` with no register access. Otherwise the register is read once and the merged byte is written exactly once, followed only by read-backs. The result is `ERR_NONE` exactly when `checkInterval != 0` and a read-back shows the merged byte. Otherwise it is `ERR_SPI_WRITE_FAILED`, with no read-back at all when `checkInterval == 0`. |
| `Registers.OpFrameRoundTrip` | src/Module.cpp:187-199 | Each register access is one complete transaction whose frame carries `reg` with the access's command bits and its payload. |
| `Registers.BusTraceFrames` | src/Module.cpp:187-227 | The bus trace of a list of register accesses parses into exactly one frame per access, in order, with no interleaving. |
| `Registers.SetThenGet` | src/Module.cpp:128-158 | Against a chip that shows the write on the first read-back, setting a field succeeds after three accesses. A later field read returns the requested bits in place. |
| `AtLine.CString` | src/Module.cpp:90 | `print(const char*)` writes the prefix of the string before its first NUL byte. |
| `AtLine.IndexFrom` | src/Module.cpp:115-118 | For a non-empty pattern, the search returns the first position at or after `from` where the pattern occurs, or -1 if and only if it occurs nowhere there. |
| `AtLine.IndexOf` | src/Module.cpp:115-118 | For a non-empty pattern, `indexOf` is -1 if and only if the buffer does not contain it. Otherwise it is the first occurrence. |
| `AtLine.ClassifyMeaning` | src/Module.cpp:115-121 | A check reports success exactly when the buffer contains "OK". It reports failure exactly when it contains "ERROR" but not "OK", and keeps waiting when it contains neither. |
| `AtLine.FlattenGrows` | src/Module.cpp:109-113 | The accumulated response buffer only grows: the buffer after an earlier turn is a prefix of the buffer after a later one. |
| `AtLine.Await` | src/Module.cpp:108-125 | Continuing after t undecided turns, the loop's buffer is the concatenation of the chunks drained so far. Every earlier check was undecided, and the loop stops before the window ends only on a keyword. It succeeds exactly when the last check found "OK". |
| `AtLine.GetResponse` | src/Module.cpp:105-126 | The buffer is exactly the bytes drained in the turns taken. No earlier turn's buffer contained either keyword. The wait ends early only on a keyword, and the result is true exactly when the final buffer contains "OK". "ERROR" alone and a timeout are both false. |
| `AtLine.GetResponseIgnoresLater` | src/Module.cpp:108-121 | Once a keyword has decided the wait, further chunks that a longer window would have delivered change neither the verdict, the turn count nor the buffer. |
| `AtLine.EmptyBuffer` | src/Module.cpp:82-86 | Draining reads every waiting byte in order and writes nothing. |
| `AtLine.ExchangeShape` | src/Module.cpp:88-103 | The line events are the flush reads, then only writes, then only reads. The bytes written are exactly the line, and the bytes read are the stale bytes followed by the reply. |
| `AtLine.Transact` | src/Module.cpp:88-103 | An exchange flushes `pending`, writes the payload followed by the terminator, and returns the verdict of `ATgetResponse` on the chunks that follow. |
| `AtLine.SendCommand` | src/Module.cpp:88-93 | `ATsendCommand` writes the command's characters up to its NUL, then the terminator. Its result is `ATgetResponse`'s. The trace is the stale reads, then exactly the line's writes, then the reply's reads, and nothing else. |
| `AtLine.SendData` | src/Module.cpp:95-103 | `ATsendData` writes exactly `data[0..len)`, NUL bytes included, then the terminator. Its result is `ATgetResponse`'s. The trace is the stale reads, then exactly the line's writes, then the reply's reads, and nothing else. |
| `AtLine.StaleBytesIgnored` | src/Module.cpp:82-93 | Bytes of an earlier exchange that are already waiting at the flush do not change the verdict of a command. |
| `AtLine.OkInSecondTurn` | src/Module.cpp:105-126 | "OK" arriving in the second turn succeeds after two turns. |
| `AtLine.ErrorEndsWait` | src/Module.cpp:105-126 | "ERROR" in the first turn fails at once, even if "OK" would arrive next. |
| `AtLine.SilenceTimesOut` | src/Module.cpp:105-126 | Silence for the whole window fails after every turn, with an empty buffer. |
| `AtLine.SingleTurn` | src/Module.cpp:105-126 | A reply arriving in one turn is judged on exactly its own bytes. |
| `AtLine.KeywordAnywhere` | src/Module.cpp:105-126 | "junkOKmore" is a success: the keyword may sit inside other text. |
| `AtLine.OkBeatsError` | src/Module.cpp:115-121 | A buffer holding both "ERROR" and "OK" succeeds, because "OK" is checked first. |

## Left out

- Constructors, `init` and `term` (src/Module.cpp:3-80) only set pin modes, start or stop the SPI bus, and open the software serial port. They hold no logic beyond these hardware calls.
- Debug output (`DEBUG_PRINT`, `DEBUG_PRINTLN`, src/Module.cpp:111, 116-124, 160-178) is a side channel. It has no effect on results.
- Wall-clock time is not modelled: `millis()`, `micros()`, `_ATtimeout`, and the `checkInterval * 1000` window. The windows are finite sequences of read-backs or arrival chunks, and no claim is made about durations. So the model also does not capture:
  - counter wrap-around;
  - the `int` overflow of `checkInterval * 1000` on 16-bit targets (for `checkInterval` above 32) and its effect on the window's length.
- `SPISettings` contents, chip-select pin numbers and the `SPIClass` / `SoftwareSerial` objects are abstract sinks and sources of events.
- The Arduino `String` buffer is an unbounded byte sequence. Allocation failure is not modelled, and neither is the effect of a NUL byte in the reply on `indexOf`.
- `Module.h` is not part of this model. Its constants are parameters, constrained only by `Header.Consts.Valid`.
- Overlap of `reg | SPIreadCommand` with `reg | SPIwriteCommand` for addresses that already carry the command bit is not excluded. The frames record the header byte as sent.
- `AtLine.StaleBytesIgnored`: only bytes already waiting when `ATemptyBuffer` runs are flushed; a late byte of an earlier reply arrives inside `chunks` and can decide the verdict, because the port has no way to tell it from the new reply.
- `AtLine.SendData`: `len` is an unbounded count limited by the buffer's length, not a 32-bit `uint32_t`.

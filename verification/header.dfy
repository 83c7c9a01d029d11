/** Bytes and the constants the driver takes from its header file.
    The header itself is not part of this model, so its values are
    parameters, constrained only as far as the transport code relies on them. */
module Header {

  /** An unsigned 8-bit quantity, `uint8_t` in the driver. */
  type Byte = bv8

  /** Status codes, SPI access-mode bits and the AT line terminator. */
  datatype Consts = Consts(
    errNone: int,              // ERR_NONE
    errInvalidBitRange: int,   // ERR_INVALID_BIT_RANGE
    errSpiWriteFailed: int,    // ERR_SPI_WRITE_FAILED
    readCmd: Byte,             // SPIreadCommand
    writeCmd: Byte,            // SPIwriteCommand
    lineFeed: seq<Byte>)       // AtLineFeed
  {
    /** Both failures are negative `int16_t` codes distinct from each other and
        from success, the two access modes differ, and the terminator is a
        C string literal (no NUL byte inside). */
    predicate Valid()
    {
      && -0x8000 <= errInvalidBitRange < 0
      && -0x8000 <= errSpiWriteFailed < 0
      && errInvalidBitRange != errSpiWriteFailed
      && 0 <= errNone < 0x8000
      && readCmd != writeCmd
      && 0 !in lineFeed
    }
  }
}

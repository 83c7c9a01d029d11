/** Bit-field arithmetic of the register helpers: the two mask expressions
    (src/Module.cpp:134 and :144) and the read-modify-write merge (:145).
    The driver keeps a field IN PLACE: reading returns the field's bits at
    their own positions, and writing takes the new bits from the same
    positions of `value`. */
module Bits {
  import opened Header

  /** The C `int` that shift expressions are evaluated in (at least 16 bits). */
  type Wide = bv16

  /** Conversion of an `int` result to `uint8_t`: keep the low eight bits. */
  function Low8(x: Wide): Byte
  {
    (x & 0xFF) as Byte
  }

  /** Bit `i` of `b` is set. */
  predicate Bit(b: Byte, i: Byte)
    requires i < 8
  {
    ((b >> i) & 1) == 1
  }

  /** A field descriptor both helpers accept: bit indices within one byte,
      the most significant one not below the least significant one. */
  predicate ValidRange(msb: Byte, lsb: Byte)
  {
    lsb <= msb <= 7
  }

  /** Bit `i` lies inside the field [lsb, msb]. */
  predicate InField(i: Byte, msb: Byte, lsb: Byte)
  {
    lsb <= i <= msb
  }

  /** `m` has exactly the bits lsb..msb set. */
  ghost predicate IsFieldMask(m: Byte, msb: Byte, lsb: Byte)
  {
    forall i: Byte :: i < 8 ==> (Bit(m, i) <==> InField(i, msb, lsb))
  }

  /** The mask of the read path, `(0xFF << lsb) & (0xFF >> (7 - msb))`,
      evaluated in `int` and truncated. */
  function GetMask(msb: Byte, lsb: Byte): (m: Byte)
    requires ValidRange(msb, lsb)
    ensures IsFieldMask(m, msb, lsb)
  {
    Low8(GetMaskWide(msb, lsb))
  }

  function GetMaskWide(msb: Byte, lsb: Byte): Wide
    requires ValidRange(msb, lsb)
  {
    ((0xFF as Wide) << lsb) & ((0xFF as Wide) >> (7 - msb))
  }

  /** The mask of the write path, `~((0xFF << (msb + 1)) | (0xFF >> (8 - lsb)))`,
      evaluated in `int` and truncated; the shift by 8 for msb = 7 or
      lsb = 0 is exercised here. */
  function SetMask(msb: Byte, lsb: Byte): (m: Byte)
    requires ValidRange(msb, lsb)
    ensures IsFieldMask(m, msb, lsb)
  {
    Low8(!(((0xFF as Wide) << (msb + 1)) | ((0xFF as Wide) >> (8 - lsb))))
  }

  /** Two bytes with the same bits are equal. */
  lemma BitsDetermineByte(a: Byte, b: Byte)
    requires forall i: Byte :: i < 8 ==> (Bit(a, i) <==> Bit(b, i))
    ensures a == b
  {
    assert Bit(a, 0) == Bit(b, 0) && Bit(a, 1) == Bit(b, 1);
    assert Bit(a, 2) == Bit(b, 2) && Bit(a, 3) == Bit(b, 3);
    assert Bit(a, 4) == Bit(b, 4) && Bit(a, 5) == Bit(b, 5);
    assert Bit(a, 6) == Bit(b, 6) && Bit(a, 7) == Bit(b, 7);
  }

  /** The read path and the write path select the same bits. */
  lemma MasksAgree(msb: Byte, lsb: Byte)
    requires ValidRange(msb, lsb)
    ensures GetMask(msb, lsb) == SetMask(msb, lsb)
  {
  }

  /** The masked read `rawValue & mask` of line 134, in `int` then truncated. */
  function GetField(raw: Byte, msb: Byte, lsb: Byte): (r: Byte)
    requires ValidRange(msb, lsb)
    ensures forall i: Byte :: i < 8 ==> (Bit(r, i) <==> InField(i, msb, lsb) && Bit(raw, i))
  {
    Low8((raw as Wide) & GetMaskWide(msb, lsb))
  }

  /** The merge `(currentValue & ~mask) | (value & mask)` of line 145. */
  function Merge(current: Byte, value: Byte, mask: Byte): Byte
  {
    (current & !mask) | (value & mask)
  }

  /** Each bit of the merge comes from `value` where the mask is set and from
      `current` elsewhere. */
  lemma MergeBit(current: Byte, value: Byte, mask: Byte, i: Byte)
    requires i < 8
    ensures Bit(Merge(current, value, mask), i) <==> if Bit(mask, i) then Bit(value, i) else Bit(current, i)
  {
  }

  /** The byte the write path writes back: outside the field every bit is the
      register's, inside it every bit is `value`'s at the same position. */
  function NewValue(current: Byte, value: Byte, msb: Byte, lsb: Byte): (r: Byte)
    requires ValidRange(msb, lsb)
    ensures forall i: Byte :: i < 8 ==>
      (Bit(r, i) <==> if InField(i, msb, lsb) then Bit(value, i) else Bit(current, i))
  {
    var mask := SetMask(msb, lsb);
    assert forall i: Byte :: i < 8 ==>
      (Bit(Merge(current, value, mask), i) <==> if Bit(mask, i) then Bit(value, i) else Bit(current, i)) by {
      forall i: Byte | i < 8 {
        MergeBit(current, value, mask, i);
      }
    }
    Merge(current, value, mask)
  }

  /** Writing a field leaves the register unchanged exactly when the field's
      bits already hold the requested ones. */
  lemma NewValueUnchangedIff(current: Byte, value: Byte, msb: Byte, lsb: Byte)
    requires ValidRange(msb, lsb)
    ensures NewValue(current, value, msb, lsb) == current
        <==> GetField(value, msb, lsb) == GetField(current, msb, lsb)
  {
  }

  /** Reading a field back after writing it yields the written bits, in place. */
  lemma GetAfterSet(current: Byte, value: Byte, msb: Byte, lsb: Byte)
    requires ValidRange(msb, lsb)
    ensures GetField(NewValue(current, value, msb, lsb), msb, lsb) == GetField(value, msb, lsb)
  {
  }

  /** Writing back what was read changes nothing. */
  lemma SetOfGet(current: Byte, msb: Byte, lsb: Byte)
    requires ValidRange(msb, lsb)
    ensures NewValue(current, GetField(current, msb, lsb), msb, lsb) == current
  {
  }

  /** Of two writes to the same field, the second wins. */
  lemma SetTwice(current: Byte, v1: Byte, v2: Byte, msb: Byte, lsb: Byte)
    requires ValidRange(msb, lsb)
    ensures NewValue(NewValue(current, v1, msb, lsb), v2, msb, lsb) == NewValue(current, v2, msb, lsb)
  {
  }

  /** Writing field [1,3] of 0b1111_0000 with value 0b101: the low three bits
      of `value` are NOT shifted up, so bits 0 and 2 of `value` land at bit 0
      (outside the field, dropped) and bit 2; the result is 0b1111_0100 rather
      than the right-aligned reading's 0b1111_1010. */
  lemma InPlaceExample()
    ensures NewValue(0xF0, 0x05, 3, 1) == 0xF4
    ensures NewValue(0xF0, 0x05 << 1, 3, 1) == 0xFA
    ensures GetField(0xFA, 3, 1) == 0x0A
  {
  }
}

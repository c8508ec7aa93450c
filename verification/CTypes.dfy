/** The C integer types the firmware uses, as ranges of int, and the conversions
    between them.  A value assigned to one of these types is proved to fit; every
    conversion that can change a value is written out as a function. */
module CTypes {

  type uint8 = x: int | 0 <= x < 0x100
  type uint16 = x: int | 0 <= x < 0x1_0000
  type uint32 = x: int | 0 <= x < 0x1_0000_0000
  type int16 = x: int | -0x8000 <= x < 0x8000
  type int32 = x: int | -0x8000_0000 <= x < 0x8000_0000

  /** Conversion to uint16_t: the value modulo 2^16. */
  function ToUint16(x: int): uint16 {
    x % 0x1_0000
  }

  /** The unsigned value congruent to x. */
  lemma Uint16Exactly(x: int, u: uint16)
    ensures ToUint16(x) == u <==> (x - u) % 0x1_0000 == 0
  {
  }

  /** Conversion to int16_t on a two's complement machine. */
  function ToInt16(x: int): int16 {
    var m := x % 0x1_0000;
    if m < 0x8000 then m else m - 0x1_0000
  }

  /** The signed value congruent to x. */
  lemma Int16Exactly(x: int, i: int16)
    ensures ToInt16(x) == i <==> (x - i) % 0x1_0000 == 0
  {
  }
}

/** The CRC-16/X-25 of crc16_x25: reflected, polynomial 0x8408, start 0xFFFF, result
    complemented. */
module Crc16 {
  import opened LinearMachine

  const START: bv16 := 0xFFFF

  /** One shift of the register. */
  function Shift(r: bv16): bv16 {
    if r & 1 == 1 then (r >> 1) ^ 0x8408 else r >> 1
  }

  function Shifts(r: bv16, n: nat): bv16
    decreases n, r
  {
    if n == 0 then r else Shifts(Shift(r), n - 1)
  }

  /** Four shifts at once. */
  function FourTimes(r: bv16): bv16 {
    Shift(Shift(Shift(Shift(r))))
  }

  lemma FourShifts(r: bv16, n: nat)
    ensures Shifts(r, n + 4) == Shifts(FourTimes(r), n)
  {
    var a, b, c := Shift(r), Shift(Shift(r)), Shift(Shift(Shift(r)));
    assert Shifts(r, n + 4) == Shifts(a, n + 3) == Shifts(b, n + 2) == Shifts(c, n + 1) == Shifts(Shift(c), n);
  }

  /** A byte enters at the low end, then eight shifts. */
  function ByteStep(r: bv16, b: bv8): bv16 {
    Shifts(r ^ b as bv16, 8)
  }

  /** The register after a message. */
  function Register(r: bv16, message: seq<bv8>): bv16 {
    Feed(ByteStep, r, message)
  }

  function Crc(message: seq<bv8>): bv16 {
    Register(START, message) ^ 0xFFFF
  }

  lemma RegisterSnoc(r: bv16, a: seq<bv8>, b: bv8)
    ensures Register(r, a + [b]) == ByteStep(Register(r, a), b)
  {
    FeedConcat(ByteStep, r, a, [b]);
  }

  /** The inner loop of crc16_x25. */
  method EnterByte(w: bv16, b: bv8) returns (r: bv16)
    ensures r == ByteStep(w, b)
  {
    r := w ^ b as bv16;
    var i := 0;
    while i < 8
      invariant 0 <= i <= 8 && Shifts(r, 8 - i) == ByteStep(w, b)
    {
      r := if r & 1 == 1 then (r >> 1) ^ 0x8408 else r >> 1;
      i := i + 1;
    }
  }

  /** crc16_x25 over the first length bytes of a buffer. */
  method Crc16X25(data: array<bv8>, length: nat) returns (crc: bv16)
    requires length <= data.Length
    ensures crc == Crc(data[..length])
  {
    var w := START;
    var i := 0;
    while i < length
      invariant i <= length && w == Register(START, data[..i])
    {
      RegisterSnoc(START, data[..i], data[i]);
      assert data[..i + 1] == data[..i] + [data[i]];
      w := EnterByte(w, data[i]);
      i := i + 1;
    }
    crc := w ^ 0xFFFF;
  }
}

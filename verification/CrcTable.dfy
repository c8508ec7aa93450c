/** The bit loop of crc16_x25 is one table look-up per byte: the table-driven form that
    section C.2 of RFC 1662 gives, and the only table that makes it right. */
module CrcTable {
  import opened LinearMachine
  import opened Crc16
  import opened CrcLaws

  type Table = bv8 -> bv16

  /** The eight shifts of a byte value. */
  function Entry(i: bv8): bv16 {
    Shifts(i as bv16, 8)
  }

  ghost predicate IsTable(table: Table) {
    forall i :: table(i) == Entry(i)
  }

  /** One byte of the table-driven form. */
  function LookedUp(table: Table, r: bv16, b: bv8): bv16 {
    table(LowOf(r) ^ b) ^ (r >> 8)
  }

  function TableStep(table: Table): (bv16, bv8) -> bv16 {
    (r, b) => LookedUp(table, r, b)
  }

  function LowOf(r: bv16): bv8 {
    (r & 0xFF) as bv8
  }

  /** Four zero bits leave without feedback. */
  lemma FourZeros(v: bv16)
    requires v & 0xF == 0
    ensures FourTimes(v) == v >> 4
  {
  }

  lemma HighNibbles(v: bv16)
    requires v & 0xFF == 0
    ensures v & 0xF == 0 && (v >> 4) & 0xF == 0 && (v >> 4) >> 4 == v >> 8
  {
  }

  lemma EightZeros(v: bv16)
    requires v & 0xFF == 0
    ensures Shifts(v, 8) == v >> 8
  {
    HighNibbles(v);
    FourShifts(v, 4);
    FourShifts(v >> 4, 0);
    FourZeros(v);
    FourZeros(v >> 4);
  }

  /** The part of the register that a byte meets, and the rest. */
  lemma SplitWord(r: bv16, b: bv8) returns (low: bv16, high: bv16, zero: bv8)
    ensures r == low ^ high && b ^ zero == b
    ensures low ^ b as bv16 == (LowOf(r) ^ b) as bv16
    ensures high ^ zero as bv16 == high && high & 0xFF == 0 && high >> 8 == r >> 8
  {
    low, high, zero := r & 0xFF, r & 0xFF00, 0;
  }

  lemma OneByte(r: bv16, b: bv8)
    ensures Register(r, [b]) == ByteStep(r, b)
  {
    RegisterSnoc(r, [], b);
    assert [] + [b] == [b];
  }

  /** A register in two parts, one of which takes the byte. */
  lemma ByteStepSplits(r: bv16, low: bv16, high: bv16, b: bv8, zero: bv8)
    requires r == low ^ high && b ^ zero == b
    ensures ByteStep(r, b) == ByteStep(low, b) ^ ByteStep(high, zero)
  {
    RegisterLinear(low, high, [b], [zero]);
    assert XorBytes([b], [zero]) == [b];
    OneByte(r, b);
    OneByte(low, b);
    OneByte(high, zero);
  }

  /** The part that takes the byte gives the entry, the other one only moves. */
  lemma LookUpParts(r: bv16, low: bv16, high: bv16, b: bv8, zero: bv8, e: bv8)
    requires r == low ^ high && b ^ zero == b
    requires low ^ b as bv16 == e as bv16 && high ^ zero as bv16 == high && high & 0xFF == 0
    ensures ByteStep(r, b) == Entry(e) ^ (high >> 8)
  {
    ByteStepSplits(r, low, high, b, zero);
    assert ByteStep(low, b) == Entry(e);
    EightZeros(high);
  }

  /** Eight shifts of the register with a byte added are one look-up. */
  lemma ByteStepIsLookUp(r: bv16, b: bv8)
    ensures ByteStep(r, b) == Entry(LowOf(r) ^ b) ^ (r >> 8)
  {
    var low, high, zero := SplitWord(r, b);
    LookUpParts(r, low, high, b, zero, LowOf(r) ^ b);
  }

  /** The look-up computes the loop exactly with this table. */
  lemma TableExactly(table: Table)
    ensures (forall r, b :: LookedUp(table, r, b) == ByteStep(r, b)) <==> IsTable(table)
  {
    if IsTable(table) {
      forall r, b ensures LookedUp(table, r, b) == ByteStep(r, b) {
        LookedUpRight(table, r, b);
      }
    } else {
      var i :| table(i) != Entry(i);
      EmptyRegister(table, 0, i);
    }
  }

  lemma LookedUpRight(table: Table, r: bv16, b: bv8)
    requires table(LowOf(r) ^ b) == Entry(LowOf(r) ^ b)
    ensures LookedUp(table, r, b) == ByteStep(r, b)
  {
    ByteStepIsLookUp(r, b);
  }

  lemma EmptyRegister(table: Table, r: bv16, i: bv8)
    requires r == 0
    ensures LookedUp(table, r, i) == table(i) && ByteStep(r, i) == Entry(i)
  {
    ZeroSums(i, table(i));
    assert r ^ i as bv16 == i as bv16;
  }

  lemma ZeroSums(i: bv8, x: bv16)
    ensures LowOf(0) ^ i == i && x ^ (0 >> 8) == x && 0 ^ i as bv16 == i as bv16
  {
  }

  /** So the table-driven CRC of every message is the CRC of the code. */
  lemma TableCrc(table: Table, message: seq<bv8>)
    requires IsTable(table)
    ensures Crc(message) == Feed(TableStep(table), START, message) ^ 0xFFFF
  {
    TableExactly(table);
    FeedSame(ByteStep, TableStep(table), START, message);
  }
}

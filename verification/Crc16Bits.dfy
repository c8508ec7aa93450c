/** The machine code of Crc16 is the bit register of CrcBits. */
module Crc16Bits {
  import opened LinearMachine
  import opened CrcBits
  import W = WordBits
  import opened Crc16

  function Odd(x: bv16): bool {
    x & 1 == 1
  }

  function Half(x: bv16): bv16 {
    x >> 1
  }

  function Plus(x: bv16, y: bv16): bv16 {
    x ^ y
  }

  const WORDS: W.Arithmetic<bv16> := W.Arithmetic(Odd, Half, Plus, 0, 0x8408)

  // Shifting right by several places at once.

  lemma ShiftTwice(x: bv16)
    ensures (x >> 1) >> 1 == x >> 2 && (x >> 2) >> 2 == x >> 4 && (x >> 4) >> 4 == x >> 8 && (x >> 8) >> 8 == 0
  {
  }

  lemma TwoHalves(x: bv16)
    ensures W.Halves(WORDS, x, 2) == x >> 2
  {
    ShiftTwice(x);
    assert W.Halves(WORDS, x, 2) == W.Halves(WORDS, Half(x), 1) == Half(Half(x));
  }

  lemma FourHalves(x: bv16)
    ensures W.Halves(WORDS, x, 4) == x >> 4
  {
    W.HalvesCompose(WORDS, x, 2, 2);
    TwoHalves(x);
    TwoHalves(x >> 2);
    ShiftTwice(x);
  }

  lemma EightHalves(x: bv16)
    ensures W.Halves(WORDS, x, 8) == x >> 8
  {
    W.HalvesCompose(WORDS, x, 4, 4);
    FourHalves(x);
    FourHalves(x >> 4);
    ShiftTwice(x);
  }

  lemma SixteenHalves(x: bv16)
    ensures W.Halves(WORDS, x, 16) == 0
  {
    W.HalvesCompose(WORDS, x, 8, 8);
    EightHalves(x);
    EightHalves(x >> 8);
    ShiftTwice(x);
  }

  /** The polynomial has its bits exactly at the taps. */
  lemma PolyTaps()
    ensures W.TapsPoly(WORDS)
  {
    var b: seq<bool> := [];
    b := OneMoreBit(0x1, 0x0, 0, b);
    b := OneMoreBit(0x2, 0x1, 1, b);
    b := OneMoreBit(0x4, 0x2, 2, b);
    b := OneMoreBit(0x8, 0x4, 3, b);
    b := OneMoreBit(0x10, 0x8, 4, b);
    b := OneMoreBit(0x21, 0x10, 5, b);
    b := OneMoreBit(0x42, 0x21, 6, b);
    b := OneMoreBit(0x84, 0x42, 7, b);
    b := OneMoreBit(0x108, 0x84, 8, b);
    b := OneMoreBit(0x210, 0x108, 9, b);
    b := OneMoreBit(0x420, 0x210, 10, b);
    b := OneMoreBit(0x840, 0x420, 11, b);
    b := OneMoreBit(0x1081, 0x840, 12, b);
    b := OneMoreBit(0x2102, 0x1081, 13, b);
    b := OneMoreBit(0x4204, 0x2102, 14, b);
    b := OneMoreBit(0x8408, 0x4204, 15, b);
  }

  lemma OneMoreBit(x: bv16, y: bv16, n: nat, b: seq<bool>) returns (c: seq<bool>)
    requires W.LowBits(WORDS, y, n) == b && Half(x) == y
    ensures W.LowBits(WORDS, x, n + 1) == c == [Odd(x)] + b
  {
    c := [Odd(x)] + b;
  }

  lemma LowestBit(x: bv16)
    ensures x & 1 == 0 || x & 1 == 1
  {
  }

  lemma SumLowest(x: bv16, y: bv16)
    ensures (x ^ y) & 1 == (x & 1) ^ (y & 1)
  {
  }

  lemma SumOdd(x: bv16, y: bv16)
    ensures Odd(Plus(x, y)) == (Odd(x) != Odd(y))
  {
    LowestBit(x);
    LowestBit(y);
    SumLowest(x, y);
  }

  lemma SumHalf(x: bv16, y: bv16)
    ensures Half(Plus(x, y)) == Plus(Half(x), Half(y))
  {
  }

  lemma WordsAreAdditive()
    ensures W.Additive(WORDS)
  {
    var m := WORDS;
    forall x, y ensures m.odd(m.plus(x, y)) == (m.odd(x) != m.odd(y)) {
      SumOdd(x, y);
    }
    forall x, y ensures m.half(m.plus(x, y)) == m.plus(m.half(x), m.half(y)) {
      SumHalf(x, y);
    }
  }

  lemma WordsAreExtensional()
    ensures W.Extensional(WORDS)
  {
  }

  lemma WordsHaveSixteenBits()
    ensures W.SixteenBits(WORDS)
  {
    forall x ensures W.Narrow(WORDS, x, 16) {
      SixteenHalves(x);
    }
  }

  lemma WordsLaws()
    ensures W.Additive(WORDS) && W.SixteenBits(WORDS) && W.Extensional(WORDS) && W.TapsPoly(WORDS)
  {
    WordsAreAdditive();
    WordsAreExtensional();
    WordsHaveSixteenBits();
    PolyTaps();
  }

  function ToBits(x: bv16): Word {
    W.LowBits(WORDS, x, 16)
  }

  function ByteBits(b: bv8): (bits: seq<bool>)
    ensures |bits| == 8
  {
    W.LowBits(WORDS, b as bv16, 8)
  }

  /** A message as bits, each byte least significant bit first. */
  function MessageBits(message: seq<bv8>): (bits: seq<bool>)
    ensures |bits| == 8 * |message|
  {
    if message == [] then [] else ByteBits(message[0]) + MessageBits(message[1..])
  }

  lemma ShiftIsShift(x: bv16)
    ensures Shift(x) == W.Shift(WORDS, x)
  {
  }

  lemma {:induction false} ShiftsAreShifts(x: bv16, n: nat)
    ensures Shifts(x, n) == W.Shifts(WORDS, x, n)
    decreases n
  {
    if n == 0 {
    } else {
      ShiftIsShift(x);
      ShiftsAreShifts(Shift(x), n - 1);
    }
  }

  /** Shifting is feeding zeros. */
  lemma ToBitsOfShifts(x: bv16, y: bv16, n: nat)
    requires Shifts(x, n) == y
    ensures ToBits(y) == FeedBits(ToBits(x), Zeros(n))
  {
    WordsLaws();
    ShiftsAreShifts(x, n);
    W.ShiftsAreSteps(WORDS, x, n);
  }

  lemma ByteIsNarrow(b: bv8)
    ensures W.Narrow(WORDS, b as bv16, 8)
  {
    EightHalves(b as bv16);
    NothingAboveByte(b);
  }

  lemma NothingAboveByte(b: bv8)
    ensures (b as bv16) >> 8 == 0
  {
  }

  lemma ByteStepIsFeed(x: bv16, b: bv8)
    ensures ToBits(ByteStep(x, b)) == FeedBits(ToBits(x), ByteBits(b))
  {
    WordsLaws();
    ByteIsNarrow(b);
    W.EnterIsFeed(WORDS, x, b as bv16, 8);
    ShiftsAreShifts(Plus(x, b as bv16), 8);
  }

  /** The register of the code, bit for bit, is the bit register on the message bits. */
  lemma {:induction false} RegisterIsFeed(x: bv16, message: seq<bv8>)
    ensures ToBits(Register(x, message)) == FeedBits(ToBits(x), MessageBits(message))
    decreases |message|
  {
    if message == [] {
    } else {
      ByteStepIsFeed(x, message[0]);
      RegisterIsFeed(ByteStep(x, message[0]), message[1..]);
      FeedConcat<Word, bool>(Step, ToBits(x), ByteBits(message[0]), MessageBits(message[1..]));
    }
  }

  lemma ToBitsInjective(x: bv16, y: bv16)
    requires ToBits(x) == ToBits(y)
    ensures x == y
  {
    WordsLaws();
    W.LowBitsInjective(WORDS, x, y, 16);
  }

  lemma ToBitsXor(x: bv16, y: bv16)
    ensures ToBits(x ^ y) == XorBits(ToBits(x), ToBits(y))
  {
    WordsLaws();
    W.LowBitsPlus(WORDS, x, y, 16);
    assert Plus(x, y) == x ^ y;
  }
}

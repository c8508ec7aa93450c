/** A message followed by its CRC, low byte first, leaves the good-FCS residue of section
    C.2 of RFC 1662 in the register, and nothing else does. */
module CrcResidue {
  import opened LinearMachine
  import opened CrcBits
  import opened Crc16
  import opened Crc16Bits
  import opened CrcLaws

  const GOOD: bv16 := 0xF0B8

  function LowByte(x: bv16): bv8 {
    (x & 0xFF) as bv8
  }

  function HighByte(x: bv16): bv8 {
    (x >> 8) as bv8
  }

  function Sealed(message: seq<bv8>): seq<bv8> {
    message + [LowByte(Crc(message)), HighByte(Crc(message))]
  }

  // A word is its low byte's bits, then its high byte's.

  /** mask has its n low bits set. */
  predicate Ones(mask: bv16, n: nat)
    decreases n, mask
  {
    n == 0 || (Odd(mask) && Ones(Half(mask), n - 1))
  }

  lemma MaskParts(x: bv16, mask: bv16)
    requires Odd(mask)
    ensures Odd(x & mask) == Odd(x) && Half(x & mask) == Half(x) & Half(mask)
  {
  }

  lemma {:induction false} MaskKeepsBits(x: bv16, mask: bv16, n: nat)
    requires Ones(mask, n)
    ensures W.LowBits(WORDS, x & mask, n) == W.LowBits(WORDS, x, n)
    decreases n
  {
    if n == 0 {
    } else {
      MaskParts(x, mask);
      MaskKeepsBits(Half(x), Half(mask), n - 1);
    }
  }

  lemma OnesUp(x: bv16, y: bv16, n: nat)
    requires Ones(x, n) && Odd(y) && Half(y) == x
    ensures Ones(y, n + 1)
  {
  }

  lemma ByteMask()
    ensures Ones(0xFF, 8)
  {
    OnesUp(0x0, 0x1, 0); OnesUp(0x1, 0x3, 1); OnesUp(0x3, 0x7, 2); OnesUp(0x7, 0xF, 3);
    OnesUp(0xF, 0x1F, 4); OnesUp(0x1F, 0x3F, 5); OnesUp(0x3F, 0x7F, 6); OnesUp(0x7F, 0xFF, 7);
  }

  lemma WordMask()
    ensures Ones(0xFFFF, 16)
  {
    ByteMask();
    OnesUp(0xFF, 0x1FF, 8); OnesUp(0x1FF, 0x3FF, 9); OnesUp(0x3FF, 0x7FF, 10); OnesUp(0x7FF, 0xFFF, 11);
    OnesUp(0xFFF, 0x1FFF, 12); OnesUp(0x1FFF, 0x3FFF, 13); OnesUp(0x3FFF, 0x7FFF, 14); OnesUp(0x7FFF, 0xFFFF, 15);
  }

  lemma BytesOfWord(x: bv16)
    ensures LowByte(x) as bv16 == x & 0xFF && HighByte(x) as bv16 == x >> 8
  {
  }

  lemma WordIsTwoBytes(x: bv16)
    ensures ToBits(x) == ByteBits(LowByte(x)) + ByteBits(HighByte(x))
  {
    BytesOfWord(x);
    W.LowBitsSplit(WORDS, x, 8, 8);
    ByteMask();
    MaskKeepsBits(x, 0xFF, 8);
    EightHalves(x);
  }

  // The residue.

  function Complement(w: Word): Word {
    seq(16, i requires 0 <= i < 16 => !w[i])
  }

  lemma {:induction false} AllOnes(x: bv16, n: nat)
    requires Ones(x, n)
    ensures forall i | 0 <= i < n :: W.LowBits(WORDS, x, n)[i]
    decreases n
  {
    if n == 0 {
    } else {
      AllOnes(Half(x), n - 1);
    }
  }

  lemma ComplementBits(x: bv16, mask: bv16)
    requires Ones(mask, 16)
    ensures ToBits(x ^ mask) == Complement(ToBits(x))
  {
    AllOnes(mask, 16);
    ToBitsXor(x, mask);
  }

  lemma OnesShiftToGood()
    ensures Shifts(0xFFFF, 16) == GOOD
  {
    GoodQuarters();
    SixteenShifts(0xFFFF, 0xF870, 0x0F87, 0x737F, 0xF0B8);
  }

  lemma SixteenShifts(x: bv16, a: bv16, b: bv16, c: bv16, d: bv16)
    requires FourTimes(x) == a && FourTimes(a) == b && FourTimes(b) == c && FourTimes(c) == d
    ensures Shifts(x, 16) == d
  {
    FourShifts(x, 12);
    FourShifts(a, 8);
    FourShifts(b, 4);
    FourShifts(c, 0);
  }

  lemma GoodQuarters()
    ensures FourTimes(0xFFFF) == 0xF870 && FourTimes(0xF870) == 0x0F87
    ensures FourTimes(0x0F87) == 0x737F && FourTimes(0x737F) == 0xF0B8
  {
  }

  /** Sixteen bits take the register to the good value exactly when they are its complement. */
  lemma GoodExactly(r: Word, w: seq<bool>)
    requires |w| == 16
    ensures FeedBits(r, w) == ToBits(GOOD) <==> w == Complement(r)
  {
    WordMask();
    OnesShiftToGood();
    GoodFrom(r, w, 0xFFFF, GOOD);
  }

  lemma GoodFrom(r: Word, w: seq<bool>, mask: bv16, good: bv16)
    requires |w| == 16 && Ones(mask, 16) && Shifts(mask, 16) == good
    ensures FeedBits(r, w) == ToBits(good) <==> w == Complement(r)
  {
    AllOnes(mask, 16);
    ToBitsOfShifts(mask, good, 16);
    EnterThenShift(r, w);
    OnesExactly(r, w, ToBits(mask));
    if FeedBits(r, w) == ToBits(good) {
      StepReversible();
      FeedReversible<Word, bool>(Step, Enter(r, w), ToBits(mask), Zeros(16));
    }
  }

  lemma OnesExactly(r: Word, w: seq<bool>, ones: Word)
    requires |w| == 16 && forall i | 0 <= i < 16 :: ones[i]
    ensures Enter(r, w) == ones <==> w == Complement(r)
  {
    if Enter(r, w) == ones {
      forall i | 0 <= i < 16 ensures w[i] == Complement(r)[i] {
        assert Enter(r, w)[i];
      }
    }
  }

  lemma TwoBytesInjective(a: bv8, b: bv8, c: bv8, d: bv8)
    requires ByteBits(a) + ByteBits(b) == ByteBits(c) + ByteBits(d)
    ensures a == c && b == d
  {
    assert (ByteBits(a) + ByteBits(b))[..8] == ByteBits(a) && (ByteBits(a) + ByteBits(b))[8..] == ByteBits(b);
    assert (ByteBits(c) + ByteBits(d))[..8] == ByteBits(c) && (ByteBits(c) + ByteBits(d))[8..] == ByteBits(d);
    ByteBitsInjective(a, c);
    ByteBitsInjective(b, d);
  }

  lemma {:induction false} MessageBitsConcat(a: seq<bv8>, b: seq<bv8>)
    ensures MessageBits(a + b) == MessageBits(a) + MessageBits(b)
    decreases |a|
  {
    if a == [] {
      assert a + b == b;
    } else {
      assert (a + b)[1..] == a[1..] + b;
      MessageBitsConcat(a[1..], b);
    }
  }

  lemma TwoBytesMessage(a: bv8, b: bv8)
    ensures MessageBits([a, b]) == ByteBits(a) + ByteBits(b)
  {
  }

  lemma TrailerRegister(message: seq<bv8>, lo: bv8, hi: bv8)
    ensures ToBits(Register(START, message + [lo, hi]))
         == FeedBits(ToBits(Register(START, message)), ByteBits(lo) + ByteBits(hi))
  {
    MessageBitsConcat(message, [lo, hi]);
    TwoBytesMessage(lo, hi);
    RegisterIsFeed(START, message);
    RegisterIsFeed(START, message + [lo, hi]);
    FeedConcat<Word, bool>(Step, ToBits(START), MessageBits(message), ByteBits(lo) + ByteBits(hi));
  }

  /** The complement of the register, as two bytes, is the CRC. */
  lemma TrailerIsCrc(message: seq<bv8>, lo: bv8, hi: bv8)
    ensures ByteBits(lo) + ByteBits(hi) == Complement(ToBits(Register(START, message)))
            <==> lo == LowByte(Crc(message)) && hi == HighByte(Crc(message))
  {
    var crc := Crc(message);
    WordMask();
    ComplementBits(Register(START, message), 0xFFFF);
    WordIsTwoBytes(crc);
    if ByteBits(lo) + ByteBits(hi) == ByteBits(LowByte(crc)) + ByteBits(HighByte(crc)) {
      TwoBytesInjective(lo, hi, LowByte(crc), HighByte(crc));
    }
  }

  /** Two bytes after a message leave the good value in the register exactly when they
      are the message's CRC, low byte first. */
  lemma ResidueExactly(message: seq<bv8>, lo: bv8, hi: bv8)
    ensures Register(START, message + [lo, hi]) == GOOD
            <==> lo == LowByte(Crc(message)) && hi == HighByte(Crc(message))
  {
    TrailerRegister(message, lo, hi);
    TrailerIsCrc(message, lo, hi);
    GoodExactly(ToBits(Register(START, message)), ByteBits(lo) + ByteBits(hi));
    if ToBits(Register(START, message + [lo, hi])) == ToBits(GOOD) {
      ToBitsInjective(Register(START, message + [lo, hi]), GOOD);
    }
  }

  /** So the CRC of a sealed message is always 0x0F47. */
  lemma SealedCrc(message: seq<bv8>)
    ensures Crc(Sealed(message)) == 0x0F47
  {
    ResidueExactly(message, LowByte(Crc(message)), HighByte(Crc(message)));
    assert GOOD ^ 0xFFFF == 0x0F47;
  }
}

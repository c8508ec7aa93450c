/** The period of the shift register.  A shift is a multiplication by x modulo the divisor
    x^16 + x^12 + x^5 + 1, bit 15 of the register holds the coefficient of x^0, and the
    powers of x repeat after 32767 = 7 * 31 * 151 steps, not sooner. */
module CrcPeriod {
  import opened LinearMachine
  import opened CrcBits
  import opened Crc16
  import opened Crc16Bits
  import opened CrcLaws
  import opened Periods

  // Shifting several times.

  lemma {:induction false} ShiftsCompose(x: bv16, n: nat, k: nat)
    ensures Shifts(x, n + k) == Shifts(Shifts(x, n), k)
    decreases n
  {
    if n == 0 {
    } else {
      ShiftsCompose(Shift(x), n - 1, k);
    }
  }

  lemma ShiftsCommute(x: bv16, n: nat, k: nat)
    ensures Shifts(Shifts(x, n), k) == Shifts(Shifts(x, k), n)
  {
    ShiftsCompose(x, n, k);
    ShiftsCompose(x, k, n);
  }

  lemma ShiftsInjective(u: bv16, v: bv16, n: nat)
    requires Shifts(u, n) == Shifts(v, n)
    ensures u == v
  {
    ToBitsOfShifts(u, Shifts(u, n), n);
    ToBitsOfShifts(v, Shifts(v, n), n);
    StepReversible();
    FeedReversible<Word, bool>(Step, ToBits(u), ToBits(v), Zeros(n));
    ToBitsInjective(u, v);
  }

  // Squares of powers of x.

  /** The square modulo the divisor: it maps x^i to x^2i, and every term moves the
      coefficients it masks by one distance. */
  function Square(v: bv16): bv16 {
    ((v & 0x0100) >> 7) ^ ((v & 0x0200) >> 6) ^ ((v & 0x0440) >> 5) ^ ((v & 0x0880) >> 4)
    ^ ((v & 0x1010) >> 3) ^ ((v & 0x2024) >> 2) ^ ((v & 0x400C) >> 1) ^ (v & 0x8018)
    ^ ((v & 0x0020) << 1) ^ ((v & 0x0044) << 2) ^ ((v & 0x008C) << 3) ^ ((v & 0x0019) << 4)
    ^ ((v & 0x0033) << 5) ^ ((v & 0x0026) << 6) ^ ((v & 0x004D) << 7) ^ ((v & 0x008B) << 8)
    ^ ((v & 0x0013) << 9) ^ ((v & 0x0022) << 10) ^ ((v & 0x0004) << 11) ^ ((v & 0x0009) << 12)
    ^ ((v & 0x0003) << 13) ^ ((v & 0x0002) << 14)
  }

  /** A shift without a test. */
  function Feedback(v: bv16): bv16 {
    (v >> 1) ^ ((v & 1) << 15) ^ ((v & 1) << 10) ^ ((v & 1) << 3)
  }

  lemma OddFeedback(v: bv16)
    requires v & 1 == 1
    ensures Feedback(v) == (v >> 1) ^ 0x8408
  {
  }

  lemma EvenFeedback(v: bv16)
    requires v & 1 == 0
    ensures Feedback(v) == v >> 1
  {
  }

  lemma ShiftIsFeedback(v: bv16)
    ensures Shift(v) == Feedback(v)
  {
    LowestBit(v);
    if v & 1 == 1 {
      OddFeedback(v);
    } else {
      EvenFeedback(v);
    }
  }

  lemma SquareOfFeedbackHigh(v: bv16)
    ensures Square(Feedback(v)) & 0xF000 == Feedback(Feedback(Square(v))) & 0xF000
  {
  }

  lemma SquareOfFeedbackLow(v: bv16)
    ensures Square(Feedback(v)) & 0x0FFF == Feedback(Feedback(Square(v))) & 0x0FFF
  {
  }

  lemma SameParts(x: bv16, y: bv16)
    requires x & 0xF000 == y & 0xF000 && x & 0x0FFF == y & 0x0FFF
    ensures x == y
  {
  }

  lemma SquareOfFeedback(v: bv16)
    ensures Square(Feedback(v)) == Feedback(Feedback(Square(v)))
  {
    SquareOfFeedbackHigh(v);
    SquareOfFeedbackLow(v);
    SameParts(Square(Feedback(v)), Feedback(Feedback(Square(v))));
  }

  lemma TwoFeedbacks(q: bv16)
    ensures Shift(Shift(q)) == Feedback(Feedback(q))
  {
    ShiftIsFeedback(q);
    ShiftIsFeedback(Feedback(q));
  }

  /** Squaring after one shift is shifting twice after squaring. */
  lemma SquareOfShift(v: bv16)
    ensures Square(Shift(v)) == Shift(Shift(Square(v)))
  {
    ShiftIsFeedback(v);
    TwoFeedbacks(Square(v));
    SquareOfFeedback(v);
  }

  /** The square of x^n is x^2n. */
  lemma {:induction false} SquareOfPower(e: bv16, n: nat)
    requires Square(e) == e
    ensures Square(Shifts(e, n)) == Shifts(e, 2 * n)
  {
    if n == 0 {
    } else {
      SquareOfPower(e, n - 1);
      SquareOfShift(Shifts(e, n - 1));
      OneMoreShift(e, n - 1);
      OneMoreShift(e, 2 * n - 2);
      OneMoreShift(e, 2 * n - 1);
    }
  }

  lemma OneMoreShift(x: bv16, n: nat)
    ensures Shifts(x, n + 1) == Shift(Shifts(x, n))
  {
    ShiftsCompose(x, n, 1);
    var y := Shifts(x, n);
    assert Shifts(y, 1) == Shifts(Shift(y), 0);
  }

  lemma Twice(e: bv16, n: nat, v: bv16, u: bv16)
    requires Square(e) == e && Shifts(e, n) == v && Square(v) == u
    ensures Shifts(e, 2 * n) == u
  {
    SquareOfPower(e, n);
  }

  lemma TwiceAndOne(e: bv16, n: nat, v: bv16, u: bv16)
    requires Square(e) == e && Shifts(e, n) == v && Shift(Square(v)) == u
    ensures Shifts(e, 2 * n + 1) == u
  {
    SquareOfPower(e, n);
    OneMoreShift(e, 2 * n);
  }

  // The unit stays a variable here, so that no shift is carried out one by one.

  lemma Power217(e: bv16)
    requires Square(e) == e && Shifts(e, 1) == 0x4000
    ensures Shifts(e, 217) == 0xC712
  {
    TwiceAndOne(e, 1, 0x4000, 0x1000); Twice(e, 3, 0x1000, 0x0200);
    TwiceAndOne(e, 6, 0x0200, 0x0004); TwiceAndOne(e, 13, 0x0004, 0x9591);
    Twice(e, 27, 0x9591, 0x1688); Twice(e, 54, 0x1688, 0x0AEC);
    TwiceAndOne(e, 108, 0x0AEC, 0xC712);
  }

  lemma Power1057(e: bv16)
    requires Square(e) == e && Shifts(e, 1) == 0x4000
    ensures Shifts(e, 1057) == 0xF54F
  {
    Twice(e, 1, 0x4000, 0x2000); Twice(e, 2, 0x2000, 0x0800);
    Twice(e, 4, 0x0800, 0x0080); Twice(e, 8, 0x0080, 0x8408);
    TwiceAndOne(e, 16, 0x8408, 0x0676); Twice(e, 33, 0x0676, 0x6383);
    Twice(e, 66, 0x6383, 0x5172); Twice(e, 132, 0x5172, 0x629A);
    Twice(e, 264, 0x629A, 0xCD1E); TwiceAndOne(e, 528, 0xCD1E, 0xF54F);
  }

  lemma Power4681(e: bv16)
    requires Square(e) == e && Shifts(e, 1) == 0x4000
    ensures Shifts(e, 4681) == 0x4234
  {
    Twice(e, 1, 0x4000, 0x2000); Twice(e, 2, 0x2000, 0x0800);
    TwiceAndOne(e, 4, 0x0800, 0x0040); Twice(e, 9, 0x0040, 0x2102);
    Twice(e, 18, 0x2102, 0xC6C2); TwiceAndOne(e, 36, 0xC6C2, 0x65F1);
    Twice(e, 73, 0x65F1, 0x11C2); Twice(e, 146, 0x11C2, 0x69C8);
    TwiceAndOne(e, 292, 0x69C8, 0x00A2); Twice(e, 585, 0x00A2, 0xC680);
    Twice(e, 1170, 0xC680, 0x2420); TwiceAndOne(e, 2340, 0x2420, 0x4234);
  }

  lemma Power32768(e: bv16)
    requires Square(e) == e && Shifts(e, 1) == 0x4000
    ensures Shifts(e, 32768) == 0x4000
  {
    Twice(e, 1, 0x4000, 0x2000); Twice(e, 2, 0x2000, 0x0800);
    Twice(e, 4, 0x0800, 0x0080); Twice(e, 8, 0x0080, 0x8408);
    Twice(e, 16, 0x8408, 0x0CEC); Twice(e, 32, 0x0CEC, 0x861D);
    Twice(e, 64, 0x861D, 0x3F75); Twice(e, 128, 0x3F75, 0x9471);
    Twice(e, 256, 0x9471, 0x3FC8); Twice(e, 512, 0x3FC8, 0x236C);
    Twice(e, 1024, 0x236C, 0x0ABF); Twice(e, 2048, 0x0ABF, 0x7955);
    Twice(e, 4096, 0x7955, 0x3811); Twice(e, 8192, 0x3811, 0x1A22);
    Twice(e, 16384, 0x1A22, 0x4000);
  }

  // The period.

  /** Whether d shifts bring the unit back. */
  function Returns(e: bv16): nat -> bool {
    (d: nat) => Shifts(e, d) == e
  }

  lemma ReturnsClosed(e: bv16)
    ensures Closed(Returns(e))
  {
    forall a: nat, b: nat ensures Shifts(e, Sum(a, b)) == Shifts(Shifts(e, a), b) {
      ShiftsCompose(e, a, b);
    }
  }

  /** If d shifts bring the unit back, one more is as one. */
  lemma ReturnsNext(e: bv16, d: nat, v: bv16)
    requires Shifts(e, d) == v
    ensures Returns(e)(d) <==> Shift(v) == Shift(e)
  {
    if Shift(v) == Shift(e) {
      OneMoreShift(v, 0);
      OneMoreShift(e, 0);
      ShiftsInjective(v, e, 1);
    }
  }

  /** The powers of x return to x^0 exactly at the multiples of 32767. */
  lemma UnitReturns(e: bv16, d: nat)
    requires Square(e) == e && Shifts(e, 1) == 0x4000
    ensures Shifts(e, d) == e <==> d % 32767 == 0
  {
    FullPeriod(e);
    ShorterPeriods(e);
    ReturnsClosed(e);
    ExactPeriod(Returns(e), d);
  }

  lemma FullPeriod(e: bv16)
    requires Square(e) == e && Shifts(e, 1) == 0x4000
    ensures Returns(e)(32767)
  {
    Power32768(e);
    var v := Shifts(e, 32767);
    OneMoreShift(e, 32767);
    OneMoreShift(e, 0);
    ReturnsNext(e, 32767, v);
  }

  lemma ShorterPeriods(e: bv16)
    requires Square(e) == e && Shifts(e, 1) == 0x4000
    ensures !Returns(e)(217) && !Returns(e)(1057) && !Returns(e)(4681)
  {
    Power217(e);
    Power1057(e);
    Power4681(e);
    OneMoreShift(e, 0);
    ReturnsNext(e, 217, 0xC712);
    ReturnsNext(e, 1057, 0xF54F);
    ReturnsNext(e, 4681, 0x4234);
  }

  lemma ExactPeriod(P: nat -> bool, d: nat)
    requires Closed(P) && P(32767) && !P(217) && !P(1057) && !P(4681)
    ensures P(d) <==> d % 32767 == 0
  {
    if P(d) {
      assert Product(4681, 7) == Product(1057, 31) == Product(217, 151) == 32767;
      PrimeDivides(P, 7, 4681, d);
      PrimeDivides(P, 31, 1057, d);
      PrimeDivides(P, 151, 217, d);
      ThreePrimes(d);
    }
    if d % 32767 == 0 {
      Multiple(P, 32767, d / 32767);
      assert Product(d / 32767, 32767) == d;
    }
  }

  /** And so does every other power of x. */
  lemma PowerReturns(e: bv16, k: nat, v: bv16, d: nat)
    requires Square(e) == e && Shifts(e, 1) == 0x4000 && Shifts(e, k) == v
    ensures Shifts(v, d) == v <==> d % 32767 == 0
  {
    UnitReturns(e, d);
    ShiftsCommute(e, k, d);
    if Shifts(v, d) == v {
      ShiftsInjective(Shifts(e, d), e, k);
    }
  }

  lemma FifteenShifts()
    ensures FourTimes(0x8000) == 0x0800 && FourTimes(0x0800) == 0x0080 && FourTimes(0x0080) == 0x0008
    ensures Shift(0x8000) == 0x4000 && Shift(0x0008) == 0x0004 && Shift(0x0004) == 0x0002 && Shift(0x0002) == 0x0001
    ensures Square(0x8000) == 0x8000
  {
  }

  lemma FromUnit(e: bv16, a: bv16, b: bv16, c: bv16, d: bv16, f: bv16, g: bv16)
    requires FourTimes(e) == a && FourTimes(a) == b && FourTimes(b) == c
    requires Shift(c) == d && Shift(d) == f && Shift(f) == g
    ensures Shifts(e, 15) == g && Shifts(e, 1) == Shift(e)
  {
    FourShifts(e, 11);
    FourShifts(a, 7);
    FourShifts(b, 3);
    assert Shifts(c, 3) == Shifts(d, 2) == Shifts(f, 1) == Shifts(g, 0);
    OneMoreShift(e, 0);
  }

  /** The register value 1, which is x^15, comes back after exactly the multiples of 32767
      shifts. */
  lemma OneReturns(d: nat)
    ensures Shifts(1, d) == 1 <==> d % 32767 == 0
  {
    FifteenShifts();
    FromUnit(0x8000, 0x0800, 0x0080, 0x0008, 0x0004, 0x0002, 0x0001);
    PowerReturns(0x8000, 15, 1, d);
  }
}

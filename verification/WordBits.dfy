/** Machine words seen as bits, for any word type with a lowest bit, a right shift and
    an exclusive or.  Keeping the type abstract keeps bit-vector reasoning out of the
    inductions. */
module WordBits {
  import opened LinearMachine
  import opened CrcBits

  datatype Arithmetic<!T> = Arithmetic(odd: T -> bool, half: T -> T, plus: (T, T) -> T, zero: T, poly: T)

  /** The n low bits of a word, least significant first. */
  function LowBits<T>(m: Arithmetic<T>, x: T, n: nat): (bits: seq<bool>)
    ensures |bits| == n
    decreases n, x
  {
    if n == 0 then [] else [m.odd(x)] + LowBits(m, m.half(x), n - 1)
  }

  /** x shifted right n times. */
  function Halves<T>(m: Arithmetic<T>, x: T, n: nat): T
    decreases n, x
  {
    if n == 0 then x else Halves(m, m.half(x), n - 1)
  }

  /** x has no bits above its n low ones. */
  predicate Narrow<T(==)>(m: Arithmetic<T>, x: T, n: nat) {
    Halves(m, x, n) == m.zero
  }

  /** Adding is bit-wise exclusive or, and zero has no bits. */
  ghost predicate Additive<T(!new)>(m: Arithmetic<T>) {
    && (forall x, y {:trigger m.odd(m.plus(x, y))} :: m.odd(m.plus(x, y)) == (m.odd(x) != m.odd(y)))
    && (forall x, y {:trigger m.half(m.plus(x, y))} :: m.half(m.plus(x, y)) == m.plus(m.half(x), m.half(y)))
    && !m.odd(m.zero) && m.half(m.zero) == m.zero
  }

  /** Words are sixteen bits wide. */
  ghost predicate SixteenBits<T(!new)>(m: Arithmetic<T>) {
    forall x :: Narrow(m, x, 16)
  }

  /** Words are nothing but their bits. */
  ghost predicate Extensional<T(!new)>(m: Arithmetic<T>) {
    forall x, y {:trigger m.odd(x), m.odd(y)} :: m.odd(x) == m.odd(y) && m.half(x) == m.half(y) ==> x == y
  }

  ghost predicate TapsPoly<T(!new)>(m: Arithmetic<T>) {
    forall i | 0 <= i < 16 :: LowBits(m, m.poly, 16)[i] == Tap(i)
  }

  lemma {:induction false} LowBitsPlus<T(!new)>(m: Arithmetic<T>, x: T, y: T, n: nat)
    requires Additive(m)
    ensures LowBits(m, m.plus(x, y), n) == XorBits(LowBits(m, x, n), LowBits(m, y, n))
    decreases n
  {
    if n == 0 {
    } else {
      LowBitsPlus(m, m.half(x), m.half(y), n - 1);
    }
  }

  lemma LowBitsZip<T(!new)>(m: Arithmetic<T>, x: T, y: T, z: T, n: nat)
    requires Additive(m) && z == m.plus(x, y)
    ensures LowBits(m, z, n) == Zip(XorBool, LowBits(m, x, n), LowBits(m, y, n))
  {
    LowBitsPlus(m, x, y, n);
    assert XorBits(LowBits(m, x, n), LowBits(m, y, n)) == Zip(XorBool, LowBits(m, x, n), LowBits(m, y, n));
  }

  /** Words with the same bits are the same. */
  lemma {:induction false} LowBitsInjective<T(!new)>(m: Arithmetic<T>, x: T, y: T, n: nat)
    requires Extensional(m) && Narrow(m, x, n) && Narrow(m, y, n)
    requires LowBits(m, x, n) == LowBits(m, y, n)
    ensures x == y
    decreases n
  {
    if n == 0 {
    } else {
      assert LowBits(m, x, n)[0] == LowBits(m, y, n)[0];
      assert LowBits(m, x, n)[1..] == LowBits(m, y, n)[1..];
      LowBitsInjective(m, m.half(x), m.half(y), n - 1);
    }
  }

  lemma {:induction false} ZeroBits<T(!new)>(m: Arithmetic<T>, n: nat)
    requires Additive(m)
    ensures LowBits(m, m.zero, n) == Zeros(n)
  {
    if n == 0 {
    } else {
      ZeroBits(m, n - 1);
    }
  }

  lemma {:induction false} LowBitsWiden<T(!new)>(m: Arithmetic<T>, x: T, n: nat, k: nat)
    requires Additive(m) && Narrow(m, x, n)
    ensures LowBits(m, x, n + k) == LowBits(m, x, n) + Zeros(k)
    decreases n
  {
    if n == 0 {
      ZeroBits(m, k);
    } else {
      LowBitsWiden(m, m.half(x), n - 1, k);
    }
  }

  lemma {:induction false} LowBitsHalf<T(!new)>(m: Arithmetic<T>, x: T, n: nat)
    requires Additive(m) && n >= 1 && Narrow(m, x, n)
    ensures LowBits(m, m.half(x), n) == LowBits(m, x, n)[1..] + [false]
    decreases n
  {
    if n == 1 {
      assert Halves(m, x, 1) == m.half(x) == m.zero;
      ZeroBits(m, 1);
      assert LowBits(m, x, 1)[1..] == [];
    } else {
      LowBitsHalf(m, m.half(x), n - 1);
      assert LowBits(m, x, n)[1..] == LowBits(m, m.half(x), n - 1);
    }
  }

  lemma {:induction false} HalvesCompose<T>(m: Arithmetic<T>, x: T, n: nat, k: nat)
    ensures Halves(m, x, n + k) == Halves(m, Halves(m, x, n), k)
    decreases n
  {
    if n == 0 {
    } else {
      HalvesCompose(m, m.half(x), n - 1, k);
    }
  }

  lemma {:induction false} LowBitsSplit<T>(m: Arithmetic<T>, x: T, n: nat, k: nat)
    ensures LowBits(m, x, n + k) == LowBits(m, x, n) + LowBits(m, Halves(m, x, n), k)
    decreases n
  {
    if n == 0 {
    } else {
      LowBitsSplit(m, m.half(x), n - 1, k);
    }
  }

  /** One shift of the register, as the code writes it. */
  function Shift<T>(m: Arithmetic<T>, x: T): T {
    if m.odd(x) then m.plus(m.half(x), m.poly) else m.half(x)
  }

  function Shifts<T>(m: Arithmetic<T>, x: T, n: nat): T
    decreases n, x
  {
    if n == 0 then x else Shifts(m, Shift(m, x), n - 1)
  }

  /** A shift of the word is a step of the bit register on a zero bit. */
  lemma ShiftIsStep<T(!new)>(m: Arithmetic<T>, x: T)
    requires Additive(m) && TapsPoly(m) && Narrow(m, x, 16)
    ensures LowBits(m, Shift(m, x), 16) == Step(LowBits(m, x, 16), false)
  {
    LowBitsHalf(m, x, 16);
    LowBitsPlus(m, m.half(x), m.poly, 16);
    assert LowBits(m, x, 16)[0] == m.odd(x);
  }

  lemma {:induction false} ShiftsAreSteps<T(!new)>(m: Arithmetic<T>, x: T, n: nat)
    requires Additive(m) && TapsPoly(m) && SixteenBits(m)
    ensures LowBits(m, Shifts(m, x, n), 16) == FeedBits(LowBits(m, x, 16), Zeros(n))
    decreases n
  {
    if n == 0 {
    } else {
      assert Narrow(m, x, 16);
      ShiftIsStep(m, x);
      ShiftsAreSteps(m, Shift(m, x), n - 1);
      assert Zeros(n)[1..] == Zeros(n - 1);
    }
  }

  lemma PlusIsEnter<T(!new)>(m: Arithmetic<T>, x: T, w: T, n: nat)
    requires Additive(m) && Narrow(m, w, n) && n <= 16
    ensures LowBits(m, m.plus(x, w), 16) == Enter(LowBits(m, x, 16), LowBits(m, w, n))
  {
    LowBitsPlus(m, x, w, 16);
    LowBitsWiden(m, w, n, 16 - n);
  }

  /** Adding a narrow word and shifting is feeding its bits. */
  lemma EnterIsFeed<T(!new)>(m: Arithmetic<T>, x: T, w: T, n: nat)
    requires Additive(m) && TapsPoly(m) && SixteenBits(m) && Narrow(m, w, n) && n <= 16
    ensures LowBits(m, Shifts(m, m.plus(x, w), n), 16) == FeedBits(LowBits(m, x, 16), LowBits(m, w, n))
  {
    ShiftsAreSteps(m, m.plus(x, w), n);
    PlusIsEnter(m, x, w, n);
    EnterThenShift(LowBits(m, x, 16), LowBits(m, w, n));
  }
}

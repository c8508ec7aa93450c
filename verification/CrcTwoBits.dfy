/** Errors in two bits.  One shift of the register is a multiplication by x modulo the
    divisor, so two wrong bits d places apart go unnoticed exactly when the register value
    1 comes back after d shifts: when d is a multiple of the period. */
module CrcTwoBits {
  import opened LinearMachine
  import opened CrcBits
  import opened Crc16
  import opened Crc16Bits
  import opened CrcLaws
  import opened CrcPeriod

  const PERIOD: nat := 32767

  const ONE: bv16 := 1

  /** The first bit of a difference is like a register holding 1. */
  lemma LoneBit(zero: Word, one: Word)
    requires zero == ToBits(0) && one == ToBits(ONE)
    ensures Step(zero, true) == Step(one, false) && Step(one, true) == zero
    ensures forall w: Word :: XorWord(w, w) == zero
  {
    ZeroWordBits();
    OneWordBits(ONE);
  }

  lemma ZeroWordBits()
    ensures ToBits(0) == Zeros(16)
  {
    WordsLaws();
    W.ZeroBits(WORDS, 16);
  }

  lemma OneWordBits(one: bv16)
    requires Odd(one) && Half(one) == 0
    ensures ToBits(one) == [true] + Zeros(15)
  {
    WordsLaws();
    W.ZeroBits(WORDS, 15);
  }

  /** Two bits, n others between them. */
  function TwoBits(n: nat): seq<bool> {
    [true] + Zeros(n) + [true]
  }

  /** Fed to an empty register, two bits leave what the first has become, less the second. */
  lemma TwoBitsLeave(n: nat)
    ensures FeedBits(ToBits(0), TwoBits(n)) == Step(FeedBits(ToBits(ONE), Zeros(n + 1)), true)
  {
    var zero, one := ToBits(0), ToBits(ONE);
    LoneBit(zero, one);
    FeedThree(zero, [true], Zeros(n), [true]);
    var u := FeedBits(Step(zero, true), Zeros(n));
    assert FeedBits(zero, [true]) == Step(zero, true);
    assert FeedBits(u, [true]) == Step(u, true);
    assert Zeros(n + 1)[1..] == Zeros(n);
    assert FeedBits(one, Zeros(n + 1)) == u;
  }

  /** So they leave it empty exactly if the register value 1 has come back. */
  lemma TwoBitsCancel(n: nat)
    ensures FeedBits(ToBits(0), TwoBits(n)) == ToBits(0) <==> Shifts(ONE, n + 1) == ONE
  {
    var zero, one := ToBits(0), ToBits(ONE);
    TwoBitsLeave(n);
    LoneBit(zero, one);
    StepReversible();
    var u := FeedBits(one, Zeros(n + 1));
    assert Step(u, true) == zero <==> u == one;
    ToBitsOfShifts(ONE, Shifts(ONE, n + 1), n + 1);
    if u == one {
      ToBitsInjective(Shifts(ONE, n + 1), ONE);
    }
  }

  lemma XorCancels(u: Word, v: Word)
    ensures XorWord(u, v) == Zeros(16) <==> u == v
  {
    if XorWord(u, v) == Zeros(16) {
      forall i | 0 <= i < 16 ensures u[i] == v[i] {
        assert XorWord(u, v)[i] == Zeros(16)[i];
      }
    }
  }

  /** Inputs that differ in exactly the first and the last bit. */
  lemma EndsDiffer(q: Word, a: bool, middle: seq<bool>, b: bool)
    ensures FeedBits(q, [a] + middle + [b]) == FeedBits(q, [!a] + middle + [!b])
            <==> (|middle| + 1) % PERIOD == 0
  {
    var x, y := [a] + middle + [b], [!a] + middle + [!b];
    StepLinear();
    FeedLinear<Word, bool>(Step, XorWord, XorBool, q, q, x, y);
    OnlyEndsDiffer(a, middle, b);
    LoneBit(ToBits(0), ToBits(ONE));
    assert XorWord(q, q) == ToBits(0);
    XorCancels(FeedBits(q, x), FeedBits(q, y));
    ZeroWordBits();
    TwoBitsCancel(|middle|);
    OneReturns(|middle| + 1);
  }

  lemma OnlyEndsDiffer(a: bool, middle: seq<bool>, b: bool)
    ensures Zip(XorBool, [a] + middle + [b], [!a] + middle + [!b]) == TwoBits(|middle|)
  {
    var x, y := [a] + middle + [b], [!a] + middle + [!b];
    assert Zip(XorBool, x, y) == XorBits(x, y);
    forall i | 0 <= i < |x| ensures XorBits(x, y)[i] == TwoBits(|middle|)[i] {
      assert x[i] == y[i] <==> 0 < i < |middle| + 1;
    }
  }

  /** Two sequences cut at their first difference. */
  lemma {:induction false} FirstDifference(x: seq<bool>, y: seq<bool>)
    returns (p: seq<bool>, a: bool, u: seq<bool>, v: seq<bool>)
    requires |x| == |y| && CountDifferent(x, y) >= 1
    ensures x == p + [a] + u && y == p + [!a] + v && |u| == |v|
    ensures CountDifferent(u, v) == CountDifferent(x, y) - 1
  {
    if x[0] != y[0] {
      p, a, u, v := [], x[0], x[1..], y[1..];
    } else {
      p, a, u, v := FirstDifference(x[1..], y[1..]);
      p := [x[0]] + p;
    }
  }

  lemma {:induction false} NoDifference(x: seq<bool>, y: seq<bool>)
    requires |x| == |y| && CountDifferent(x, y) == 0
    ensures x == y
  {
    if x == [] {
    } else {
      NoDifference(x[1..], y[1..]);
    }
  }

  /** Two sequences that differ in two places, cut around them. */
  lemma TwoDifferences(x: seq<bool>, y: seq<bool>)
    returns (p: seq<bool>, a: bool, middle: seq<bool>, b: bool, s: seq<bool>)
    requires |x| == |y| && CountDifferent(x, y) == 2
    ensures x == p + ([a] + middle + [b]) + s && y == p + ([!a] + middle + [!b]) + s
  {
    var u, v, t;
    p, a, u, v := FirstDifference(x, y);
    middle, b, s, t := FirstDifference(u, v);
    NoDifference(s, t);
    Regroup(p, [a], middle, [b], s);
    Regroup(p, [!a], middle, [!b], s);
  }

  lemma Regroup(p: seq<bool>, a: seq<bool>, m: seq<bool>, b: seq<bool>, s: seq<bool>)
    ensures p + a + (m + b + s) == p + (a + m + b) + s
  {
  }

  /** Two wrong bits with others before, between and after them. */
  lemma TwoWrongBits(r: Word, p: seq<bool>, a: bool, middle: seq<bool>, b: bool, s: seq<bool>)
    ensures FeedBits(r, p + ([a] + middle + [b]) + s) == FeedBits(r, p + ([!a] + middle + [!b]) + s)
            <==> (|middle| + 1) % PERIOD == 0
  {
    var x, y := [a] + middle + [b], [!a] + middle + [!b];
    FeedThree(r, p, x, s);
    FeedThree(r, p, y, s);
    var q := FeedBits(r, p);
    EndsDiffer(q, a, middle, b);
    if FeedBits(FeedBits(q, x), s) == FeedBits(FeedBits(q, y), s) {
      StepReversible();
      FeedReversible<Word, bool>(Step, FeedBits(q, x), FeedBits(q, y), s);
    }
  }

  /** x and y differ in the places i and j and nowhere else. */
  ghost predicate DifferExactly(x: seq<bool>, y: seq<bool>, i: nat, j: nat) {
    && |x| == |y| && i < j < |x|
    && forall k | 0 <= k < |x| :: x[k] != y[k] <==> k == i || k == j
  }

  lemma CutAround(x: seq<bool>, y: seq<bool>, i: nat, j: nat)
    requires DifferExactly(x, y, i, j)
    ensures x == x[..i] + ([x[i]] + x[i + 1..j] + [x[j]]) + x[j + 1..]
    ensures y == x[..i] + ([!x[i]] + x[i + 1..j] + [!x[j]]) + x[j + 1..]
  {
  }

  /** Two wrong bits go unnoticed exactly when their distance is a multiple of 32767, in
      messages of every length. */
  lemma TwoBitErrorExactly(a: seq<bv8>, b: seq<bv8>, i: nat, j: nat)
    requires DifferExactly(MessageBits(a), MessageBits(b), i, j)
    ensures Crc(a) == Crc(b) <==> (j - i) % PERIOD == 0
  {
    var x := MessageBits(a);
    CutAround(x, MessageBits(b), i, j);
    TwoWrongBits(S, x[..i], x[i], x[i + 1..j], x[j], x[j + 1..]);
    CrcByBits(a, b);
  }

  lemma TwoBitErrorDetected(a: seq<bv8>, b: seq<bv8>)
    requires |a| == |b| <= 4095 && CountDifferent(MessageBits(a), MessageBits(b)) == 2
    ensures Crc(a) != Crc(b)
  {
    var p, c, middle, d, s := TwoDifferences(MessageBits(a), MessageBits(b));
    TwoWrongBits(S, p, c, middle, d, s);
    assert |MessageBits(a)| == |p| + (|middle| + 2) + |s|;
    CrcByBits(a, b);
  }

  /** Messages of up to 4095 bytes: every error in one, two or three bits, anywhere, changes
      the CRC. */
  lemma FewBitErrorDetected(a: seq<bv8>, b: seq<bv8>)
    requires |a| == |b| <= 4095 && CountDifferent(MessageBits(a), MessageBits(b)) in {1, 2, 3}
    ensures Crc(a) != Crc(b)
  {
    if CountDifferent(MessageBits(a), MessageBits(b)) == 2 {
      TwoBitErrorDetected(a, b);
    } else {
      OddErrorDetected(a, b);
    }
  }
}

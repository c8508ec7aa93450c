/** The CRC as a polynomial remainder over GF(2).  Polynomials are bit sequences, the
    coefficient of the highest power first; the divisor is x^16 + x^12 + x^5 + 1. */
module CrcDivision {
  import opened CrcBits
  import opened Crc16
  import opened Crc16Bits
  import opened CrcResidue

  /** One step of long division: drop the leading coefficient, and if it was set,
      subtract the divisor. */
  function Subtract(d: seq<bool>): (e: seq<bool>)
    requires |d| > 16
    ensures |e| == |d| - 1
  {
    seq(|d| - 1, i requires 0 <= i < |d| - 1 => d[i + 1] != (d[0] && i < 16 && Tap(i)))
  }

  function Remainder(d: seq<bool>): Word
    requires |d| >= 16
    decreases |d|
  {
    if |d| == 16 then d else Remainder(Subtract(d))
  }

  function Quotient(d: seq<bool>): (q: seq<bool>)
    requires |d| >= 16
    ensures |q| == |d| - 16
    decreases |d|
  {
    if |d| == 16 then [] else [d[0]] + Quotient(Subtract(d))
  }

  /** The divisor's coefficient at place i of a polynomial that starts with it. */
  predicate Divisor(i: nat) {
    i == 0 || (i <= 16 && Tap(i - 1))
  }

  /** The product of q and the divisor. */
  function TimesDivisor(q: seq<bool>): (p: seq<bool>)
    ensures |p| == |q| + 16
  {
    if q == [] then Zeros(16)
    else
      var rest := TimesDivisor(q[1..]);
      seq(|q| + 16, i requires 0 <= i < |q| + 16 => (q[0] && Divisor(i)) != (i > 0 && rest[i - 1]))
  }

  /** Coefficient i of q, and false outside it. */
  predicate At(q: seq<bool>, i: int) {
    0 <= i < |q| && q[i]
  }

  lemma AtTail(q: seq<bool>, i: int)
    requires q != []
    ensures At(q, i) == if i == 0 then q[0] else At(q[1..], i - 1)
  {
  }

  lemma TimesDivisorStep(q: seq<bool>, i: nat)
    requires q != [] && i < |q| + 16
    ensures TimesDivisor(q)[i] == ((q[0] && Divisor(i)) != (i > 0 && TimesDivisor(q[1..])[i - 1]))
  {
  }

  /** Coefficient i of q times x^16 + x^12 + x^5 + 1: q added to itself moved by 4, 11 and 16
      places. */
  predicate MovedSum(q: seq<bool>, i: int) {
    (At(q, i) != At(q, i - 4)) != (At(q, i - 11) != At(q, i - 16))
  }

  lemma MovedSumStep(q: seq<bool>, i: nat)
    requires q != []
    ensures MovedSum(q, i) == ((q[0] && Divisor(i)) != (i > 0 && MovedSum(q[1..], i - 1)))
  {
    AtTail(q, i);
    AtTail(q, i - 4);
    AtTail(q, i - 11);
    AtTail(q, i - 16);
    Coefficient(q[0], i);
  }

  lemma {:induction false} TimesDivisorAt(q: seq<bool>, i: nat)
    requires i < |q| + 16
    ensures TimesDivisor(q)[i] == MovedSum(q, i)
    decreases |q|
  {
    if q == [] {
      assert TimesDivisor(q) == Zeros(16);
    } else {
      if i > 0 {
        TimesDivisorAt(q[1..], i - 1);
      }
      StepsAgree(q, i);
    }
  }

  lemma StepsAgree(q: seq<bool>, i: nat)
    requires q != [] && i < |q| + 16
    requires i > 0 ==> TimesDivisor(q[1..])[i - 1] == MovedSum(q[1..], i - 1)
    ensures TimesDivisor(q)[i] == MovedSum(q, i)
  {
    TimesDivisorStep(q, i);
    MovedSumStep(q, i);
  }

  lemma Coefficient(a: bool, i: nat)
    ensures (a && Divisor(i)) == (a && (i == 0 || i == 4 || i == 11 || i == 16))
  {
  }

  /** Remainder and Quotient divide: the dividend is quotient times divisor plus remainder. */
  lemma {:induction false} DivisionLaw(d: seq<bool>)
    requires |d| >= 16
    ensures d == XorBits(TimesDivisor(Quotient(d)), Zeros(|d| - 16) + Remainder(d))
    decreases |d|
  {
    if |d| == 16 {
      assert Zeros(0) + d == d;
    } else {
      var e, q := Subtract(d), Quotient(d);
      DivisionLaw(e);
      assert q[1..] == Quotient(e);
      var p, p' := TimesDivisor(q), TimesDivisor(q[1..]);
      var r, r' := Zeros(|d| - 16) + Remainder(d), Zeros(|e| - 16) + Remainder(e);
      forall i | 0 <= i < |d| ensures d[i] == (p[i] != r[i]) {
        if i > 0 {
          assert e[i - 1] == XorBits(p', r')[i - 1];
          assert r[i] == r'[i - 1];
        }
      }
    }
  }

  /** r added to the first sixteen coefficients of e. */
  function AddFront(r: Word, e: seq<bool>): (f: seq<bool>)
    requires |e| >= 16
    ensures |f| == |e|
  {
    seq(|e|, i requires 0 <= i < |e| => e[i] != (i < 16 && r[i]))
  }

  /** The shift register divides: feeding bits to register r leaves the remainder of the
      bits, followed by sixteen zeros, with r added in front. */
  lemma {:induction false} FeedIsRemainder(r: Word, bits: seq<bool>)
    ensures FeedBits(r, bits) == Remainder(AddFront(r, bits + Zeros(16)))
    decreases |bits|
  {
    if bits == [] {
      assert AddFront(r, bits + Zeros(16)) == r;
    } else {
      FeedIsRemainder(Step(r, bits[0]), bits[1..]);
      assert Subtract(AddFront(r, bits + Zeros(16))) == AddFront(Step(r, bits[0]), bits[1..] + Zeros(16));
    }
  }

  /** The dividend of a message: its bits with sixteen zeros behind, and the first sixteen
      of all these coefficients complemented. */
  function Dividend(bits: seq<bool>): (d: seq<bool>)
    ensures |d| == |bits| + 16
  {
    seq(|bits| + 16, i requires 0 <= i < |bits| + 16 => (i < |bits| && bits[i]) != (i < 16))
  }

  lemma DividendIsFront(bits: seq<bool>)
    ensures Dividend(bits) == AddFront(ToBits(START), bits + Zeros(16))
  {
    WordMask();
    AllOnes(START, 16);
  }

  /** The CRC is the complemented remainder of that dividend, and that remainder is one: the
      dividend is a multiple of the divisor plus it. */
  lemma CrcIsRemainder(message: seq<bv8>)
    ensures var d := Dividend(MessageBits(message));
      && ToBits(Crc(message)) == Complement(Remainder(d))
      && d == XorBits(TimesDivisor(Quotient(d)), Zeros(|d| - 16) + Remainder(d))
  {
    var d := Dividend(MessageBits(message));
    DividendIsFront(MessageBits(message));
    RegisterIsFeed(START, message);
    FeedIsRemainder(ToBits(START), MessageBits(message));
    WordMask();
    ComplementBits(Register(START, message), 0xFFFF);
    DivisionLaw(d);
  }

  /** The divisor is x^16 + x^12 + x^5 + 1, coefficient of the highest power first. */
  lemma DivisorCoefficients(i: nat)
    ensures Divisor(i) <==> 16 - i in {16, 12, 5, 0}
  {
  }
}

/** The CRC register as sixteen bits, least significant first, fed one message bit at a
    time: the shift register with taps at x^12, x^5 and x^0 of section C.2 of RFC 1662. */
module CrcBits {
  import opened LinearMachine

  type Word = w: seq<bool> | |w| == 16 witness seq(16, _ => false)

  /** The register places that the leading bit is fed back to. */
  predicate Tap(i: int) {
    i == 3 || i == 10 || i == 15
  }

  /** One message bit enters at place 0 and the register shifts. */
  function Step(r: Word, b: bool): Word {
    var lead := r[0] != b;
    seq(16, i requires 0 <= i < 16 => (i < 15 && r[i + 1]) != (lead && Tap(i)))
  }

  function FeedBits(r: Word, bits: seq<bool>): Word {
    Feed<Word, bool>(Step, r, bits)
  }

  function Zeros(n: nat): (z: seq<bool>)
    ensures |z| == n
  {
    seq(n, _ => false)
  }

  function XorBool(a: bool, b: bool): bool {
    a != b
  }

  function XorBits(a: seq<bool>, b: seq<bool>): (c: seq<bool>)
    requires |a| == |b|
    ensures |c| == |a|
  {
    seq(|a|, i requires 0 <= i < |a| => a[i] != b[i])
  }

  /** r with the bits of w added at its low end. */
  function Enter(r: Word, w: seq<bool>): Word
    requires |w| <= 16
  {
    seq(16, i requires 0 <= i < 16 => r[i] != (i < |w| && w[i]))
  }

  /** Feeding up to sixteen bits one by one is adding them all and then shifting. */
  lemma {:induction false} EnterThenShift(r: Word, w: seq<bool>)
    requires |w| <= 16
    ensures FeedBits(r, w) == FeedBits(Enter(r, w), Zeros(|w|))
    decreases |w|
  {
    if w == [] {
      assert Enter(r, w) == r;
    } else {
      assert Zeros(|w|)[1..] == Zeros(|w| - 1);
      assert Step(Enter(r, w), false) == Enter(Step(r, w[0]), w[1..]);
      EnterThenShift(Step(r, w[0]), w[1..]);
    }
  }
}

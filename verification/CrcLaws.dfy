/** What the CRC detects, for messages of every length. */
module CrcLaws {
  import opened LinearMachine
  import opened CrcBits
  import opened Crc16
  import opened Crc16Bits

  ghost const S: Word := ToBits(START)

  lemma ComplementTwice(x: bv16)
    ensures (x ^ 0xFFFF) ^ 0xFFFF == x
  {
  }

  /** Two CRCs agree exactly when the bit registers do. */
  lemma CrcByBits(a: seq<bv8>, b: seq<bv8>)
    ensures Crc(a) == Crc(b) <==> FeedBits(S, MessageBits(a)) == FeedBits(S, MessageBits(b))
  {
    RegisterIsFeed(START, a);
    RegisterIsFeed(START, b);
    ComplementTwice(Register(START, a));
    ComplementTwice(Register(START, b));
    if FeedBits(S, MessageBits(a)) == FeedBits(S, MessageBits(b)) {
      ToBitsInjective(Register(START, a), Register(START, b));
    }
  }

  lemma StepReversible()
    ensures Reversible<Word, bool>(Step)
  {
    forall r: Word, s: Word, b: bool | Step(r, b) == Step(s, b) ensures r == s {
      assert Step(r, b)[15] == Step(s, b)[15];
      forall i | 0 < i < 16 ensures r[i] == s[i] {
        assert Step(r, b)[i - 1] == Step(s, b)[i - 1];
      }
    }
  }

  // Bursts.

  /** x and y are equal outside the n places from k on. */
  ghost predicate EqualOutside(x: seq<bool>, y: seq<bool>, k: nat, n: nat) {
    |x| == |y| && forall i | 0 <= i < |x| && !(k <= i < k + n) :: x[i] == y[i]
  }

  lemma EqualOutsideExactly(x: seq<bool>, y: seq<bool>, k: nat, n: nat)
    requires |x| == |y| && k + n <= |x|
    ensures EqualOutside(x, y, k, n) <==> x[..k] == y[..k] && x[k + n..] == y[k + n..]
  {
    if x[..k] == y[..k] && x[k + n..] == y[k + n..] {
      forall i | 0 <= i < |x| && !(k <= i < k + n) ensures x[i] == y[i] {
        if i < k {
          assert x[i] == x[..k][i];
        } else {
          assert x[i] == x[k + n..][i - (k + n)];
        }
      }
    }
  }

  /** Different words of up to sixteen bits, fed to the same register and followed by
      the same bits, leave it different. */
  lemma DifferenceSurvives(q: Word, u: seq<bool>, v: seq<bool>, s: seq<bool>)
    requires |u| == |v| <= 16 && FeedBits(FeedBits(q, u), s) == FeedBits(FeedBits(q, v), s)
    ensures u == v
  {
    StepReversible();
    FeedReversible<Word, bool>(Step, FeedBits(q, u), FeedBits(q, v), s);
    EnterThenShift(q, u);
    EnterThenShift(q, v);
    FeedReversible<Word, bool>(Step, Enter(q, u), Enter(q, v), Zeros(|u|));
    EnterInjective(q, u, v);
  }

  lemma EnterInjective(q: Word, u: seq<bool>, v: seq<bool>)
    requires |u| == |v| <= 16 && Enter(q, u) == Enter(q, v)
    ensures u == v
  {
    forall i | 0 <= i < |u| ensures u[i] == v[i] {
      assert Enter(q, u)[i] == Enter(q, v)[i];
    }
  }

  lemma FeedThree(r: Word, p: seq<bool>, u: seq<bool>, s: seq<bool>)
    ensures FeedBits(r, p + u + s) == FeedBits(FeedBits(FeedBits(r, p), u), s)
  {
    FeedConcat<Word, bool>(Step, r, p + u, s);
    FeedConcat<Word, bool>(Step, r, p, u);
  }

  lemma BurstChangesRegister(r: Word, x: seq<bool>, y: seq<bool>, k: nat)
    requires EqualOutside(x, y, k, 16) && x != y
    ensures FeedBits(r, x) != FeedBits(r, y)
  {
    var e := if k + 16 <= |x| then k + 16 else |x|;
    var f := if k <= e then k else e;
    assert x[..f] == y[..f] && x[e..] == y[e..];
    assert x == x[..f] + x[f..e] + x[e..] && y == x[..f] + y[f..e] + x[e..];
    FeedThree(r, x[..f], x[f..e], x[e..]);
    FeedThree(r, x[..f], y[f..e], x[e..]);
    if FeedBits(r, x) == FeedBits(r, y) {
      DifferenceSurvives(FeedBits(r, x[..f]), x[f..e], y[f..e], x[e..]);
    }
  }

  lemma ByteBitsInjective(a: bv8, b: bv8)
    requires ByteBits(a) == ByteBits(b)
    ensures a == b
  {
    WordsLaws();
    ByteIsNarrow(a);
    ByteIsNarrow(b);
    W.LowBitsInjective(WORDS, a as bv16, b as bv16, 8);
  }

  lemma {:induction false} MessageBitsInjective(a: seq<bv8>, b: seq<bv8>)
    requires MessageBits(a) == MessageBits(b)
    ensures a == b
    decreases |a|
  {
    if a == [] {
    } else {
      assert MessageBits(a)[..8] == ByteBits(a[0]) && MessageBits(b)[..8] == ByteBits(b[0]);
      assert MessageBits(a)[8..] == MessageBits(a[1..]) && MessageBits(b)[8..] == MessageBits(b[1..]);
      ByteBitsInjective(a[0], b[0]);
      MessageBitsInjective(a[1..], b[1..]);
    }
  }

  /** Every error confined to sixteen consecutive bits changes the CRC. */
  lemma BurstDetected(a: seq<bv8>, b: seq<bv8>, k: nat)
    requires a != b && EqualOutside(MessageBits(a), MessageBits(b), k, 16)
    ensures Crc(a) != Crc(b)
  {
    if MessageBits(a) == MessageBits(b) {
      MessageBitsInjective(a, b);
    }
    BurstChangesRegister(S, MessageBits(a), MessageBits(b), k);
    CrcByBits(a, b);
  }

  // Parity.

  function Parity(x: seq<bool>): bool {
    if x == [] then false else x[0] != Parity(x[1..])
  }

  function CountDifferent(x: seq<bool>, y: seq<bool>): nat
    requires |x| == |y|
  {
    if x == [] then 0 else (if x[0] != y[0] then 1 else 0) + CountDifferent(x[1..], y[1..])
  }

  ghost function Differing(x: seq<bool>, y: seq<bool>, from: nat): set<nat>
    requires |x| == |y|
  {
    set i: nat | from <= i < |x| && x[i] != y[i]
  }

  /** It is the number of places where the two differ. */
  lemma {:induction false} CountIsCardinality(x: seq<bool>, y: seq<bool>, from: nat)
    requires |x| == |y| && from <= |x|
    ensures CountDifferent(x[from..], y[from..]) == |Differing(x, y, from)|
    decreases |x| - from
  {
    if from == |x| {
      assert Differing(x, y, from) == {};
    } else {
      CountIsCardinality(x, y, from + 1);
      FirstDiffering(x, y, from);
      assert x[from..][1..] == x[from + 1..];
      assert y[from..][1..] == y[from + 1..];
    }
  }

  lemma FirstDiffering(x: seq<bool>, y: seq<bool>, from: nat)
    requires |x| == |y| && from < |x|
    ensures |Differing(x, y, from)| == |Differing(x, y, from + 1)| + if x[from] != y[from] then 1 else 0
  {
    assert Differing(x, y, from) == Differing(x, y, from + 1) + if x[from] != y[from] then {from} else {};
  }

  lemma {:induction false} ParityXor(x: seq<bool>, y: seq<bool>)
    requires |x| == |y|
    ensures Parity(XorBits(x, y)) == (Parity(x) != Parity(y))
  {
    if x == [] {
    } else {
      assert XorBits(x, y)[1..] == XorBits(x[1..], y[1..]);
      ParityXor(x[1..], y[1..]);
    }
  }

  lemma {:induction false} ParityOfDifference(x: seq<bool>, y: seq<bool>)
    requires |x| == |y|
    ensures CountDifferent(x, y) % 2 == 1 <==> Parity(x) != Parity(y)
  {
    if x == [] {
    } else {
      ParityOfDifference(x[1..], y[1..]);
    }
  }

  lemma {:induction false} ParityAppendFalse(x: seq<bool>)
    ensures Parity(x + [false]) == Parity(x)
  {
    if x == [] {
      assert Parity([false]) == (false != Parity([]));
    } else {
      assert (x + [false])[1..] == x[1..] + [false];
      ParityAppendFalse(x[1..]);
    }
  }

  function Taps(lead: bool): Word {
    seq(16, i requires 0 <= i < 16 => lead && Tap(i))
  }

  lemma {:induction false} TapsParityFrom(lead: bool, k: nat)
    requires k <= 16
    ensures Parity(Taps(lead)[k..]) == (lead && (k <= 3 || 10 < k <= 15))
    decreases 16 - k
  {
    if k == 16 {
    } else {
      TapsParityFrom(lead, k + 1);
      assert Taps(lead)[k..][1..] == Taps(lead)[k + 1..];
    }
  }

  /** The parity of the register changes exactly with the bits that enter. */
  lemma StepParity(r: Word, b: bool)
    ensures Parity(Step(r, b)) == (Parity(r) != b)
  {
    var lead := r[0] != b;
    assert Step(r, b) == XorBits(r[1..] + [false], Taps(lead));
    ParityXor(r[1..] + [false], Taps(lead));
    ParityAppendFalse(r[1..]);
    TapsParityFrom(lead, 0);
    assert Taps(lead)[0..] == Taps(lead);
  }

  lemma {:induction false} FeedParity(r: Word, x: seq<bool>)
    ensures Parity(FeedBits(r, x)) == (Parity(r) != Parity(x))
    decreases |x|
  {
    if x == [] {
    } else {
      StepParity(r, x[0]);
      FeedParity(Step(r, x[0]), x[1..]);
    }
  }

  /** Every error in an odd number of bits, anywhere, changes the CRC. */
  lemma OddErrorDetected(a: seq<bv8>, b: seq<bv8>)
    requires |a| == |b| && CountDifferent(MessageBits(a), MessageBits(b)) % 2 == 1
    ensures Crc(a) != Crc(b)
  {
    ParityOfDifference(MessageBits(a), MessageBits(b));
    FeedParity(S, MessageBits(a));
    FeedParity(S, MessageBits(b));
    CrcByBits(a, b);
  }

  // The affine law.

  function XorBytes(a: seq<bv8>, b: seq<bv8>): (c: seq<bv8>)
    requires |a| == |b|
    ensures |c| == |a|
  {
    seq(|a|, i requires 0 <= i < |a| => a[i] ^ b[i])
  }

  function XorWord(a: Word, b: Word): Word {
    XorBits(a, b)
  }

  lemma StepLinear()
    ensures Linear<Word, bool>(Step, XorWord, XorBool)
  {
    forall r: Word, s: Word, a: bool, b: bool
      ensures Step(XorWord(r, s), XorBool(a, b)) == XorWord(Step(r, a), Step(s, b))
    {
      assert Step(XorWord(r, s), XorBool(a, b)) == XorWord(Step(r, a), Step(s, b));
    }
  }

  lemma WidenXor(a: bv8, b: bv8)
    ensures (a ^ b) as bv16 == WORDS.plus(a as bv16, b as bv16)
  {
  }

  lemma ByteBitsXor(a: bv8, b: bv8)
    ensures ByteBits(a ^ b) == Zip(XorBool, ByteBits(a), ByteBits(b))
  {
    WordsAreAdditive();
    WidenXor(a, b);
    W.LowBitsZip(WORDS, a as bv16, b as bv16, (a ^ b) as bv16, 8);
  }

  /** Messages whose bytes are bit-wise sums have bit-wise summed message bits. */
  lemma {:induction false} MessageBitsZip(a: seq<bv8>, b: seq<bv8>, c: seq<bv8>)
    requires |a| == |b| == |c|
    requires forall i | 0 <= i < |a| :: ByteBits(c[i]) == Zip(XorBool, ByteBits(a[i]), ByteBits(b[i]))
    ensures MessageBits(c) == Zip(XorBool, MessageBits(a), MessageBits(b))
    decreases |a|
  {
    if a == [] {
    } else {
      MessageBitsZip(a[1..], b[1..], c[1..]);
      ZipConcat(ByteBits(a[0]), ByteBits(b[0]), MessageBits(a[1..]), MessageBits(b[1..]));
    }
  }

  lemma MessageBitsXor(a: seq<bv8>, b: seq<bv8>)
    requires |a| == |b|
    ensures MessageBits(XorBytes(a, b)) == Zip(XorBool, MessageBits(a), MessageBits(b))
  {
    forall i | 0 <= i < |a|
      ensures ByteBits(XorBytes(a, b)[i]) == Zip(XorBool, ByteBits(a[i]), ByteBits(b[i]))
    {
      ByteBitsXor(a[i], b[i]);
    }
    MessageBitsZip(a, b, XorBytes(a, b));
  }

  lemma ZipConcat(a: seq<bool>, b: seq<bool>, c: seq<bool>, d: seq<bool>)
    requires |a| == |b| && |c| == |d|
    ensures Zip(XorBool, a + c, b + d) == Zip(XorBool, a, b) + Zip(XorBool, c, d)
  {
  }

  lemma RegisterBitsLinear(x: bv16, y: bv16, z: bv16, a: seq<bv8>, b: seq<bv8>, c: seq<bv8>)
    requires |a| == |b| && ToBits(z) == XorBits(ToBits(x), ToBits(y))
    requires MessageBits(c) == Zip(XorBool, MessageBits(a), MessageBits(b))
    ensures ToBits(Register(z, c)) == XorBits(ToBits(Register(x, a)), ToBits(Register(y, b)))
  {
    RegisterIsFeed(x, a);
    RegisterIsFeed(y, b);
    RegisterIsFeed(z, c);
    StepLinear();
    FeedLinear<Word, bool>(Step, XorWord, XorBool, ToBits(x), ToBits(y), MessageBits(a), MessageBits(b));
  }

  lemma RegisterLinear(x: bv16, y: bv16, a: seq<bv8>, b: seq<bv8>)
    requires |a| == |b|
    ensures Register(x ^ y, XorBytes(a, b)) == Register(x, a) ^ Register(y, b)
  {
    MessageBitsXor(a, b);
    ToBitsXor(x, y);
    RegisterBitsLinear(x, y, x ^ y, a, b, XorBytes(a, b));
    SumByBits(Register(x, a), Register(y, b), Register(x ^ y, XorBytes(a, b)));
  }

  lemma SumByBits(u: bv16, v: bv16, w: bv16)
    requires ToBits(w) == XorBits(ToBits(u), ToBits(v))
    ensures w == u ^ v
  {
    ToBitsXor(u, v);
    ToBitsInjective(w, u ^ v);
  }

  lemma Complements(s: bv16, a: bv16, b: bv16, c: bv16)
    ensures (s ^ s) ^ s == s
    ensures ((a ^ 0xFFFF) ^ (b ^ 0xFFFF)) ^ (c ^ 0xFFFF) == ((a ^ b) ^ c) ^ 0xFFFF
  {
  }

  /** For messages of equal length the CRC of the exclusive or of three is the exclusive
      or of their CRCs. */
  lemma CrcAffine(a: seq<bv8>, b: seq<bv8>, c: seq<bv8>)
    requires |a| == |b| == |c|
    ensures (Crc(a) ^ Crc(b)) ^ Crc(c) == Crc(XorBytes(XorBytes(a, b), c))
  {
    RegisterLinear(START, START, a, b);
    RegisterLinear(START ^ START, START, XorBytes(a, b), c);
    Complements(START, Register(START, a), Register(START, b), Register(START, c));
  }
}

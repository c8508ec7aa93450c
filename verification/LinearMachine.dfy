/** Machines that consume their input one symbol at a time, over any state type: what
    linearity and reversibility of one step say about whole inputs. */
module LinearMachine {

  function Feed<S, B>(step: (S, B) -> S, s: S, input: seq<B>): S
    decreases |input|
  {
    if input == [] then s else Feed(step, step(s, input[0]), input[1..])
  }

  /** Symbol-wise sum of two inputs of the same length. */
  function Zip<B>(add: (B, B) -> B, a: seq<B>, b: seq<B>): (c: seq<B>)
    requires |a| == |b|
    ensures |c| == |a|
  {
    seq(|a|, i requires 0 <= i < |a| => add(a[i], b[i]))
  }

  ghost predicate Linear<S(!new), B(!new)>(step: (S, B) -> S, plus: (S, S) -> S, add: (B, B) -> B) {
    forall r, s, a, b :: step(plus(r, s), add(a, b)) == plus(step(r, a), step(s, b))
  }

  ghost predicate Reversible<S(!new), B(!new)>(step: (S, B) -> S) {
    forall r, s, a :: step(r, a) == step(s, a) ==> r == s
  }

  lemma {:induction false} FeedConcat<S, B>(step: (S, B) -> S, s: S, a: seq<B>, b: seq<B>)
    ensures Feed(step, s, a + b) == Feed(step, Feed(step, s, a), b)
    decreases |a|
  {
    if a == [] {
      assert a + b == b;
    } else {
      assert (a + b)[1..] == a[1..] + b;
      FeedConcat(step, step(s, a[0]), a[1..], b);
    }
  }

  lemma {:induction false} FeedLinear<S(!new), B(!new)>(step: (S, B) -> S, plus: (S, S) -> S,
                                                        add: (B, B) -> B, r: S, s: S, a: seq<B>, b: seq<B>)
    requires Linear(step, plus, add) && |a| == |b|
    ensures Feed(step, plus(r, s), Zip(add, a, b)) == plus(Feed(step, r, a), Feed(step, s, b))
    decreases |a|
  {
    if a == [] {
    } else {
      assert Zip(add, a, b)[1..] == Zip(add, a[1..], b[1..]);
      FeedLinear(step, plus, add, step(r, a[0]), step(s, b[0]), a[1..], b[1..]);
    }
  }

  /** The same input takes different states to different states. */
  lemma {:induction false} FeedReversible<S(!new), B(!new)>(step: (S, B) -> S, r: S, s: S, a: seq<B>)
    requires Reversible(step) && Feed(step, r, a) == Feed(step, s, a)
    ensures r == s
    decreases |a|
  {
    if a == [] {
    } else {
      FeedReversible(step, step(r, a[0]), step(s, a[0]), a[1..]);
    }
  }

  /** Machines whose steps agree end in the same state on every input. */
  lemma {:induction false} FeedSame<S(!new), B(!new)>(step: (S, B) -> S, step': (S, B) -> S, s: S, input: seq<B>)
    requires forall s, b :: step(s, b) == step'(s, b)
    ensures Feed(step, s, input) == Feed(step', s, input)
    decreases |input|
  {
    if input == [] {
    } else {
      FeedSame(step, step', step(s, input[0]), input[1..]);
    }
  }
}

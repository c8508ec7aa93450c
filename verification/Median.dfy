/** What a median is, independently of any way of computing it. */
module Median {

  function Min(a: int, b: int): int {
    if a <= b then a else b
  }

  function Max(a: int, b: int): int {
    if a <= b then b else a
  }

  /** How many entries of s are at most t. */
  function CountAtMost(s: seq<int>, t: int): nat {
    if s == [] then 0
    else (if s[0] <= t then 1 else 0) + CountAtMost(s[1..], t)
  }

  /** How many entries of s lie in the interval from lo to hi. */
  function CountWithin(s: seq<int>, lo: int, hi: int): nat {
    if s == [] then 0
    else (if lo <= s[0] <= hi then 1 else 0) + CountWithin(s[1..], lo, hi)
  }

  ghost predicate Sorted(s: seq<int>) {
    forall i, j :: 0 <= i < j < |s| ==> s[i] <= s[j]
  }

  /** Exactly: no value is above its successor. */
  lemma SortedExactly(s: seq<int>)
    ensures Sorted(s) <==> forall i | 0 < i < |s| :: s[i - 1] <= s[i]
  {
    if forall i | 0 < i < |s| :: s[i - 1] <= s[i] {
      forall i, j | 0 <= i < j < |s| ensures s[i] <= s[j] {
        StepsAdd(s, i, j);
      }
    }
  }

  lemma {:induction false} StepsAdd(s: seq<int>, i: nat, j: nat)
    requires i <= j < |s| && forall k | 0 < k < |s| :: s[k - 1] <= s[k]
    ensures s[i] <= s[j]
    decreases j
  {
    if i < j {
      StepsAdd(s, i, j - 1);
      assert s[j - 1] <= s[j];
    }
  }

  /** m is below a threshold exactly when at least five of the nine values are. */
  ghost predicate IsMedianOfNine(m: int, s: seq<int>) {
    forall t :: m <= t <==> CountAtMost(s, t) >= 5
  }

  lemma MedianUnique(s: seq<int>, m: int, m': int)
    requires IsMedianOfNine(m, s) && IsMedianOfNine(m', s)
    ensures m == m'
  {
    assert m <= m <==> CountAtMost(s, m) >= 5;
    assert m' <= m' <==> CountAtMost(s, m') >= 5;
  }

  lemma {:induction false} CountBound(s: seq<int>, t: int)
    ensures CountAtMost(s, t) <= |s|
  {
    if s == [] {
    } else {
      CountBound(s[1..], t);
    }
  }

  lemma {:induction false} CountConcat(a: seq<int>, b: seq<int>, t: int)
    ensures CountAtMost(a + b, t) == CountAtMost(a, t) + CountAtMost(b, t)
  {
    if a == [] {
      assert a + b == b;
    } else {
      assert (a + b)[1..] == a[1..] + b;
      CountConcat(a[1..], b, t);
    }
  }

  function Without(s: seq<int>, k: nat): seq<int>
    requires k < |s|
  {
    s[..k] + s[k + 1..]
  }

  lemma CountWithout(s: seq<int>, k: nat, t: int)
    requires k < |s|
    ensures multiset(Without(s, k)) == multiset(s) - multiset{s[k]}
    ensures CountAtMost(s, t) == (if s[k] <= t then 1 else 0) + CountAtMost(Without(s, k), t)
  {
    var tail := [s[k]] + s[k + 1..];
    assert s == s[..k] + tail;
    assert tail[1..] == s[k + 1..];
    CountConcat(s[..k], tail, t);
    CountConcat(s[..k], s[k + 1..], t);
  }

  /** Counting does not depend on the order of the values. */
  lemma {:induction false} CountPermutation(a: seq<int>, b: seq<int>, t: int)
    requires multiset(a) == multiset(b)
    ensures CountAtMost(a, t) == CountAtMost(b, t)
    decreases |a|
  {
    assert |multiset(a)| == |a| && |multiset(b)| == |b|;
    if a == [] {
    } else {
      assert a[0] in multiset(b);
      var k :| 0 <= k < |b| && b[k] == a[0];
      CountWithout(a, 0, t);
      CountWithout(b, k, t);
      CountPermutation(Without(a, 0), Without(b, k), t);
    }
  }

  /** Raising values can only lower a count: values at most e above others. */
  lemma {:induction false} CountMonotone(a: seq<int>, b: seq<int>, e: int, t: int)
    requires |a| == |b| && forall i :: 0 <= i < |a| ==> a[i] <= b[i] + e
    ensures CountAtMost(b, t) <= CountAtMost(a, t + e)
  {
    if a == [] {
    } else {
      CountMonotone(a[1..], b[1..], e, t);
    }
  }

  /** In a sorted sequence the first k + 1 entries are exactly the small ones. */
  lemma {:induction false} CountSorted(s: seq<int>, k: nat, t: int)
    requires Sorted(s) && k < |s|
    ensures s[k] <= t <==> CountAtMost(s, t) >= k + 1
    decreases k
  {
    if s[0] > t {
      NoneAtMost(s, t);
    } else if k == 0 {
    } else {
      CountSorted(s[1..], k - 1, t);
    }
  }

  lemma {:induction false} NoneAtMost(s: seq<int>, t: int)
    requires forall i :: 0 <= i < |s| ==> s[i] > t
    ensures CountAtMost(s, t) == 0
  {
    if s == [] {
    } else {
      NoneAtMost(s[1..], t);
    }
  }

  /** A median is the middle element of every sorted arrangement of the values, and
      the middle element of a sorted arrangement is a median. */
  lemma MedianIsMiddleOfSorted(m: int, s: seq<int>, sorted: seq<int>)
    requires |s| == 9 && Sorted(sorted) && multiset(s) == multiset(sorted)
    ensures |sorted| == 9 && (IsMedianOfNine(m, s) <==> m == sorted[4])
  {
    assert |multiset(s)| == |s| && |multiset(sorted)| == |sorted|;
    forall t ensures sorted[4] <= t <==> CountAtMost(s, t) >= 5 {
      CountPermutation(s, sorted, t);
      CountSorted(sorted, 4, t);
    }
    if IsMedianOfNine(m, s) {
      assert m <= m <==> CountAtMost(s, m) >= 5;
      assert m <= sorted[4] <==> CountAtMost(s, sorted[4]) >= 5;
    }
  }

  lemma {:induction false} CountWithinSplit(s: seq<int>, lo: int, hi: int)
    requires lo <= hi
    ensures CountWithin(s, lo, hi) == CountAtMost(s, hi) - CountAtMost(s, lo - 1)
  {
    if s == [] {
    } else {
      CountWithinSplit(s[1..], lo, hi);
    }
  }

  /** At most four outliers cannot move the median out of an interval. */
  lemma MedianRobust(m: int, s: seq<int>, lo: int, hi: int)
    requires IsMedianOfNine(m, s) && |s| == 9
    requires lo <= hi && CountWithin(s, lo, hi) >= 5
    ensures lo <= m <= hi
  {
    CountWithinSplit(s, lo, hi);
    CountBound(s, hi);
    assert m <= hi <==> CountAtMost(s, hi) >= 5;
    assert m <= lo - 1 <==> CountAtMost(s, lo - 1) >= 5;
  }

  /** The median is monotone in each of the nine values (e = 0), and never moves further
      than the values do. */
  lemma MedianMonotone(m: int, s: seq<int>, m': int, s': seq<int>, e: int)
    requires IsMedianOfNine(m, s) && IsMedianOfNine(m', s')
    requires |s| == |s'| && forall i :: 0 <= i < |s| ==> s[i] <= s'[i] + e
    ensures m <= m' + e
  {
    CountMonotone(s, s', e, m');
    assert m' <= m' <==> CountAtMost(s', m') >= 5;
    assert m <= m' + e <==> CountAtMost(s, m' + e) >= 5;
  }
}

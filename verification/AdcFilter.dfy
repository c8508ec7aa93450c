/** The integer low-pass filter of io_adc_task: (3 * F + A) >> 2 with an arithmetic
    shift, which rounds towards minus infinity. */
module AdcFilter {
  function FilterStep(f: int, a: int): int {
    (3 * f + a) / 4
  }

  /** k steps under the constant input a. */
  function Settle(f: int, a: int, k: nat): int {
    if k == 0 then f else FilterStep(Settle(f, a, k - 1), a)
  }

  /** Where a constant input leaves the filter: exactly on it from above, up to three
      counts short of it from below. */
  function Limit(f: int, a: int): int {
    if f >= a then a
    else if f >= a - 3 then f
    else a - 3
  }

  function Distance(x: int, y: int): nat {
    if x <= y then y - x else x - y
  }

  function Pow(b: nat, k: nat): nat {
    if k == 0 then 1 else b * Pow(b, k - 1)
  }

  /** A step is the weighted mean of three parts state and one part input, rounded down. */
  lemma StepIsWeightedMean(f: int, a: int)
    ensures 0 <= 3 * f + a - 4 * FilterStep(f, a) <= 3
  {
  }

  /** A step stays between state and input, so 16 bits never overflow. */
  lemma StepStaysBetween(f: int, a: int, lo: int, hi: int)
    requires lo <= f <= hi && lo <= a <= hi
    ensures lo <= FilterStep(f, a) <= hi
  {
  }

  /** A step is monotone (e = 0), and never moves further than its arguments do. */
  lemma StepMonotone(f: int, a: int, f': int, a': int, e: int)
    requires f <= f' + e && a <= a' + e
    ensures FilterStep(f, a) <= FilterStep(f', a') + e
  {
  }

  /** A state is stationary exactly within three counts below the input. */
  lemma StationaryExactly(f: int, a: int)
    ensures FilterStep(f, a) == f <==> a - 3 <= f <= a
  {
  }

  /** Under constant input the state keeps its side of the limit and, until it is
      there, comes at least one count closer with every step. */
  lemma {:induction false} SettleApproaches(f: int, a: int, k: nat)
    ensures Limit(Settle(f, a, k), a) == Limit(f, a)
    ensures f >= a ==> Settle(f, a, k) >= Limit(f, a)
    ensures f < a ==> Settle(f, a, k) <= Limit(f, a)
    ensures Distance(Settle(f, a, k), Limit(f, a)) <= Max0(Distance(f, Limit(f, a)) - k)
  {
    if k == 0 {
    } else {
      SettleApproaches(f, a, k - 1);
      StationaryExactly(Settle(f, a, k - 1), a);
    }
  }

  function Max0(x: int): nat {
    if x < 0 then 0 else x
  }

  /** So it reaches the limit in finitely many steps and stays there. */
  lemma SettlesExactly(f: int, a: int, k: nat)
    requires k >= Distance(f, Limit(f, a))
    ensures Settle(f, a, k) == Limit(f, a)
  {
    SettleApproaches(f, a, k);
  }

  /** The approach is geometric with ratio 3/4, up to the three counts. */
  lemma {:induction false} SettlesGeometrically(f: int, a: int, k: nat)
    ensures Pow(4, k) * (Distance(Settle(f, a, k), a) - 3) <= Pow(3, k) * (Distance(f, a) - 3)
  {
    if k == 0 {
    } else {
      SettlesGeometrically(f, a, k - 1);
      var g := Settle(f, a, k - 1);
      StepContracts(g, a);
      ScaleStep(Pow(4, k - 1), Pow(3, k - 1), Distance(FilterStep(g, a), a) - 3,
                Distance(g, a) - 3, Distance(f, a) - 3);
    }
  }

  lemma ScaleStep(p: nat, q: nat, d': int, d: int, d0: int)
    requires 4 * d' <= 3 * d && p * d <= q * d0
    ensures (4 * p) * d' <= (3 * q) * d0
  {
  }

  lemma StepContracts(f: int, a: int)
    ensures 4 * (Distance(FilterStep(f, a), a) - 3) <= 3 * (Distance(f, a) - 3)
  {
  }
}

/** Laws of the temperature lookup over the whole range of counts. */
module NtcLaws {
  import opened CTypes
  import opened NtcLookup

  /** The segment that brackets a count is unique, so any search that finds one finds
      the one the scan finds. */
  lemma BracketIsUnique(c: Curve, adc: uint16, l: nat)
    requires Descending(c) && InSegment(c, adc, l)
    ensures c.counts[0] >= adc && Scan(c.counts, adc, 0) == l
    ensures forall i :: 0 <= i < |c.counts| ==> (c.counts[i] >= adc <==> i <= l)
  {
  }

  /** Every temperature read lies between the first and the last of the table. */
  lemma LookupInRange(c: Curve, adc: uint16)
    requires Descending(c) && Lookup(c, adc).Celsius?
    ensures c.start <= Lookup(c, adc).t <= TempAt(c, |c.counts| - 1)
  {
    var last := |c.counts| - 1;
    TempAtMonotone(c, 0, last);
    if c.counts[last] < adc < c.counts[0] {
      var l := Scan(c.counts, adc, 0);
      SegmentBounds(c, adc, l);
      TempAtMonotone(c, 0, l);
      TempAtMonotone(c, l + 1, last);
    }
  }

  lemma TempAtMonotone(c: Curve, i: int, j: int)
    requires c.step >= 1 && i <= j
    ensures TempAt(c, i) <= TempAt(c, j)
    ensures i < j ==> TempAt(c, i) < TempAt(c, j)
  {
  }

  /** Exactly: the table has one to 166 entries and rising temperatures of 16 bits. */
  lemma WellScaledExactly(c: Curve)
    ensures WellScaled(c) <==>
      && 1 <= |c.counts| <= 166 && c.step > 0
      && forall i: nat | i < |c.counts| :: -32768 <= TempAt(c, i) <= 32767
  {
    if 1 <= |c.counts| && c.step > 0 {
      assert TempAt(c, 0) == c.start;
      forall i: nat | i < |c.counts| ensures TempAt(c, 0) <= TempAt(c, i) <= TempAt(c, |c.counts| - 1) {
        TempAtMonotone(c, 0, i);
        TempAtMonotone(c, i, |c.counts| - 1);
      }
    }
  }

  /** Every entry is at least d above its successor. */
  predicate StepsDown(counts: seq<uint16>, d: nat) {
    forall i | 0 < i < |counts| :: counts[i - 1] >= counts[i] + d
  }

  lemma {:induction false} StepsAdd(counts: seq<uint16>, d: nat, i: nat, j: nat)
    requires StepsDown(counts, d) && i < j < |counts|
    ensures counts[i] >= counts[j] + d
    decreases j
  {
    if i + 1 < j {
      StepsAdd(counts, d, i, j - 1);
    }
    assert counts[j - 1] >= counts[j] + d;
  }

  /** A table falls, or falls strictly, exactly when every entry and its successor do. */
  lemma FallsExactly(counts: seq<uint16>)
    ensures NonIncreasing(counts) <==> StepsDown(counts, 0)
    ensures StrictlyDecreasing(counts) <==> StepsDown(counts, 1)
  {
    forall i, j, d: nat | 0 <= i < j < |counts| && StepsDown(counts, d) ensures counts[i] >= counts[j] + d {
      StepsAdd(counts, d, i, j);
    }
  }

  /** Exactly the counts outside the table read as Over or Under. */
  lemma OutOfRangeExactly(c: Curve, adc: uint16)
    requires Descending(c)
    ensures Lookup(c, adc).Over? <==> adc < c.counts[|c.counts| - 1]
    ensures Lookup(c, adc).Under? <==> adc > c.counts[0]
  {
  }

  /** The reading never rises with the count: across exact entries, segments,
      plateaus and both ends of the table. */
  lemma LookupAntitone(c: Curve, lo: uint16, hi: uint16)
    requires Descending(c) && lo <= hi
    ensures NotColder(Lookup(c, lo), Lookup(c, hi))
  {
    var last := |c.counts| - 1;
    if Lookup(c, lo).Celsius? && Lookup(c, hi).Celsius? {
      LookupInRange(c, lo);
      LookupInRange(c, hi);
      if c.counts[last] < lo && hi < c.counts[0] {
        var l, m := Scan(c.counts, lo, 0), Scan(c.counts, hi, 0);
        BracketIsUnique(c, lo, l);
        SegmentBounds(c, lo, l);
        SegmentBounds(c, hi, m);
        if l == m {
          SegmentAntitone(c, lo, hi, l);
        } else {
          TempAtMonotone(c, m + 1, l);
        }
      }
    }
  }

  /** The reading is within half a degree of the exact interpolation of its bracket. */
  lemma LookupIsNearest(c: Curve, adc: uint16, l: nat)
    requires Descending(c) && InSegment(c, adc, l) && adc < c.counts[0]
    ensures Lookup(c, adc).Celsius?
    ensures -0.5 <= Lookup(c, adc).t as real - IdealTemp(c, adc, l) < 0.5
  {
    BracketIsUnique(c, adc, l);
    SegmentIsNearest(c, adc, l);
    assert c.counts[|c.counts| - 1] <= c.counts[l + 1];
  }

  // Looking up the table's own entries.

  /** The last index holding the same entry as index i. */
  function PlateauEnd(counts: seq<uint16>, i: nat): nat
    requires i < |counts|
  {
    Scan(counts, counts[i], i)
  }

  /** Which index the lookup of entry i answers for: the end of its plateau, except
      that a plateau that starts the table, but does not fill it, answers for 0. */
  function AnsweredIndex(counts: seq<uint16>, i: nat): nat
    requires i < |counts|
  {
    if counts[i] == counts[0] && counts[i] != counts[|counts| - 1] then 0
    else PlateauEnd(counts, i)
  }

  lemma PlateauEndsAt(counts: seq<uint16>, i: nat)
    requires NonIncreasing(counts) && i < |counts|
    ensures var k := PlateauEnd(counts, i);
            i <= k < |counts| && counts[k] == counts[i] && (k + 1 < |counts| ==> counts[k + 1] < counts[i])
  {
  }

  /** What every entry of every descending table reads as. */
  lemma LookupOfEntry(c: Curve, i: nat)
    requires Descending(c) && i < |c.counts|
    ensures Lookup(c, c.counts[i]) == Celsius(TempAt(c, AnsweredIndex(c.counts, i)))
  {
    var adc, last := c.counts[i], |c.counts| - 1;
    var k := PlateauEnd(c.counts, i);
    PlateauEndsAt(c.counts, i);
    if adc == c.counts[last] {
      assert k == last;
    } else if adc != c.counts[0] {
      assert k < last;
      BracketIsUnique(c, adc, k);
      SegmentBounds(c, adc, k);
    }
  }

  /** Entry i reads back as its own temperature exactly when it ends its plateau and is
      not a later member of a plateau that starts, without filling, the table. */
  lemma RoundTripExactly(c: Curve, i: nat)
    requires Descending(c) && i < |c.counts|
    ensures Lookup(c, c.counts[i]) == Celsius(TempAt(c, i)) <==>
            (i == 0 && c.counts[0] != c.counts[|c.counts| - 1])
            || (c.counts[i] != c.counts[0] && i + 1 < |c.counts| && c.counts[i + 1] < c.counts[i])
            || i + 1 == |c.counts|
  {
    LookupOfEntry(c, i);
    PlateauEndsAt(c.counts, i);
    var k := AnsweredIndex(c.counts, i);
    if k < i {
      TempAtMonotone(c, k, i);
    } else if i < k {
      TempAtMonotone(c, i, k);
    }
  }

  /** In particular every entry of a strictly decreasing table reads back. */
  lemma RoundTrip(c: Curve, i: nat)
    requires WellScaled(c) && StrictlyDecreasing(c.counts) && i < |c.counts|
    ensures Lookup(c, c.counts[i]) == Celsius(TempAt(c, i))
  {
    RoundTripExactly(c, i);
  }
}

/** What the ADC task reports after any history of conversions. */
module AdcRun {
  import opened CTypes
  import opened Median
  import opened MedianNetwork
  import opened AdcFilter
  import opened NtcLookup
  import opened NtcLaws

  const MEASUREMENTS: nat := 9

  /** Where sample k of channel ch lies in the interleaved buffer. */
  function Address(channels: nat, ch: nat, k: nat): nat {
    ch + k * channels
  }

  /** The addresses of all channels tile the buffer: each place belongs to exactly one
      sample of one channel. */
  lemma AddressesTile(channels: nat, address: nat)
    requires channels >= 1 && address < MEASUREMENTS * channels
    ensures address % channels < channels && address / channels < MEASUREMENTS
    ensures forall ch: nat, k: nat | ch < channels ::
      Address(channels, ch, k) == address <==> ch == address % channels && k == address / channels
  {
    DivBounds(address, channels);
    MulLt(channels, address / channels, MEASUREMENTS);
    forall ch: nat, k: nat | ch < channels
      ensures Address(channels, ch, k) == address <==> ch == address % channels && k == address / channels
    {
      if Address(channels, ch, k) == address {
        assert (k + 1) * channels == k * channels + channels;
        MulLt(channels, k, address / channels + 1);
        MulLt(channels, address / channels, k + 1);
      }
    }
  }

  lemma AddressInBuffer(channels: nat, ch: nat, k: nat)
    requires ch < channels && k < MEASUREMENTS
    ensures Address(channels, ch, k) < MEASUREMENTS * channels
  {
  }

  /** The nine samples of one channel in one read. */
  function Samples(buffer: seq<int16>, channels: nat, ch: nat): (s: seq<int>)
    requires |buffer| == MEASUREMENTS * channels && ch < channels
    ensures |s| == MEASUREMENTS
  {
    seq(MEASUREMENTS, k requires 0 <= k < MEASUREMENTS =>
      (AddressInBuffer(channels, ch, k); buffer[Address(channels, ch, k)] as int))
  }

  /** Every place of the buffer is the sample of its channel and number. */
  lemma EveryPlaceSampled(buffer: seq<int16>, channels: nat, j: nat)
    requires |buffer| == MEASUREMENTS * channels && j < |buffer|
    ensures channels > 0 && j % channels < channels && j / channels < MEASUREMENTS
    ensures Samples(buffer, channels, j % channels)[j / channels] == buffer[j]
  {
    AddressesTile(channels, j);
    assert Address(channels, j % channels, j / channels) == j;
  }

  ghost predicate Reads(h: seq<seq<int16>>, channels: nat) {
    forall i | 0 <= i < |h| :: |h[i]| == MEASUREMENTS * channels
  }

  /** The filter of one channel after a history of reads: it starts at the first median. */
  ghost function FilterAfter(h: seq<seq<int16>>, channels: nat, ch: nat): int
    requires |h| >= 1 && Reads(h, channels) && ch < channels
  {
    var last := |h| - 1;
    var median := MedianOf(Samples(h[last], channels, ch));
    if last == 0 then median
    else FilterStep(FilterAfter(h[..last], channels, ch), median)
  }

  /** The reading of a filter state: it is converted to uint16_t by the call. */
  function ReadingOf(c: Curve, f: int): Reading
    requires WellScaled(c)
  {
    Lookup(c, ToUint16(f))
  }

  // Whole runs.

  /** In every read at least five of the channel's nine samples lie in [lo, hi]. */
  ghost predicate MostlyWithin(h: seq<seq<int16>>, channels: nat, ch: nat, lo: int, hi: int)
    requires Reads(h, channels) && ch < channels
  {
    forall i | 0 <= i < |h| :: CountWithin(Samples(h[i], channels, ch), lo, hi) >= 5
  }

  /** Which of a channel's nine samples in a raw read lie in [lo, hi]. */
  ghost function InRange(read: seq<int16>, channels: nat, ch: nat, lo: int, hi: int): set<nat> {
    set k: nat | k < 9 && ch + k * channels < |read| && lo <= read[ch + k * channels] <= hi
  }

  ghost function Hits(s: seq<int>, from: nat, lo: int, hi: int): set<nat> {
    set k: nat | from <= k < |s| && lo <= s[k] <= hi
  }

  lemma {:induction false} CountIsCardinality(s: seq<int>, from: nat, lo: int, hi: int)
    requires from <= |s|
    ensures CountWithin(s[from..], lo, hi) == |Hits(s, from, lo, hi)|
    decreases |s| - from
  {
    if from == |s| {
      assert Hits(s, from, lo, hi) == {};
    } else {
      CountIsCardinality(s, from + 1, lo, hi);
      assert s[from..][1..] == s[from + 1..];
      if lo <= s[from] <= hi {
        assert Hits(s, from, lo, hi) == {from} + Hits(s, from + 1, lo, hi);
      } else {
        assert Hits(s, from, lo, hi) == Hits(s, from + 1, lo, hi);
      }
    }
  }

  /** MostlyWithin in terms of the raw reads. */
  lemma MostlyWithinExactly(h: seq<seq<int16>>, channels: nat, ch: nat, lo: int, hi: int)
    requires Reads(h, channels) && ch < channels
    ensures MostlyWithin(h, channels, ch, lo, hi)
            <==> forall i | 0 <= i < |h| :: |InRange(h[i], channels, ch, lo, hi)| >= 5
  {
    forall i | 0 <= i < |h|
      ensures CountWithin(Samples(h[i], channels, ch), lo, hi) == |InRange(h[i], channels, ch, lo, hi)|
    {
      CountInRange(h[i], channels, ch, lo, hi);
    }
  }

  lemma CountInRange(read: seq<int16>, channels: nat, ch: nat, lo: int, hi: int)
    requires |read| == MEASUREMENTS * channels && ch < channels
    ensures CountWithin(Samples(read, channels, ch), lo, hi) == |InRange(read, channels, ch, lo, hi)|
  {
    var s := Samples(read, channels, ch);
    CountIsCardinality(s, 0, lo, hi);
    assert s[0..] == s;
    forall k: nat | k < 9 ensures ch + k * channels < |read| && s[k] == read[ch + k * channels] {
      AddressInBuffer(channels, ch, k);
    }
    assert Hits(s, 0, lo, hi) == InRange(read, channels, ch, lo, hi);
  }

  /** Up to four arbitrary outliers in every read never move the filter out of [lo, hi]. */
  lemma {:induction false} FilterRobust(h: seq<seq<int16>>, channels: nat, ch: nat, lo: int, hi: int)
    requires |h| >= 1 && Reads(h, channels) && ch < channels && lo <= hi
    requires MostlyWithin(h, channels, ch, lo, hi)
    ensures lo <= FilterAfter(h, channels, ch) <= hi
    decreases |h|
  {
    var last := |h| - 1;
    var s := Samples(h[last], channels, ch);
    MedianRobust(MedianOf(s), s, lo, hi);
    if last == 0 {
    } else {
      assert MostlyWithin(h[..last], channels, ch, lo, hi);
      FilterRobust(h[..last], channels, ch, lo, hi);
      StepStaysBetween(FilterAfter(h[..last], channels, ch), MedianOf(s), lo, hi);
    }
  }

  /** The same of the raw reads: five of the nine places of a channel in [lo, hi]. */
  lemma FilterRobustRaw(h: seq<seq<int16>>, channels: nat, ch: nat, lo: int, hi: int)
    requires |h| >= 1 && Reads(h, channels) && ch < channels && lo <= hi
    requires forall i | 0 <= i < |h| :: |InRange(h[i], channels, ch, lo, hi)| >= 5
    ensures lo <= FilterAfter(h, channels, ch) <= hi
  {
    MostlyWithinExactly(h, channels, ch, lo, hi);
    FilterRobust(h, channels, ch, lo, hi);
  }

  /** The filter state always fits its 16-bit variable. */
  lemma {:induction false} FilterFits(h: seq<seq<int16>>, channels: nat, ch: nat)
    requires |h| >= 1 && Reads(h, channels) && ch < channels
    ensures -0x8000 <= FilterAfter(h, channels, ch) < 0x8000
  {
    forall i | 0 <= i < |h| ensures CountWithin(Samples(h[i], channels, ch), -0x8000, 0x7FFF) >= 5 {
      CountAllWithin(Samples(h[i], channels, ch), -0x8000, 0x7FFF);
    }
    FilterRobust(h, channels, ch, -0x8000, 0x7FFF);
  }

  lemma {:induction false} CountAllWithin(s: seq<int>, lo: int, hi: int)
    requires forall i | 0 <= i < |s| :: lo <= s[i] <= hi
    ensures CountWithin(s, lo, hi) == |s|
  {
    if s == [] {
    } else {
      CountAllWithin(s[1..], lo, hi);
    }
  }

  /** Robustness end to end: when lo and hi are counts inside the table, every reading
      is a temperature between the readings of hi and of lo. */
  lemma ReadingRobust(c: Curve, h: seq<seq<int16>>, channels: nat, ch: nat, lo: uint16, hi: uint16)
    requires Descending(c) && |h| >= 1 && Reads(h, channels) && ch < channels
    requires c.counts[|c.counts| - 1] <= lo <= hi <= c.counts[0]
    requires MostlyWithin(h, channels, ch, lo, hi)
    ensures var r := ReadingOf(c, FilterAfter(h, channels, ch));
      && r.Celsius? && Lookup(c, lo).Celsius? && Lookup(c, hi).Celsius?
      && Lookup(c, hi).t <= r.t <= Lookup(c, lo).t
  {
    FilterRobust(h, channels, ch, lo, hi);
    FilterFits(h, channels, ch);
    var f := FilterAfter(h, channels, ch);
    ReadingOfCount(c, f);
    LookupAntitone(c, lo, f);
    LookupAntitone(c, f, hi);
  }

  /** One history is nowhere more than e above the other. */
  ghost predicate Below(h: seq<seq<int16>>, h': seq<seq<int16>>, e: int) {
    && |h| == |h'|
    && forall i | 0 <= i < |h| :: |h[i]| == |h'[i]| && forall j | 0 <= j < |h[i]| :: h[i][j] <= h'[i][j] + e
  }

  /** Then its filter state is not either: the filter is monotone in every sample ever
      taken, and never moves further than the samples do. */
  lemma {:induction false} FilterMonotone(h: seq<seq<int16>>, h': seq<seq<int16>>, channels: nat, ch: nat, e: int)
    requires |h| >= 1 && Reads(h, channels) && Reads(h', channels) && ch < channels && Below(h, h', e)
    ensures FilterAfter(h, channels, ch) <= FilterAfter(h', channels, ch) + e
    decreases |h|
  {
    var last := |h| - 1;
    LastMedianMonotone(h, h', channels, ch, e);
    if last == 0 {
    } else {
      FilterMonotone(h[..last], h'[..last], channels, ch, e);
      StepMonotone(FilterAfter(h[..last], channels, ch), MedianOf(Samples(h[last], channels, ch)),
                   FilterAfter(h'[..last], channels, ch), MedianOf(Samples(h'[last], channels, ch)), e);
    }
  }

  lemma LastMedianMonotone(h: seq<seq<int16>>, h': seq<seq<int16>>, channels: nat, ch: nat, e: int)
    requires |h| >= 1 && Reads(h, channels) && Reads(h', channels) && ch < channels && Below(h, h', e)
    ensures var last := |h| - 1;
      MedianOf(Samples(h[last], channels, ch)) <= MedianOf(Samples(h'[last], channels, ch)) + e
  {
    var last := |h| - 1;
    var s, s' := Samples(h[last], channels, ch), Samples(h'[last], channels, ch);
    forall k | 0 <= k < MEASUREMENTS ensures s[k] <= s'[k] + e {
      AddressInBuffer(channels, ch, k);
    }
    MedianMonotone(MedianOf(s), s, MedianOf(s'), s', e);
  }

  /** Monotonicity end to end: of two histories, the lower of which does not leave the
      filter negative, the one with the greater counts does not read hotter. */
  lemma ReadingAntitone(c: Curve, h: seq<seq<int16>>, h': seq<seq<int16>>, channels: nat, ch: nat)
    requires Descending(c) && |h| >= 1 && Reads(h, channels) && Reads(h', channels) && ch < channels
    requires Below(h, h', 0) && FilterAfter(h, channels, ch) >= 0
    ensures NotColder(ReadingOf(c, FilterAfter(h, channels, ch)), ReadingOf(c, FilterAfter(h', channels, ch)))
  {
    FilterMonotone(h, h', channels, ch, 0);
    FilterFits(h', channels, ch);
    ReadingAntitoneFrom0(c, FilterAfter(h, channels, ch), FilterAfter(h', channels, ch));
  }

  /** In terms of the samples: it is enough that at most four of the nine are negative in
      every read of the lower history. */
  lemma ReadingAntitoneOfSamples(c: Curve, h: seq<seq<int16>>, h': seq<seq<int16>>, channels: nat, ch: nat)
    requires Descending(c) && |h| >= 1 && Reads(h, channels) && Reads(h', channels) && ch < channels
    requires Below(h, h', 0) && MostlyWithin(h, channels, ch, 0, 0x7FFF)
    ensures NotColder(ReadingOf(c, FilterAfter(h, channels, ch)), ReadingOf(c, FilterAfter(h', channels, ch)))
  {
    FilterRobust(h, channels, ch, 0, 0x7FFF);
    ReadingAntitone(c, h, h', channels, ch);
  }

  // Where the order breaks.

  /** A negative filter state, which is colder than nothing, is converted to a large
      count: on a table of counts below 0x8000 it always reads Under. */
  lemma NegativeReadsUnder(c: Curve, f: int16)
    requires Descending(c) && c.counts[0] < 0x8000 && f < 0
    ensures ReadingOf(c, f) == Under
  {
  }

  /** Exactly when two ordered filter states keep their order in the readings: unless
      the lower one is negative while the upper one is a count the table covers. */
  lemma ReadingOrderExactly(c: Curve, f: int16, f': int16)
    requires Descending(c) && c.counts[0] < 0x8000 && f <= f'
    ensures NotColder(ReadingOf(c, f), ReadingOf(c, f')) <==> !(f < 0 <= f' <= c.counts[0])
  {
    if f >= 0 {
      ReadingAntitoneFrom0(c, f, f');
    } else {
      NegativeReadsUnder(c, f);
      if f' < 0 {
        NegativeReadsUnder(c, f');
      } else {
        ReadingOfCount(c, f');
        OutOfRangeExactly(c, f');
      }
    }
  }

  lemma ReadingOfCount(c: Curve, f: int16)
    requires WellScaled(c) && f >= 0
    ensures ReadingOf(c, f) == Lookup(c, f)
  {
  }

  lemma ReadingAntitoneFrom0(c: Curve, f: int16, f': int16)
    requires Descending(c) && 0 <= f <= f'
    ensures NotColder(ReadingOf(c, f), ReadingOf(c, f'))
  {
    ReadingOfCount(c, f);
    ReadingOfCount(c, f');
    LookupAntitone(c, f, f');
  }

  /** A read with d added to every sample, as far as 16 bits allow. */
  function RaisedRead(samples: seq<int16>, d: nat): (r: seq<int16>)
    ensures |r| == |samples|
  {
    seq(|samples|, j requires 0 <= j < |samples| => if samples[j] + d > 0x7FFF then 0x7FFF else samples[j] + d)
  }

  function Raised(h: seq<seq<int16>>, d: nat): (r: seq<seq<int16>>)
    ensures |r| == |h| && forall i | 0 <= i < |h| :: |r[i]| == |h[i]|
  {
    seq(|h|, i requires 0 <= i < |h| => RaisedRead(h[i], d))
  }

  lemma RaisedAbove(h: seq<seq<int16>>, d: nat)
    ensures Below(h, Raised(h, d), 0) && Below(Raised(h, d + 1), Raised(h, d), 1)
  {
  }

  lemma RaisedByNone(h: seq<seq<int16>>)
    ensures Raised(h, 0) == h
  {
    forall i | 0 <= i < |h| ensures Raised(h, 0)[i] == h[i] {
      assert RaisedRead(h[i], 0) == h[i];
    }
  }

  /** Raising a history one count at a time takes a negative filter state through 0. */
  lemma {:induction false} CrossesZero(h: seq<seq<int16>>, channels: nat, ch: nat, d: nat) returns (k: nat)
    requires |h| >= 1 && Reads(h, channels) && ch < channels
    requires FilterAfter(h, channels, ch) < 0 <= FilterAfter(Raised(h, d), channels, ch)
    ensures FilterAfter(Raised(h, k), channels, ch) == 0
  {
    if d == 0 {
      RaisedByNone(h);
      assert false;
    } else if FilterAfter(Raised(h, d - 1), channels, ch) >= 0 {
      k := CrossesZero(h, channels, ch, d - 1);
    } else {
      RaisedAbove(h, d - 1);
      FilterMonotone(Raised(h, d), Raised(h, d - 1), channels, ch, 1);
      k := d;
    }
  }

  lemma FullyRaised(h: seq<seq<int16>>, channels: nat, ch: nat)
    requires |h| >= 1 && Reads(h, channels) && ch < channels
    ensures FilterAfter(Raised(h, 0x10000), channels, ch) >= 0
  {
    var r := Raised(h, 0x10000);
    forall i | 0 <= i < |r| ensures CountWithin(Samples(r[i], channels, ch), 0, 0x7FFF) >= 5 {
      forall k | 0 <= k < MEASUREMENTS ensures Samples(r[i], channels, ch)[k] == 0x7FFF {
        AddressInBuffer(channels, ch, k);
      }
      CountAllWithin(Samples(r[i], channels, ch), 0, 0x7FFF);
    }
    FilterRobust(r, channels, ch, 0, 0x7FFF);
  }

  /** Every history above h reads at most as hot as h. */
  ghost predicate OrderKept(c: Curve, h: seq<seq<int16>>, channels: nat, ch: nat)
    requires WellScaled(c) && |h| >= 1 && Reads(h, channels) && ch < channels
  {
    forall h' | Reads(h', channels) && Below(h, h', 0) ::
      NotColder(ReadingOf(c, FilterAfter(h, channels, ch)), ReadingOf(c, FilterAfter(h', channels, ch)))
  }

  /** Exactly which histories read no colder than every history above them: those that do
      not leave the filter negative. */
  lemma OrderKeptExactly(c: Curve, h: seq<seq<int16>>, channels: nat, ch: nat)
    requires Descending(c) && c.counts[0] < 0x8000
    requires |h| >= 1 && Reads(h, channels) && ch < channels
    ensures OrderKept(c, h, channels, ch) <==> FilterAfter(h, channels, ch) >= 0
  {
    if FilterAfter(h, channels, ch) >= 0 {
      forall h' | Reads(h', channels) && Below(h, h', 0)
        ensures NotColder(ReadingOf(c, FilterAfter(h, channels, ch)), ReadingOf(c, FilterAfter(h', channels, ch)))
      {
        ReadingAntitone(c, h, h', channels, ch);
      }
    } else {
      var h' := AboveAtZero(h, channels, ch);
      FilterFits(h, channels, ch);
      ReadingOrderExactly(c, FilterAfter(h, channels, ch), 0);
    }
  }

  lemma AboveAtZero(h: seq<seq<int16>>, channels: nat, ch: nat) returns (h': seq<seq<int16>>)
    requires |h| >= 1 && Reads(h, channels) && ch < channels && FilterAfter(h, channels, ch) < 0
    ensures Reads(h', channels) && Below(h, h', 0) && FilterAfter(h', channels, ch) == 0
  {
    FullyRaised(h, channels, ch);
    var k := CrossesZero(h, channels, ch, 0x10000);
    RaisedAbove(h, k);
    h' := Raised(h, k);
  }

  /** Samples that break the order: five negative ones of nine in every read are enough,
      whatever the others are. */
  lemma NegativeSamplesBreakOrder(c: Curve, h: seq<seq<int16>>, channels: nat, ch: nat)
    requires Descending(c) && c.counts[0] < 0x8000
    requires |h| >= 1 && Reads(h, channels) && ch < channels
    requires MostlyWithin(h, channels, ch, -0x8000, -1)
    ensures ReadingOf(c, FilterAfter(h, channels, ch)) == Under && !OrderKept(c, h, channels, ch)
  {
    FilterRobust(h, channels, ch, -0x8000, -1);
    NegativeReadsUnder(c, FilterAfter(h, channels, ch));
    OrderKeptExactly(c, h, channels, ch);
  }

  // Constant input.

  ghost predicate Constant(h: seq<seq<int16>>, channels: nat, ch: nat, from: nat, a: int)
    requires Reads(h, channels) && ch < channels
  {
    forall i | from <= i < |h| :: MedianOf(Samples(h[i], channels, ch)) == a
  }

  /** After the medians have become constant the filter runs as Settle says. */
  lemma {:induction false} FilterSettles(h: seq<seq<int16>>, channels: nat, ch: nat, from: nat, a: int)
    requires 1 <= from <= |h| && Reads(h, channels) && ch < channels
    requires Constant(h, channels, ch, from, a)
    ensures FilterAfter(h, channels, ch) == Settle(FilterAfter(h[..from], channels, ch), a, |h| - from)
    decreases |h|
  {
    var last := |h| - 1;
    if |h| == from {
      assert h[..from] == h;
    } else {
      assert h[..last][..from] == h[..from];
      FilterSettles(h[..last], channels, ch, from, a);
    }
  }

  /** Whatever came before, once the medians have been a for long enough: the reading is
      that of a count in [a - 3, a], and of a itself if the filter came from above; only
      a filter that came up from a negative state to fewer than three counts is left
      negative, and reads under. */
  lemma ReadingSettles(c: Curve, h: seq<seq<int16>>, channels: nat, ch: nat, from: nat, a: uint16)
    requires Descending(c) && 1 <= from <= |h| && Reads(h, channels) && ch < channels
    requires Constant(h, channels, ch, from, a) && a < 0x8000
    requires |h| - from >= Distance(FilterAfter(h[..from], channels, ch), a)
    ensures var before, f := FilterAfter(h[..from], channels, ch), FilterAfter(h, channels, ch);
      && a - 3 <= f <= a && f == Limit(before, a)
      && (f < 0 <==> before < 0 && a < 3)
      && (before >= a ==> ReadingOf(c, f) == Lookup(c, a))
      && (f >= 0 ==> NotColder(ReadingOf(c, f), Lookup(c, a)) && NotColder(Lookup(c, Max0(a - 3)), ReadingOf(c, f)))
      && (f < 0 && c.counts[0] < 0x8000 ==> ReadingOf(c, f) == Under)
  {
    FilterSettles(h, channels, ch, from, a);
    SettlesExactly(FilterAfter(h[..from], channels, ch), a, |h| - from);
    var f := FilterAfter(h, channels, ch);
    if f >= 0 {
      ReadingNear(c, f, a);
    } else if c.counts[0] < 0x8000 {
      NegativeReadsUnder(c, f);
    }
  }

  lemma ReadingNear(c: Curve, f: int16, a: int16)
    requires Descending(c) && 0 <= f && a - 3 <= f <= a
    ensures NotColder(ReadingOf(c, f), Lookup(c, a)) && NotColder(Lookup(c, Max0(a - 3)), ReadingOf(c, f))
    ensures f == a ==> ReadingOf(c, f) == Lookup(c, a)
  {
    ReadingOfCount(c, a);
    ReadingOfCount(c, Max0(a - 3));
    ReadingAntitoneFrom0(c, f, a);
    ReadingAntitoneFrom0(c, Max0(a - 3), f);
  }
}

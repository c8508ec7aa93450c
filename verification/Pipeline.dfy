/** The measurement chain end to end: configuration registers to table, any history of
    samples to published word, published word to Zigbee attribute. */
module Pipeline {
  import opened CTypes
  import opened Median
  import opened MedianNetwork
  import opened AdcFilter
  import opened NtcLookup
  import opened NtcLaws
  import opened NtcTable
  import opened MeasureNtc
  import opened AdcRun
  import opened IoAdc
  import opened RegisterMap

  const ADC_COUNTS: uint16 := 4096

  /** Two registers as one 32-bit word, low word first. */
  function Word32(lo: uint16, hi: uint16): uint32 {
    lo + 0x1_0000 * hi
  }

  /** The parameters io_adc_init assembles from the registers. */
  function Parameters(regs: seq<uint16>): NtcData
    requires |regs| == NUM_BUF
  {
    NtcData(
      Word32(regs[REG_NTC_R2_W1], regs[REG_NTC_R2_W2]),
      ToInt16(regs[REG_NTC_B]), ToInt16(regs[REG_NTC_T2]),
      Word32(regs[REG_NTC_DIVIDER_W1], regs[REG_NTC_DIVIDER_W2]),
      ToInt16(regs[REG_NTC_START]), ToInt16(regs[REG_NTC_STEP]), regs[REG_NTC_STEPS],
      ADC_COUNTS, 1)
  }

  /** Every 32-bit value comes back from its two words, and is made of no others. */
  lemma WordsExactly(x: uint32, lo: uint16, hi: uint16)
    ensures Word32(lo, hi) == x <==> lo == x % 0x1_0000 && hi == x / 0x1_0000
  {
  }

  /** What Limit_Check guarantees of the three limited NTC registers. */
  predicate WithinLimits(regs: seq<uint16>)
    requires |regs| == NUM_BUF
  {
    && -40 <= ToInt16(regs[REG_NTC_START]) <= 20
    && 1 <= regs[REG_NTC_STEP] <= 5
    && regs[REG_NTC_STEPS] <= TABLE_SIZE
  }

  /** What the limits do not guarantee: a step, and some resistance in the divider. */
  predicate HasTable(regs: seq<uint16>)
    requires |regs| == NUM_BUF
  {
    var p := Parameters(regs);
    p.steps >= 1 && p.r2 + p.divider > 0
  }

  /** Limit-checked registers leave every temperature of the table in -40 .. 845, far
      from 16-bit overflow and from the sentinels. */
  lemma LimitsMakeTabular(regs: seq<uint16>)
    requires |regs| == NUM_BUF && WithinLimits(regs) && HasTable(regs)
    ensures Tabular(Parameters(regs))
    ensures var p := Parameters(regs);
            -40 <= p.start && p.start + (ClampedSteps(p) - 1) * p.step <= 845
  {
    var p := Parameters(regs);
    assert p.step == regs[REG_NTC_STEP];
    MulLe(ClampedSteps(p) - 1, p.step, 5);
  }

  lemma LimitsMakeMeasurable(regs: seq<uint16>)
    requires |regs| == NUM_BUF && WithinLimits(regs) && HasTable(regs)
    ensures Measurable(Parameters(regs)) <==> Parameters(regs).b >= 0
    ensures var p := Parameters(regs);
            -40 <= p.start && p.start + (ClampedSteps(p) - 1) * p.step <= 845
  {
    LimitsMakeTabular(regs);
  }

  /** For one thermistor law: limit-checked registers give a table that can be searched
      exactly when there is a step and either B is not negative or both ends agree. */
  lemma LimitsDescendExactly(exp: real -> real, regs: seq<uint16>)
    requires |regs| == NUM_BUF && WithinLimits(regs) && IsExp(exp) && Buildable(Parameters(regs))
    ensures var p := Parameters(regs);
      Descending(IdealCurve(exp, p)) <==> p.steps >= 1 && (p.b >= 0 || EndsAgree(IdealCurve(exp, p)))
  {
    if HasTable(regs) {
      LimitsMakeTabular(regs);
      DescendsExactly(exp, Parameters(regs));
    }
  }

  /** For all thermistor laws: exactly when there is a step and B is not negative, or the
      only step, or no thermistor, or no divider, leaves nothing to rise. */
  lemma LimitsAlwaysDescendExactly(regs: seq<uint16>)
    requires |regs| == NUM_BUF && WithinLimits(regs) && Buildable(Parameters(regs))
    ensures var p := Parameters(regs);
      AlwaysDescends(p) <==> p.steps >= 1 && (p.b >= 0 || p.steps == 1 || p.r2 == 0 || p.divider == 0)
  {
    if HasTable(regs) {
      LimitsMakeTabular(regs);
      AlwaysDescendsExactly(Parameters(regs));
    } else {
      SteepIsExp(0.0, 1.0, 2.0);
      assert !Descending(IdealCurve(Steep(0.0, 1.0, 2.0), Parameters(regs)));
    }
  }

  /** io_adc_init up to the thread start: the registers become a searchable table. */
  method IoAdcInit(mbBufMain: array<uint16>, sensor: Sensor, exp: real -> real)
    requires mbBufMain.Length == NUM_BUF && sensor.table.Length == TABLE_SIZE && sensor.table != mbBufMain
    requires IsExp(exp) && Buildable(Parameters(mbBufMain[..]))
    modifies sensor, sensor.table
    ensures sensor.Valid() && sensor.Current() == IdealCurve(exp, Parameters(mbBufMain[..]))
    ensures var p, c := Parameters(mbBufMain[..]), sensor.Current();
      WithinLimits(mbBufMain[..]) ==> (Descending(c) <==> p.steps >= 1 && (p.b >= 0 || EndsAgree(c)))
    ensures mbBufMain[..] == old(mbBufMain[..])
  {
    ghost var regs := mbBufMain[..];
    var r2 := Word32(mbBufMain[REG_NTC_R2_W1], mbBufMain[REG_NTC_R2_W2]);
    var divider := Word32(mbBufMain[REG_NTC_DIVIDER_W1], mbBufMain[REG_NTC_DIVIDER_W2]);
    var data := NtcData(r2, ToInt16(mbBufMain[REG_NTC_B]), ToInt16(mbBufMain[REG_NTC_T2]), divider,
                        ToInt16(mbBufMain[REG_NTC_START]), ToInt16(mbBufMain[REG_NTC_STEP]),
                        mbBufMain[REG_NTC_STEPS], ADC_COUNTS, 1);
    sensor.CalculateTable(exp, data);
    if WithinLimits(regs) {
      LimitsDescendExactly(exp, regs);
    }
  }

  // The attribute.

  /** word & 0xF000 == 0x7000. */
  predicate IsErrorWord(word: uint16) {
    word / 0x1000 == 7
  }

  /** Exactly the words whose top nibble is 7. */
  lemma ErrorWordExactly(word: uint16)
    ensures IsErrorWord(word) <==> 0x7000 <= word < 0x8000
  {
  }

  /** The value com_task stores in the temperature measurement attribute. */
  function MeasuredValue(word: uint16): int16 {
    if !IsErrorWord(word) then ToInt16(word * 100) else ToInt16(word)
  }

  /** A curve whose temperatures all lie below the sentinel block. */
  predicate BelowSentinels(c: Curve) {
    WellScaled(c) && TempAt(c, |c.counts| - 1) < 0x7000
  }

  /** The top-nibble test tells this reading from a sentinel. */
  predicate TestTells(r: Reading) {
    IsErrorWord(ToUint16(Encode(r))) <==> !r.Celsius?
  }

  /** The top-nibble test recognises exactly the sentinels, negative readings included:
      for every count exactly when the table stays below 0x7000 degrees. */
  lemma SentinelsUnambiguous(c: Curve)
    requires Descending(c)
    ensures (forall adc: uint16 :: TestTells(Lookup(c, adc))) <==> BelowSentinels(c)
  {
    var last := |c.counts| - 1;
    if BelowSentinels(c) {
      forall adc: uint16 ensures TestTells(Lookup(c, adc)) {
        if Lookup(c, adc).Celsius? {
          LookupInRange(c, adc);
          WordOfTemperature(Lookup(c, adc).t);
        }
      }
    } else {
      LookupOfEntry(c, last);
      assert !TestTells(Lookup(c, c.counts[last]));
    }
  }

  /** The sentinels reach the attribute as they are. */
  lemma SentinelsPassThrough()
    ensures MeasuredValue(ToUint16(Encode(Under))) == 0x7001 && MeasuredValue(ToUint16(Encode(Over))) == 0x7002
  {
  }

  lemma WordOfTemperature(t: int16)
    requires t < 0x7000
    ensures !IsErrorWord(ToUint16(t))
  {
  }

  /** The stored product is 100 times the signed temperature exactly when that fits. */
  lemma HundredfoldExactly(t: int16)
    requires t < 0x7000
    ensures MeasuredValue(ToUint16(t)) == 100 * t <==> -327 <= t <= 327
  {
    WordOfTemperature(t);
    if t < 0 {
      assert ToUint16(t) * 100 == 100 * t + 100 * 0x1_0000;
    }
  }

  /** So a sensor stores every temperature it can read, hundredfold, exactly when its
      hottest table temperature is at most 327 degrees (the coldest is limited to -40). */
  lemma AttributeExactly(c: Curve)
    requires Descending(c) && BelowSentinels(c) && c.start >= -327
    ensures (forall adc: uint16 :: Lookup(c, adc).Celsius? ==>
               MeasuredValue(ToUint16(Encode(Lookup(c, adc)))) == 100 * Lookup(c, adc).t)
            <==> TempAt(c, |c.counts| - 1) <= 327
  {
    var last := |c.counts| - 1;
    forall adc: uint16 | Lookup(c, adc).Celsius?
      ensures MeasuredValue(ToUint16(Encode(Lookup(c, adc)))) == 100 * Lookup(c, adc).t
              <==> Lookup(c, adc).t <= 327
      ensures Lookup(c, adc).t <= TempAt(c, last)
    {
      LookupInRange(c, adc);
      HundredfoldExactly(Lookup(c, adc).t);
    }
    assert Lookup(c, c.counts[last]) == Celsius(TempAt(c, last));
  }

  // Reading the attribute back.

  /** 7209 * 25 is 1 modulo 2^14, so the product with 100 can be undone modulo 2^14. */
  const INVERSE: nat := 7209

  /** The reading that a value of the attribute stands for. */
  function AttributeReading(v: int16): Reading {
    if v == TEMPERATURE_OVER then Over
    else if v == TEMPERATURE_UNDER then Under
    else
      var m := ToUint16(v) / 4 * INVERSE % 0x4000;
      Celsius(if m < 0x2000 then m else m - 0x4000)
  }

  lemma Undone(t: int)
    ensures var w := 100 * t % 0x1_0000;
      w % 4 == 0 && w / 4 * INVERSE % 0x4000 == t % 0x4000
  {
    var w, k := 100 * t % 0x1_0000, 100 * t / 0x1_0000;
    assert w == 4 * (25 * t - 0x4000 * k);
    assert w / 4 * INVERSE == t + 0x4000 * (11 * t - INVERSE * k);
    Modulo(t, 11 * t - INVERSE * k);
  }

  lemma Modulo(t: int, k: int)
    ensures (t + 0x4000 * k) % 0x4000 == t % 0x4000
  {
  }

  lemma MeasuredValueReadsBack(t: int16)
    requires -0x2000 <= t < 0x2000
    ensures AttributeReading(MeasuredValue(ToUint16(t))) == Celsius(t)
  {
    WordOfTemperature(t);
    var w := 100 * t % 0x1_0000;
    Undone(t);
    Hundredfold(t, ToUint16(t));
    assert MeasuredValue(ToUint16(t)) == ToInt16(w);
    BackToUnsigned(w);
  }

  lemma Hundredfold(t: int16, u: uint16)
    requires u == t || u == t + 0x1_0000
    ensures u * 100 % 0x1_0000 == 100 * t % 0x1_0000
  {
  }

  lemma BackToUnsigned(w: uint16)
    ensures ToUint16(ToInt16(w)) == w
    ensures w % 4 == 0 ==> ToInt16(w) != TEMPERATURE_OVER && ToInt16(w) != TEMPERATURE_UNDER
  {
  }

  /** Although it is not the temperature times 100, the attribute still determines the
      reading: for every table within -8192 .. 8191 degrees, sentinels included. */
  lemma AttributeReadsBack(c: Curve, adc: uint16)
    requires Descending(c) && c.start >= -0x2000 && TempAt(c, |c.counts| - 1) < 0x2000
    ensures AttributeReading(MeasuredValue(ToUint16(Encode(Lookup(c, adc))))) == Lookup(c, adc)
  {
    match Lookup(c, adc)
    case Over =>
    case Under =>
    case Celsius(t) =>
      LookupInRange(c, adc);
      MeasuredValueReadsBack(t);
  }

  // The whole chain.

  /** The attribute after any history of samples. */
  ghost function Attribute(c: Curve, h: seq<seq<int16>>, channels: nat, ch: nat): int16
    requires WellScaled(c) && |h| >= 1 && Reads(h, channels) && ch < channels
  {
    MeasuredValue(Published(c, FilterAfter(h, channels, ch)))
  }

  /** Robustness of the attribute: with configuration in limits, hottest temperature at
      most 327, and counts lo and hi inside the table, four outliers in every read
      cannot move the attribute beyond the readings of hi and lo. */
  lemma AttributeRobust(c: Curve, h: seq<seq<int16>>, channels: nat, ch: nat, lo: uint16, hi: uint16)
    requires Descending(c) && c.start >= -327 && TempAt(c, |c.counts| - 1) <= 327
    requires |h| >= 1 && Reads(h, channels) && ch < channels
    requires c.counts[|c.counts| - 1] <= lo <= hi <= c.counts[0]
    requires MostlyWithin(h, channels, ch, lo, hi)
    ensures Lookup(c, lo).Celsius? && Lookup(c, hi).Celsius?
    ensures 100 * Lookup(c, hi).t <= Attribute(c, h, channels, ch) <= 100 * Lookup(c, lo).t
  {
    ReadingRobust(c, h, channels, ch, lo, hi);
    var f := FilterAfter(h, channels, ch);
    var adc := ToUint16(f);
    LookupInRange(c, adc);
    HundredfoldExactly(Lookup(c, adc).t);
  }

  /** From time from on, five of every nine samples are the ideal count at t degrees. */
  ghost predicate SamplesAt(h: seq<seq<int16>>, channels: nat, ch: nat, from: nat, a: int)
    requires Reads(h, channels) && ch < channels
  {
    forall i | from <= i < |h| :: CountWithin(Samples(h[i], channels, ch), a, a) >= 5
  }

  /** SamplesAt in terms of the raw reads. */
  lemma SamplesAtExactly(h: seq<seq<int16>>, channels: nat, ch: nat, from: nat, a: int)
    requires Reads(h, channels) && ch < channels
    ensures SamplesAt(h, channels, ch, from, a)
            <==> forall i | from <= i < |h| :: |InRange(h[i], channels, ch, a, a)| >= 5
  {
    forall i | from <= i < |h|
      ensures CountWithin(Samples(h[i], channels, ch), a, a) == |InRange(h[i], channels, ch, a, a)|
    {
      CountInRange(h[i], channels, ch, a, a);
    }
  }

  lemma SamplesMakeConstant(h: seq<seq<int16>>, channels: nat, ch: nat, from: nat, a: int)
    requires Reads(h, channels) && ch < channels && SamplesAt(h, channels, ch, from, a)
    ensures Constant(h, channels, ch, from, a)
  {
    forall i | from <= i < |h| ensures MedianOf(Samples(h[i], channels, ch)) == a {
      var s := Samples(h[i], channels, ch);
      MedianRobust(MedianOf(s), s, a, a);
    }
  }

  /** Steady state, from the registers to the reading.  Hold the thermistor at a true
      temperature inside the range of a strictly decreasing table, for as many reads as
      the filter was counts away.  If the filter came down to the count (the sensor was
      colder before), the reading is within one table step of the truth; otherwise, short
      of coming up from a negative state to fewer than three counts, it is at most one
      step too cold and not hotter than three counts' worth. */
  lemma SteadyStateAccuracy(exp: real -> real, regs: seq<uint16>, t: real,
                            h: seq<seq<int16>>, channels: nat, ch: nat, from: nat)
    requires |regs| == NUM_BUF && WithinLimits(regs) && IsExp(exp)
    requires HasTable(regs) && Parameters(regs).b >= 0
    requires StrictlyDecreasing(IdealTable(exp, Parameters(regs)))
    requires Degrees(Parameters(regs), 0) <= t <= Degrees(Parameters(regs), ClampedSteps(Parameters(regs)) - 1)
    requires 1 <= from <= |h| && Reads(h, channels) && ch < channels
    requires SamplesAt(h, channels, ch, from, Sample(exp, Parameters(regs), t))
    requires |h| - from >= Distance(FilterAfter(h[..from], channels, ch), Sample(exp, Parameters(regs), t))
    ensures var p := Parameters(regs);
      var c, a, before := IdealCurve(exp, p), Sample(exp, p, t), FilterAfter(h[..from], channels, ch);
      && Descending(c)
      && var r := ReadingOf(c, FilterAfter(h, channels, ch));
      && (before >= a ==> r.Celsius? && -p.step as real <= r.t as real - t <= p.step as real)
      && (before >= 0 || a >= 3 ==>
            !r.Under? && (r.Celsius? ==> t - p.step as real <= r.t as real) && NotColder(Lookup(c, Max0(a - 3)), r))
      && (before < 0 && a < 3 ==> r.Under?)
  {
    var p := Parameters(regs);
    LimitsMakeMeasurable(regs);
    IdealCurveDescends(exp, p);
    var c, a := IdealCurve(exp, p), Sample(exp, p, t);
    assert c.counts[0] in c.counts && c.counts[0] <= ADC_COUNTS;
    SamplesMakeConstant(h, channels, ch, from, a);
    ReadingSettles(c, h, channels, ch, from, a);
    ReadsTrueTemperature(exp, p, t);
  }


  /** The same for every table, plateaus included.  Held between two table temperatures, a
      filter that came down to the count reads between what the table answers for those two
      entries; otherwise, short of the negative case, it reads no colder than the cooler of
      the two answers. */
  lemma SteadyStateBetweenEntries(exp: real -> real, p: NtcData, t: real, k: nat,
                                  h: seq<seq<int16>>, channels: nat, ch: nat, from: nat)
    requires IsExp(exp) && Measurable(p) && p.multiplier * p.resolution < 0x8000 && k + 1 < ClampedSteps(p)
    requires Degrees(p, k) <= t <= Degrees(p, k + 1) && Kelvin(t) != 0.0
    requires 1 <= from <= |h| && Reads(h, channels) && ch < channels
    requires SamplesAt(h, channels, ch, from, Sample(exp, p, t))
    requires |h| - from >= Distance(FilterAfter(h[..from], channels, ch), Sample(exp, p, t))
    ensures var c, a, before := IdealCurve(exp, p), Sample(exp, p, t), FilterAfter(h[..from], channels, ch);
      && Descending(c)
      && var r := ReadingOf(c, FilterAfter(h, channels, ch));
      && (before >= a ==>
            r.Celsius? && TempAt(c, AnsweredIndex(c.counts, k)) <= r.t <= TempAt(c, AnsweredIndex(c.counts, k + 1)))
      && (before >= 0 || a >= 3 ==>
            !r.Under? && (r.Celsius? ==> TempAt(c, AnsweredIndex(c.counts, k)) <= r.t)
            && NotColder(Lookup(c, Max0(a - 3)), r))
      && (before < 0 && a < 3 ==> r.Under?)
  {
    IdealCurveDescends(exp, p);
    var c, a := IdealCurve(exp, p), Sample(exp, p, t);
    assert c.counts[0] in c.counts;
    SamplesMakeConstant(h, channels, ch, from, a);
    ReadingSettles(c, h, channels, ch, from, a);
    ReadsBetweenEntries(exp, p, t, k);
  }
}

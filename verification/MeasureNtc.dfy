/** The thermistor module: a table filled in place and searched in place, proved
    against NtcTable.IdealTable and NtcLookup.Lookup. */
module MeasureNtc {
  import opened CTypes
  import opened NtcLookup
  import opened NtcLaws
  import opened NtcTable

  const TEMPERATURE_UNDER: int16 := 0x7001
  const TEMPERATURE_OVER: int16 := 0x7002

  /** How calc_temperature returns a reading in one int16_t. */
  function Encode(r: Reading): int {
    match r
    case Over => TEMPERATURE_OVER
    case Under => TEMPERATURE_UNDER
    case Celsius(t) => t
  }

  /** What the search returns on any table, descending or not: an end of the table or
      the interpolation in some segment that brackets the count. */
  ghost predicate ReadsSomeSegment(c: Curve, adc: uint16, res: int)
    requires WellScaled(c)
  {
    var last := |c.counts| - 1;
    if adc < c.counts[last] then res == TEMPERATURE_OVER
    else if adc == c.counts[last] then res == TempAt(c, last)
    else if adc > c.counts[0] then res == TEMPERATURE_UNDER
    else if adc == c.counts[0] then res == c.start
    else exists l :: InSegment(c, adc, l) && res == SegmentTemp(c, adc, l)
  }

  lemma SegmentOfDescending(c: Curve, adc: uint16, res: int)
    requires Descending(c) && ReadsSomeSegment(c, adc, res)
    ensures res == Encode(Lookup(c, adc))
  {
  }

  /** The index type is one byte: the last index r = steps - 1 stays inside the table
      exactly when there is at least one step. */
  lemma TopIndexInTable(p: NtcData)
    ensures (ClampedSteps(p) - 1) % 0x100 < TABLE_SIZE <==> p.steps >= 1
  {
  }

  lemma SampleIgnoresSteps(exp: real -> real, p: NtcData, steps: uint16, t: real)
    requires IsExp(exp) && Buildable(p) && Kelvin(t) != 0.0
    ensures Sample(exp, p.(steps := steps), t) == Sample(exp, p, t)
  {
    assert Resistance(exp, p.(steps := steps), t) == Resistance(exp, p, t);
  }

  lemma ClampKeepsTable(exp: real -> real, p: NtcData)
    requires IsExp(exp) && Buildable(p)
    ensures IdealTable(exp, p.(steps := ClampedSteps(p))) == IdealTable(exp, p)
  {
    forall i | 0 <= i < ClampedSteps(p)
      ensures IdealTable(exp, p.(steps := ClampedSteps(p)))[i] == IdealTable(exp, p)[i]
    {
      WholeIsNotAbsoluteZero(p.start + i * p.step);
      SampleIgnoresSteps(exp, p, ClampedSteps(p), Degrees(p, i));
    }
  }

  class Sensor {
    const table: array<uint16>
    var parametr: NtcData

    constructor ()
      ensures fresh(table) && table.Length == TABLE_SIZE && parametr.steps == 0
    {
      table := new uint16[TABLE_SIZE](_ => 0);
      parametr := NtcData(0, 0, 0, 0, 0, 0, 0, 0, 0);
    }

    predicate Valid()
      reads this
    {
      table.Length == TABLE_SIZE && parametr.steps <= TABLE_SIZE
    }

    function Current(): Curve
      requires Valid()
      reads this, table
    {
      Curve(table[..parametr.steps], parametr.start, parametr.step)
    }

    /** calculate_table_NTC: the parameters are kept with the step count clamped, the
        first entries become the rounded ideal counts, the others are not touched. */
    method CalculateTable(exp: real -> real, data: NtcData)
      requires table.Length == TABLE_SIZE && IsExp(exp) && Buildable(data)
      modifies this, table
      ensures Valid() && parametr == data.(steps := ClampedSteps(data))
      ensures Current() == IdealCurve(exp, data)
      ensures table[parametr.steps..] == old(table[..])[ClampedSteps(data)..]
    {
      parametr := data;
      if parametr.steps > TABLE_SIZE {
        parametr := parametr.(steps := TABLE_SIZE);
      }
      ghost var ideal := IdealTable(exp, data);
      ClampKeepsTable(exp, data);
      var i: uint32 := 0;
      while i < parametr.steps
        invariant i <= parametr.steps == ClampedSteps(data)
        invariant parametr == data.(steps := ClampedSteps(data))
        invariant forall j | 0 <= j < i :: table[j] == ideal[j]
        invariant forall j | i <= j < TABLE_SIZE :: table[j] == old(table[j])
      {
        table[i] := EntryAt(exp, parametr, i);
        i := i + 1;
      }
      assert table[..parametr.steps] == ideal;
    }

    /** The loop body: entry i from the parameters in degrees, by the thermistor law. */
    static method EntryAt(exp: real -> real, p: NtcData, i: uint32) returns (entry: uint16)
      requires IsExp(exp) && Buildable(p) && i < ClampedSteps(p)
      ensures entry == IdealTable(exp, p)[i]
    {
      WholeIsNotAbsoluteZero(p.start + i * p.step);
      var t1 := p.start as real + i as real * p.step as real;
      assert t1 == Degrees(p, i);
      EntryIsRoundedCount(exp, p, t1);
      entry := EntryQuotient(p, Resistance(exp, p, t1)).Floor;
    }

    /** calc_temperature.  On a descending table the binary search finds what the
        linear scan of Lookup finds; on any table it stays inside it and stops. */
    method CalcTemperature(adcsum: uint16) returns (res: int16)
      requires Valid() && WellScaled(Current())
      ensures ReadsSomeSegment(Current(), adcsum, res)
      ensures Descending(Current()) ==> res == Encode(Lookup(Current(), adcsum))
    {
      ghost var c := Current();
      res := Search(adcsum);
      if Descending(c) {
        SegmentOfDescending(c, adcsum, res);
      }
    }

    method Search(adcsum: uint16) returns (res: int16)
      requires Valid() && WellScaled(Current())
      ensures ReadsSomeSegment(Current(), adcsum, res)
    {
      ghost var c := Current();
      var start: int32, step: int32 := parametr.start, parametr.step;
      var l: uint8, r: uint8 := 0, parametr.steps - 1;
      var thigh := table[r];
      if adcsum <= thigh {
        if adcsum < thigh {
          return TEMPERATURE_OVER;
        }
        TempAtMonotone(c, 0, r);
        return step * r + start;
      }
      var tlow := table[0];
      if adcsum >= tlow {
        if adcsum > tlow {
          return TEMPERATURE_UNDER;
        }
        return start;
      }
      while r - l > 1
        invariant l < r < parametr.steps
        invariant table[l] >= adcsum > table[r]
      {
        var m: uint8 := (l + r) / 2;
        var mid := table[m];
        if adcsum > mid {
          r := m;
        } else {
          l := m;
        }
      }
      assert InSegment(c, adcsum, l);
      SegmentBounds(c, adcsum, l);
      TempAtMonotone(c, 0, l);
      TempAtMonotone(c, r, parametr.steps - 1);
      var vl := table[l];
      if adcsum >= vl {
        return l * step + start;
      }
      res := Interpolate(c, l, adcsum, vl, table[r], start + r * step, step);
    }

    /** The last lines of calc_temperature, in 32 bits: res counts back from the
        temperature of the lower entry vr. */
    static method Interpolate(ghost c: Curve, ghost l: nat, adcsum: uint16, vl: uint16, vr: uint16,
                              upper: int16, step: int32)
      returns (res: int16)
      requires WellScaled(c) && InSegment(c, adcsum, l) && step == c.step <= 0x7FFF
      requires vl == c.counts[l] && vr == c.counts[l + 1] && upper == TempAt(c, l + 1)
      requires c.start <= TempAt(c, l)
      ensures res == SegmentTemp(c, adcsum, l)
    {
      SegmentBounds(c, adcsum, l);
      var vd: uint16 := vl - vr;
      res := upper;
      if vd != 0 {
        MulLe(adcsum - vr, step, 0x7FFF);
        Mul(step, adcsum - vr);
        var scaled: int32 := step * (adcsum - vr) + vd / 2;
        assert scaled / vd == RoundDiv(Product(step, adcsum - vr), vd);
        res := res - scaled / vd;
      }
    }
  }
}

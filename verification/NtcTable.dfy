/** The thermistor law behind the table, over the reals.  exp is any positive, strictly
    increasing function; a double's rounding and range are not part of the model. */
module NtcTable {
  import opened CTypes
  import opened NtcLookup
  import opened NtcLaws

  datatype NtcData = NtcData(
    r2: uint32, b: int16, t2: int16,
    divider: uint32,
    start: int16, step: int16, steps: uint16,
    resolution: uint16, multiplier: uint16)

  ghost predicate IsExp(exp: real -> real) {
    && (forall x :: exp(x) > 0.0)
    && (forall x, y :: x < y ==> exp(x) < exp(y))
  }

  /** The divider has some resistance in it, and full scale fits a table entry. */
  predicate Buildable(p: NtcData) {
    p.r2 + p.divider > 0 && p.multiplier * p.resolution <= 0xFFFF
  }

  function Kelvin(t: real): real {
    t + 273.15
  }

  /** The argument of the exponential: B over the temperature minus B over T2, in kelvin. */
  function Exponent(p: NtcData, t: real): real
    requires Kelvin(t) != 0.0
  {
    WholeIsNotAbsoluteZero(p.t2);
    p.b as real / Kelvin(t) - p.b as real / Kelvin(p.t2 as real)
  }

  function Resistance(exp: real -> real, p: NtcData, t: real): real
    requires Kelvin(t) != 0.0
  {
    p.r2 as real * exp(Exponent(p, t))
  }

  lemma WholeIsNotAbsoluteZero(t: int)
    ensures Kelvin(t as real) != 0.0
  {
  }

  function Add(x: real, y: real): real {
    x + y
  }

  /** An exponential: sums of exponents become products. */
  ghost predicate IsExponential(exp: real -> real) {
    IsExp(exp) && forall x: real, y: real {:trigger Add(x, y)} :: exp(Add(x, y)) == exp(x) * exp(y)
  }

  lemma ExponentialOfZero(exp: real -> real)
    requires IsExponential(exp)
    ensures exp(0.0) == 1.0
  {
    PowerOfSum(exp, 0.0, 0.0, 0.0);
    OnlyUnit(exp(0.0));
  }

  lemma PowerOfSum(exp: real -> real, x: real, y: real, z: real)
    requires IsExponential(exp) && z == Add(x, y)
    ensures exp(z) == exp(x) * exp(y)
  {
  }

  lemma OnlyUnit(x: real)
    requires x > 0.0 && x == x * x
    ensures x == 1.0
  {
    assert x * (x - 1.0) == 0.0;
  }

  /** At T2 the thermistor has its nominal resistance R2. */
  lemma NominalResistance(exp: real -> real, p: NtcData)
    requires exp(0.0) == 1.0
    ensures Kelvin(p.t2 as real) != 0.0 && Resistance(exp, p, p.t2 as real) == p.r2 as real
  {
    WholeIsNotAbsoluteZero(p.t2);
    assert Exponent(p, p.t2 as real) == 0.0;
  }

  /** The law between any two temperatures, in degrees Celsius. */
  lemma ResistanceLaw(exp: real -> real, p: NtcData, t: real, t': real)
    requires IsExponential(exp) && t + 273.15 != 0.0 && t' + 273.15 != 0.0
    ensures Resistance(exp, p, t)
         == Resistance(exp, p, t') * exp(p.b as real / (t + 273.15) - p.b as real / (t' + 273.15))
  {
    ScaledLaw(exp, p.r2 as real, Exponent(p, t), Exponent(p, t'),
              p.b as real / (t + 273.15) - p.b as real / (t' + 273.15));
  }

  lemma ScaledLaw(exp: real -> real, k: real, x: real, x': real, d: real)
    requires IsExponential(exp) && x == x' + d
    ensures k * exp(x) == k * exp(x') * exp(d)
  {
    PowerOfSum(exp, x', d, x);
    Regroup(k, exp(x'), exp(d));
  }

  lemma Regroup(a: real, b: real, c: real)
    ensures a * (b * c) == a * b * c
  {
  }

  lemma ResistancePositive(exp: real -> real, p: NtcData, t: real)
    requires IsExp(exp) && Buildable(p) && Kelvin(t) != 0.0
    ensures Resistance(exp, p, t) >= 0.0 && Resistance(exp, p, t) + p.divider as real > 0.0
  {
    var x := Exponent(p, t);
    assert exp(x) > 0.0;
    var r2 := p.r2 as real;
    MulMonoReal(exp(x), 0.0, r2);
    assert exp(x) * r2 == r2 * exp(x) == Resistance(exp, p, t);
    if p.r2 > 0 {
      MulMonoReal(exp(x), 1.0, r2);
      assert exp(x) <= exp(x) * r2;
    }
  }

  /** The divider has resistance exactly when one of its two parts has. */
  lemma ResistanceExactly(exp: real -> real, p: NtcData, t: real)
    requires IsExp(exp) && Kelvin(t) != 0.0
    ensures Resistance(exp, p, t) + p.divider as real == 0.0 <==> p.r2 == 0 && p.divider == 0
  {
    var e := exp(Exponent(p, t));
    assert e > 0.0;
    PositiveProduct(p.r2 as real, e);
  }

  lemma PositiveProduct(k: real, x: real)
    requires k >= 0.0 && x > 0.0
    ensures k * x >= 0.0 && (k * x == 0.0 <==> k == 0.0)
  {
  }

  /** The unrounded count of a voltage divider with the thermistor at r. */
  function DividerCount(p: NtcData, r: real): real
    requires r + p.divider as real > 0.0
  {
    (p.multiplier * p.resolution) as real * (r / (r + p.divider as real))
  }

  /** The ideal, unrounded count at t degrees. */
  ghost function IdealCount(exp: real -> real, p: NtcData, t: real): real
    requires IsExp(exp) && Buildable(p) && Kelvin(t) != 0.0
  {
    ResistancePositive(exp, p, t);
    DividerCount(p, Resistance(exp, p, t))
  }

  /** Nearest integer, halves up. */
  function Round(x: real): int {
    (x + 0.5).Floor
  }

  /** The quotient that the table builder truncates to an entry. */
  function EntryQuotient(p: NtcData, r: real): real
    requires r + p.divider as real > 0.0
  {
    (r * p.multiplier as real * p.resolution as real * 2.0 + r + p.divider as real)
    / (2.0 * (r + p.divider as real))
  }

  /** Truncating that quotient rounds the ideal count to nearest, and the result fits. */
  lemma EntryIsRoundedCount(exp: real -> real, p: NtcData, t: real)
    requires IsExp(exp) && Buildable(p) && Kelvin(t) != 0.0
    ensures var r := Resistance(exp, p, t);
      && r + p.divider as real > 0.0
      && EntryQuotient(p, r).Floor == Round(IdealCount(exp, p, t))
      && 0 <= Round(IdealCount(exp, p, t)) <= p.multiplier * p.resolution
  {
    ResistancePositive(exp, p, t);
    var r, d := Resistance(exp, p, t), p.divider as real;
    EntryQuotientIs(p, r);
    ShareInUnit(r, d);
    RoundWithin(p.multiplier * p.resolution, r / (r + d));
  }

  /** The rounded count is nearest to the full scale times the share of the thermistor. */
  lemma EntryIsNearest(exp: real -> real, p: NtcData, t: real)
    requires IsExp(exp) && Buildable(p) && Kelvin(t) != 0.0
    ensures var r := Resistance(exp, p, t);
      && r + p.divider as real > 0.0
      && IdealCount(exp, p, t) * (r + p.divider as real) == (p.multiplier * p.resolution) as real * r
      && -0.5 < Sample(exp, p, t) as real - IdealCount(exp, p, t) <= 0.5
  {
    ResistancePositive(exp, p, t);
    EntryIsRoundedCount(exp, p, t);
    ShareTimes(Resistance(exp, p, t), p.divider as real, (p.multiplier * p.resolution) as real);
  }

  lemma ShareTimes(r: real, d: real, full: real)
    requires r + d > 0.0
    ensures full * (r / (r + d)) * (r + d) == full * r
  {
    var share := r / (r + d);
    assert share * (r + d) == r;
    Regroup(full, share, r + d);
  }

  lemma EntryQuotientIs(p: NtcData, r: real)
    requires r + p.divider as real > 0.0
    ensures EntryQuotient(p, r)
         == (p.multiplier * p.resolution) as real * (r / (r + p.divider as real)) + 0.5
  {
    var d, full := p.divider as real, p.multiplier * p.resolution;
    QuotientSplits(full as real, r, d);
    FullScale(r, p.multiplier, p.resolution);
    assert EntryQuotient(p, r) == (r * full as real * 2.0 + r + d) / (2.0 * (r + d));
  }

  lemma FullScale(r: real, multiplier: uint16, resolution: uint16)
    ensures r * multiplier as real * resolution as real * 2.0 == r * (multiplier * resolution) as real * 2.0
  {
  }

  lemma RoundWithin(full: nat, share: real)
    requires 0.0 <= share <= 1.0
    ensures 0 <= Round(full as real * share) <= full
  {
  }

  lemma QuotientSplits(m: real, r: real, d: real)
    requires r + d > 0.0
    ensures (r * m * 2.0 + r + d) / (2.0 * (r + d)) == m * (r / (r + d)) + 0.5
  {
    var s := r + d;
    var share := r / s;
    var product := m * share;
    assert product * s == r * m by {
      assert share * s == r;
      assert product * s == m * (share * s);
    }
    QuotientIs(product + 0.5, 2.0 * s, r * m * 2.0 + s);
  }

  lemma QuotientIs(q: real, y: real, x: real)
    requires y > 0.0 && q * y == x
    ensures x / y == q
  {
  }

  lemma ShareInUnit(r: real, d: real)
    requires r >= 0.0 && d >= 0.0 && r + d > 0.0
    ensures 0.0 <= r / (r + d) <= 1.0
  {
  }

  /** A hotter thermistor never raises the count. */
  lemma CountAntitone(exp: real -> real, p: NtcData, t: real, t': real)
    requires IsExp(exp) && Buildable(p) && p.b >= 0
    requires 0.0 < Kelvin(t) <= Kelvin(t')
    ensures IdealCount(exp, p, t) >= IdealCount(exp, p, t')
    ensures Round(IdealCount(exp, p, t)) >= Round(IdealCount(exp, p, t'))
  {
    ResistancePositive(exp, p, t);
    ResistancePositive(exp, p, t');
    ResistanceAntitone(exp, p, t, t');
    DividerCountMonotone(p, Resistance(exp, p, t'), Resistance(exp, p, t));
  }

  /** With B not positive it is the other way round. */
  lemma CountIsotone(exp: real -> real, p: NtcData, t: real, t': real)
    requires IsExp(exp) && Buildable(p) && p.b <= 0
    requires 0.0 < Kelvin(t) <= Kelvin(t')
    ensures Round(IdealCount(exp, p, t)) <= Round(IdealCount(exp, p, t'))
  {
    ResistancePositive(exp, p, t);
    ResistancePositive(exp, p, t');
    ResistanceIsotone(exp, p, t, t');
    DividerCountMonotone(p, Resistance(exp, p, t), Resistance(exp, p, t'));
  }

  lemma DividerCountMonotone(p: NtcData, r: real, r': real)
    requires 0.0 <= r <= r' && r + p.divider as real > 0.0
    ensures DividerCount(p, r) <= DividerCount(p, r')
    ensures Round(DividerCount(p, r)) <= Round(DividerCount(p, r'))
  {
    var d := p.divider as real;
    ShareMonotone(r, r', d);
    MulMonoReal((p.multiplier * p.resolution) as real, r / (r + d), r' / (r' + d));
  }

  lemma ResistanceAntitone(exp: real -> real, p: NtcData, t: real, t': real)
    requires IsExp(exp) && p.b >= 0
    requires 0.0 < Kelvin(t) <= Kelvin(t')
    ensures Resistance(exp, p, t) >= Resistance(exp, p, t')
  {
    ExponentFalls(p, t, t');
    ResistanceOrder(exp, p, t', t);
  }

  lemma ExponentFalls(p: NtcData, t: real, t': real)
    requires p.b >= 0 && 0.0 < Kelvin(t) <= Kelvin(t')
    ensures Exponent(p, t) >= Exponent(p, t')
  {
    QuotientAntitone(p.b as real, Kelvin(t), Kelvin(t'));
  }

  lemma ResistanceOrder(exp: real -> real, p: NtcData, t: real, t': real)
    requires IsExp(exp) && Kelvin(t) != 0.0 && Kelvin(t') != 0.0
    requires Exponent(p, t) <= Exponent(p, t')
    ensures Resistance(exp, p, t) <= Resistance(exp, p, t')
  {
    var x, x' := Exponent(p, t), Exponent(p, t');
    assert x < x' || x == x';
    var e, e' := exp(x), exp(x');
    assert e <= e';
    MulMonoReal(p.r2 as real, e, e');
    assert Resistance(exp, p, t) == p.r2 as real * e && Resistance(exp, p, t') == p.r2 as real * e';
  }

  lemma ResistanceIsotone(exp: real -> real, p: NtcData, t: real, t': real)
    requires IsExp(exp) && p.b <= 0
    requires 0.0 < Kelvin(t) <= Kelvin(t')
    ensures Resistance(exp, p, t) <= Resistance(exp, p, t')
  {
    ExponentRises(p, t, t');
    ResistanceOrder(exp, p, t, t');
  }

  /** With B not positive the exponent of the thermistor law rises with temperature. */
  lemma ExponentRises(p: NtcData, t: real, t': real)
    requires p.b <= 0 && 0.0 < Kelvin(t) <= Kelvin(t')
    ensures Exponent(p, t) <= Exponent(p, t')
    ensures p.b < 0 && Kelvin(t) < Kelvin(t') ==> Exponent(p, t) < Exponent(p, t')
  {
    QuotientNegates(p.b as real, Kelvin(t));
    QuotientNegates(p.b as real, Kelvin(t'));
    QuotientAntitone(-(p.b as real), Kelvin(t), Kelvin(t'));
  }

  lemma QuotientNegates(b: real, x: real)
    requires x > 0.0
    ensures (-b) / x == -(b / x)
  {
    QuotientIs(-(b / x), x, -b);
  }

  lemma MulMonoReal(k: real, x: real, y: real)
    requires k >= 0.0 && x <= y
    ensures k * x <= k * y
  {
  }

  lemma QuotientAntitone(b: real, x: real, y: real)
    requires b >= 0.0 && 0.0 < x <= y
    ensures b / x >= b / y
    ensures b > 0.0 && x < y ==> b / x > b / y
  {
  }

  lemma ShareMonotone(r: real, r': real, d: real)
    requires 0.0 <= r <= r' && d >= 0.0 && r + d > 0.0
    ensures r / (r + d) <= r' / (r' + d)
  {
    var s, s' := r + d, r' + d;
    var a, b := r / s, r' / s';
    assert a * s == r && b * s' == r';
    assert a * (s * s') == r * s' && b * (s * s') == r' * s by {
      assert a * (s * s') == (a * s) * s' && b * (s * s') == (b * s') * s;
    }
    MulMonoReal(d, r, r');
    assert r * s' <= r' * s;
    MulLtReal(s * s', a, b);
  }

  // The whole table.

  /** The step count after the clamp to the table's capacity. */
  function ClampedSteps(p: NtcData): nat {
    if p.steps > TABLE_SIZE then TABLE_SIZE else p.steps
  }

  /** All steps up to the capacity, the capacity beyond. */
  lemma ClampsExactly(p: NtcData)
    ensures p.steps <= 166 ==> ClampedSteps(p) == p.steps
    ensures p.steps > 166 ==> ClampedSteps(p) == 166
  {
  }

  function Degrees(p: NtcData, i: int): real {
    (p.start + i * p.step) as real
  }

  /** The ideal converter: the count at t degrees, rounded to nearest. */
  ghost function Sample(exp: real -> real, p: NtcData, t: real): (n: uint16)
    requires IsExp(exp) && Buildable(p) && Kelvin(t) != 0.0
    ensures n <= p.multiplier * p.resolution
  {
    EntryIsRoundedCount(exp, p, t);
    Round(IdealCount(exp, p, t))
  }

  /** The samples at the table's temperatures. */
  ghost function IdealTable(exp: real -> real, p: NtcData): (counts: seq<uint16>)
    requires IsExp(exp) && Buildable(p)
    ensures |counts| == ClampedSteps(p)
  {
    seq(ClampedSteps(p), i requires 0 <= i =>
      (WholeIsNotAbsoluteZero(p.start + i * p.step); Sample(exp, p, Degrees(p, i))))
  }

  /** Entry i belongs to start + i * step degrees. */
  lemma EntryOf(exp: real -> real, p: NtcData, i: nat)
    requires IsExp(exp) && Buildable(p) && i < ClampedSteps(p)
    ensures var t := p.start as real + i as real * p.step as real;
      Kelvin(t) != 0.0 && IdealTable(exp, p)[i] == Sample(exp, p, t)
  {
    WholeIsNotAbsoluteZero(p.start + i * p.step);
    assert Degrees(p, i) == p.start as real + i as real * p.step as real;
  }

  ghost function IdealCurve(exp: real -> real, p: NtcData): Curve
    requires IsExp(exp) && Buildable(p)
  {
    Curve(IdealTable(exp, p), p.start, p.step)
  }

  /** At least one step of at least one degree, above absolute zero, within 16 bits. */
  predicate Tabular(p: NtcData) {
    && Buildable(p)
    && p.start >= -273
    && p.step >= 1 && p.steps >= 1
    && p.start + (ClampedSteps(p) - 1) * p.step < 0x8000
  }

  /** Exactly: every one of its temperatures is above absolute zero and fits 16 bits, and
      full scale fits an entry. */
  lemma TabularExactly(p: NtcData)
    ensures Tabular(p) <==>
      && p.r2 + p.divider != 0 && p.multiplier * p.resolution < 0x1_0000
      && p.steps > 0 && p.step > 0
      && forall i: nat | i < ClampedSteps(p) :: Kelvin(Degrees(p, i)) > 0.0 && Degrees(p, i) <= 32767.0
  {
    if p.steps > 0 && p.step > 0 {
      var c, last := Curve([], p.start, p.step), ClampedSteps(p) - 1;
      assert TempAt(c, 0) == p.start;
      forall i: nat | i <= last
        ensures Degrees(p, i) == TempAt(c, i) as real && p.start <= TempAt(c, i) <= TempAt(c, last)
      {
        TempAtMonotone(c, 0, i);
        TempAtMonotone(c, i, last);
      }
      assert Degrees(p, 0) == p.start as real && Degrees(p, last) == TempAt(c, last) as real;
    }
  }

  /** Parameters for which the table is meant: a thermistor that falls with temperature. */
  predicate Measurable(p: NtcData) {
    Tabular(p) && p.b >= 0
  }

  /** The builder establishes what the search needs. */
  lemma IdealCurveDescends(exp: real -> real, p: NtcData)
    requires IsExp(exp) && Measurable(p)
    ensures Descending(IdealCurve(exp, p))
    ensures forall n | n in IdealTable(exp, p) :: n <= p.multiplier * p.resolution
  {
    var counts := IdealTable(exp, p);
    forall i, j | 0 <= i < j < |counts| ensures counts[i] >= counts[j] {
      TempAtMonotone(IdealCurve(exp, p), i, j);
      TempAtMonotone(IdealCurve(exp, p), 0, i);
      CountAntitone(exp, p, Degrees(p, i), Degrees(p, j));
    }
  }

  /** With B not positive the table never descends, except by staying the same. */
  lemma IdealTableRises(exp: real -> real, p: NtcData, i: nat, j: nat)
    requires IsExp(exp) && Tabular(p) && p.b <= 0 && i <= j < ClampedSteps(p)
    ensures IdealTable(exp, p)[i] <= IdealTable(exp, p)[j]
  {
    TempAtMonotone(IdealCurve(exp, p), i, j);
    TempAtMonotone(IdealCurve(exp, p), 0, i);
    CountIsotone(exp, p, Degrees(p, i), Degrees(p, j));
  }

  predicate EndsAgree(c: Curve) {
    c.counts != [] && c.counts[0] == c.counts[|c.counts| - 1]
  }

  /** For every sign of B: the table descends exactly when B is not negative or its two
      ends agree. */
  lemma DescendsExactly(exp: real -> real, p: NtcData)
    requires IsExp(exp) && Tabular(p)
    ensures Descending(IdealCurve(exp, p)) <==> p.b >= 0 || EndsAgree(IdealCurve(exp, p))
  {
    var counts, last := IdealTable(exp, p), ClampedSteps(p) - 1;
    TempAtMonotone(IdealCurve(exp, p), 0, last);
    if p.b >= 0 {
      IdealCurveDescends(exp, p);
    } else {
      IdealTableRises(exp, p, 0, last);
      if counts[0] == counts[last] {
        forall i, j | 0 <= i < j < |counts| ensures counts[i] >= counts[j] {
          IdealTableRises(exp, p, 0, i);
          IdealTableRises(exp, p, j, last);
        }
      }
    }
  }

  /** Parameters that give every entry the same count, whatever the temperature. */
  predicate Flat(p: NtcData) {
    p.b == 0 || p.r2 == 0 || p.divider == 0 || p.multiplier * p.resolution == 0
  }

  lemma FlatTable(exp: real -> real, p: NtcData, i: nat, j: nat)
    requires IsExp(exp) && Tabular(p) && Flat(p) && i <= j < ClampedSteps(p)
    ensures IdealTable(exp, p)[i] == IdealTable(exp, p)[j]
  {
    if p.b == 0 {
      IdealTableRises(exp, p, i, j);
      IdealCurveDescends(exp, p);
    } else {
      TempAtMonotone(IdealCurve(exp, p), 0, i);
      TempAtMonotone(IdealCurve(exp, p), 0, j);
      FlatCount(exp, p, Degrees(p, i));
      FlatCount(exp, p, Degrees(p, j));
    }
  }

  lemma FlatCount(exp: real -> real, p: NtcData, t: real)
    requires IsExp(exp) && Buildable(p) && Kelvin(t) != 0.0 && Flat(p) && p.b != 0
    ensures IdealCount(exp, p, t) == if p.r2 == 0 then 0.0 else (p.multiplier * p.resolution) as real
  {
    ResistancePositive(exp, p, t);
    var r, full := Resistance(exp, p, t), (p.multiplier * p.resolution) as real;
    if p.r2 == 0 {
      assert r == 0.0;
      NoProduct(full, r / (r + p.divider as real));
    } else if p.divider == 0 {
      QuotientIs(1.0, r, r);
      assert r / (r + p.divider as real) == 1.0;
    } else {
      NoProduct(full, r / (r + p.divider as real));
    }
  }

  lemma NoProduct(x: real, y: real)
    ensures x == 0.0 || y == 0.0 ==> x * y == 0.0
  {
  }

  /** A rising function steep enough at x0 to pass from low to high there. */
  ghost function Steep(x0: real, low: real, high: real): real -> real {
    x => if x <= x0 then low / (1.0 + x0 - x) else high + (x - x0)
  }

  lemma SteepIsExp(x0: real, low: real, high: real)
    requires 0.0 < low < high
    ensures IsExp(Steep(x0, low, high))
  {
    var f := Steep(x0, low, high);
    forall x ensures f(x) > 0.0 {
      if x <= x0 {
        QuotientAntitone(low, 1.0, 1.0 + x0 - x);
      }
    }
    forall x, y | x < y ensures f(x) < f(y) {
      if y <= x0 {
        QuotientAntitone(low, 1.0 + x0 - y, 1.0 + x0 - x);
      } else if x <= x0 {
        QuotientAntitone(low, 1.0, 1.0 + x0 - x);
      }
    }
  }

  lemma SteepBetween(x: real, x': real, low: real, high: real) returns (exp: real -> real)
    requires x < x' && 0.0 < low < high
    ensures IsExp(exp) && exp(x) == low && exp(x') > high
  {
    exp := Steep(x, low, high);
    SteepIsExp(x, low, high);
    QuotientIs(low, 1.0, low);
  }

  /** With B negative, and nothing to flatten the table, a steep enough thermistor law
      makes its first entry zero and its second positive. */
  lemma RisingWitness(p: NtcData) returns (exp: real -> real)
    requires Tabular(p) && p.b < 0 && !Flat(p) && ClampedSteps(p) >= 2
    ensures IsExp(exp) && IdealTable(exp, p)[0] < IdealTable(exp, p)[1]
  {
    exp := RisingBetween(p, Degrees(p, 0), Degrees(p, 1));
  }

  lemma RisingBetween(p: NtcData, t: real, t': real) returns (exp: real -> real)
    requires Buildable(p) && p.b < 0 && !Flat(p) && 0.0 < Kelvin(t) < Kelvin(t')
    ensures IsExp(exp) && Round(IdealCount(exp, p, t)) == 0 < Round(IdealCount(exp, p, t'))
  {
    ExponentRises(p, t, t');
    var low, high := LowHigh(p);
    exp := SteepBetween(Exponent(p, t), Exponent(p, t'), low, high);
    ColdCount(exp, p, t, low);
    HotCount(exp, p, t', high);
  }

  lemma CountAt(exp: real -> real, p: NtcData, t: real, v: real)
    requires IsExp(exp) && Buildable(p) && Kelvin(t) != 0.0 && exp(Exponent(p, t)) == v
    ensures p.r2 as real * v + p.divider as real > 0.0
    ensures IdealCount(exp, p, t) == DividerCount(p, p.r2 as real * v)
  {
    ResistancePositive(exp, p, t);
  }

  lemma LowHigh(p: NtcData) returns (low: real, high: real)
    requires p.r2 > 0 && p.divider > 0
    ensures 0.0 < low < high && high == p.divider as real / p.r2 as real && low == high / 131072.0
  {
    HighPositive(p.r2 as real, p.divider as real);
    high := p.divider as real / p.r2 as real;
    low := high / 131072.0;
  }

  lemma ColdCount(exp: real -> real, p: NtcData, t: real, low: real)
    requires IsExp(exp) && Buildable(p) && Kelvin(t) != 0.0 && p.r2 > 0 && p.divider > 0
    requires exp(Exponent(p, t)) == low && low == p.divider as real / p.r2 as real / 131072.0
    ensures Round(IdealCount(exp, p, t)) == 0
  {
    CountAt(exp, p, t, low);
    ScaledQuotient(p.r2 as real, p.divider as real, low);
    SmallShare(p.multiplier * p.resolution, p.r2 as real * low, p.divider as real);
  }

  lemma HotCount(exp: real -> real, p: NtcData, t: real, high: real)
    requires IsExp(exp) && Buildable(p) && Kelvin(t) != 0.0 && p.r2 > 0 && p.divider > 0
    requires p.multiplier * p.resolution >= 1
    requires exp(Exponent(p, t)) > high && high == p.divider as real / p.r2 as real
    ensures Round(IdealCount(exp, p, t)) >= 1
  {
    var v := exp(Exponent(p, t));
    CountAt(exp, p, t, v);
    AboveDivider(p.r2 as real, p.divider as real, high, v);
    LargeShare(p.multiplier * p.resolution, p.r2 as real * v, p.divider as real);
  }

  lemma AboveDivider(r2: real, d: real, high: real, v: real)
    requires r2 > 0.0 && d > 0.0 && high == d / r2 && v > high
    ensures r2 * v >= d
  {
    HighPositive(r2, d);
    MulMonoReal(r2, high, v);
  }

  lemma HighPositive(r2: real, d: real)
    requires r2 > 0.0 && d > 0.0
    ensures d / r2 > 0.0 && r2 * (d / r2) == d
  {
  }

  lemma ScaledQuotient(r2: real, d: real, x: real)
    requires r2 > 0.0 && d > 0.0 && x == d / r2 / 131072.0
    ensures r2 * x == d / 131072.0
  {
    HighPositive(r2, d);
    assert r2 * x == r2 * (d / r2) / 131072.0;
  }

  lemma SmallShare(full: nat, r: real, d: real)
    requires full <= 0xFFFF && d > 0.0 && r == d / 131072.0
    ensures Round(full as real * (r / (r + d))) == 0
  {
    QuotientIs(1.0 / 131073.0, r + d, r);
  }

  lemma LargeShare(full: nat, r: real, d: real)
    requires full >= 1 && 0.0 < d <= r
    ensures Round(full as real * (r / (r + d))) >= 1
  {
    ShareMonotone(d, r, d);
    QuotientIs(0.5, d + d, d);
    MulMonoReal(full as real, 0.5, r / (r + d));
  }

  /** The table descends for every thermistor law. */
  ghost predicate AlwaysDescends(p: NtcData)
    requires Buildable(p)
  {
    forall exp | IsExp(exp) :: Descending(IdealCurve(exp, p))
  }

  /** It does exactly when B is not negative, or there is only one step, or the
      parameters make the table flat. */
  lemma AlwaysDescendsExactly(p: NtcData)
    requires Tabular(p)
    ensures AlwaysDescends(p) <==> p.b >= 0 || ClampedSteps(p) == 1 || Flat(p)
  {
    if p.b >= 0 || ClampedSteps(p) == 1 || Flat(p) {
      forall exp | IsExp(exp) ensures Descending(IdealCurve(exp, p)) {
        DescendsExactly(exp, p);
        if Flat(p) {
          FlatTable(exp, p, 0, ClampedSteps(p) - 1);
        }
      }
    } else {
      var exp := RisingWitness(p);
      assert !NonIncreasing(IdealTable(exp, p));
    }
  }

  /** Every entry of the table, the first one included, reads as its hottest temperature. */
  ghost predicate OnlyReadsHottest(c: Curve)
    requires WellScaled(c)
  {
    forall i | 0 <= i < |c.counts| :: Lookup(c, c.counts[i]) == Celsius(TempAt(c, |c.counts| - 1))
  }

  lemma FlatReadsHottest(exp: real -> real, p: NtcData)
    requires IsExp(exp) && Tabular(p) && Flat(p)
    ensures Descending(IdealCurve(exp, p)) && OnlyReadsHottest(IdealCurve(exp, p))
  {
    var c, last := IdealCurve(exp, p), ClampedSteps(p) - 1;
    TempAtMonotone(c, 0, last);
    FlatTable(exp, p, 0, last);
    DescendsExactly(exp, p);
    forall i: nat | i < |c.counts| ensures c.counts[i] == c.counts[last] {
      FlatTable(exp, p, i, last);
    }
  }

  /** The two table temperatures around a temperature inside the range. */
  lemma {:induction false} FindStep(p: NtcData, t: real, i: nat) returns (k: nat)
    requires p.step >= 1 && i < ClampedSteps(p)
    requires Degrees(p, i) <= t <= Degrees(p, ClampedSteps(p) - 1)
    ensures k < ClampedSteps(p) && Degrees(p, k) <= t
    ensures if k + 1 < ClampedSteps(p) then t <= Degrees(p, k + 1) else t == Degrees(p, k)
    decreases ClampedSteps(p) - i
  {
    if i + 1 < ClampedSteps(p) && Degrees(p, i + 1) <= t {
      k := FindStep(p, t, i + 1);
    } else {
      k := i;
    }
  }

  /** Between two table temperatures an ideal converter, looked up in the table built for
      the same thermistor, reads between what the table answers for those two entries. */
  lemma ReadsBetweenEntries(exp: real -> real, p: NtcData, t: real, k: nat)
    requires IsExp(exp) && Measurable(p) && k + 1 < ClampedSteps(p)
    requires Degrees(p, k) <= t <= Degrees(p, k + 1)
    ensures Kelvin(t) > 0.0
    ensures var c := IdealCurve(exp, p);
      var r := Lookup(c, Sample(exp, p, t));
      && r.Celsius?
      && TempAt(c, AnsweredIndex(c.counts, k)) <= r.t <= TempAt(c, AnsweredIndex(c.counts, k + 1))
  {
    var c := IdealCurve(exp, p);
    IdealCurveDescends(exp, p);
    TempAtMonotone(c, 0, k);
    TempAtMonotone(c, k, k + 1);
    CountAntitone(exp, p, Degrees(p, k), t);
    CountAntitone(exp, p, t, Degrees(p, k + 1));
    EntriesBracket(c, Sample(exp, p, t), k);
  }

  lemma EntriesBracket(c: Curve, adc: uint16, k: nat)
    requires Descending(c) && k + 1 < |c.counts| && c.counts[k] >= adc >= c.counts[k + 1]
    ensures var r := Lookup(c, adc);
      r.Celsius? && TempAt(c, AnsweredIndex(c.counts, k)) <= r.t <= TempAt(c, AnsweredIndex(c.counts, k + 1))
  {
    LookupOfEntry(c, k);
    LookupOfEntry(c, k + 1);
    LookupAntitone(c, adc, c.counts[k]);
    LookupAntitone(c, c.counts[k + 1], adc);
    OutOfRangeExactly(c, adc);
    assert c.counts[0] >= c.counts[k] && c.counts[k + 1] >= c.counts[|c.counts| - 1];
  }

  /** Accuracy of the whole conversion: at any true temperature t inside the range of a
      strictly decreasing table, the reading is within one table step of t. */
  lemma ReadsTrueTemperature(exp: real -> real, p: NtcData, t: real)
    requires IsExp(exp) && Measurable(p) && Kelvin(t) > 0.0
    requires StrictlyDecreasing(IdealTable(exp, p))
    requires Degrees(p, 0) <= t <= Degrees(p, ClampedSteps(p) - 1)
    ensures var r := Lookup(IdealCurve(exp, p), Sample(exp, p, t));
      r.Celsius? && -p.step as real <= r.t as real - t <= p.step as real
  {
    var c := IdealCurve(exp, p);
    IdealCurveDescends(exp, p);
    var k := FindStep(p, t, 0);
    RoundTrip(c, k);
    LookupOfEntry(c, k);
    if k + 1 < ClampedSteps(p) {
      RoundTrip(c, k + 1);
      LookupOfEntry(c, k + 1);
      ReadsBetweenEntries(exp, p, t, k);
      assert TempAt(c, k + 1) == TempAt(c, k) + p.step by {
        assert (k + 1) * p.step == k * p.step + p.step;
      }
    }
  }

  /** Outside the range of any table it reads the sentinel, or what the table answers for
      its end, on the right side. */
  lemma ReadsOutside(exp: real -> real, p: NtcData, t: real)
    requires IsExp(exp) && Measurable(p) && Kelvin(t) > 0.0
    ensures var c, last := IdealCurve(exp, p), ClampedSteps(p) - 1;
      var r := Lookup(c, Sample(exp, p, t));
      && (t < Degrees(p, 0) ==> r in {Under, Celsius(TempAt(c, AnsweredIndex(c.counts, 0)))})
      && (t > Degrees(p, last) ==> r in {Over, Celsius(TempAt(c, last))})
  {
    var c, last := IdealCurve(exp, p), ClampedSteps(p) - 1;
    IdealCurveDescends(exp, p);
    TempAtMonotone(c, 0, last);
    LookupOfEntry(c, 0);
    OutOfRangeExactly(c, Sample(exp, p, t));
    if t < Degrees(p, 0) {
      CountAntitone(exp, p, t, Degrees(p, 0));
    }
    if t > Degrees(p, last) {
      CountAntitone(exp, p, Degrees(p, last), t);
    }
  }
}

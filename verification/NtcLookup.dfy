/** What calc_temperature means: a temperature read off a descending table of ADC
    counts by linear interpolation, rounded to the nearest degree.  Everything here is
    defined without the binary search, which class MeasureNtc.Sensor refines to it. */
module NtcLookup {
  import opened CTypes

  const TABLE_SIZE: nat := 166

  /** Entry i of counts is the ADC count at start + i * step degrees. */
  datatype Curve = Curve(counts: seq<uint16>, start: int, step: int)

  datatype Reading = Over | Under | Celsius(t: int)

  ghost predicate NonIncreasing(counts: seq<uint16>) {
    forall i, j :: 0 <= i < j < |counts| ==> counts[i] >= counts[j]
  }

  ghost predicate StrictlyDecreasing(counts: seq<uint16>) {
    forall i, j :: 0 <= i < j < |counts| ==> counts[i] > counts[j]
  }

  function TempAt(c: Curve, i: int): int {
    c.start + i * c.step
  }

  /** At least one step of at least one degree, and every temperature fits 16 bits. */
  predicate WellScaled(c: Curve) {
    && 1 <= |c.counts| <= TABLE_SIZE
    && c.step >= 1
    && -0x8000 <= c.start && TempAt(c, |c.counts| - 1) < 0x8000
  }

  ghost predicate Descending(c: Curve) {
    WellScaled(c) && NonIncreasing(c.counts)
  }

  /** The last index, scanning up from l, up to which the entries stay at or above adc. */
  function Scan(counts: seq<uint16>, adc: uint16, l: nat): (k: nat)
    requires l < |counts| && counts[l] >= adc
    ensures l <= k < |counts| && counts[k] >= adc
    ensures k + 1 < |counts| ==> counts[k + 1] < adc
    decreases |counts| - l
  {
    if l + 1 < |counts| && counts[l + 1] >= adc then Scan(counts, adc, l + 1) else l
  }

  /** Quotient rounded to nearest, halves up. */
  function RoundDiv(x: nat, d: nat): nat
    requires d > 0
  {
    (x + d / 2) / d
  }

  /** Whether adc lies strictly above entry l + 1 and not above entry l. */
  predicate InSegment(c: Curve, adc: uint16, l: nat) {
    l + 1 < |c.counts| && c.counts[l] >= adc > c.counts[l + 1]
  }

  /** Rounded interpolation between entries l and l + 1, counted back from l + 1. */
  function SegmentTemp(c: Curve, adc: uint16, l: nat): int
    requires WellScaled(c) && InSegment(c, adc, l)
  {
    var vl, vr := c.counts[l], c.counts[l + 1];
    TempAt(c, l + 1) - RoundDiv(Product(c.step, adc - vr), vl - vr)
  }

  function Lookup(c: Curve, adc: uint16): Reading
    requires WellScaled(c)
  {
    var last := |c.counts| - 1;
    if adc < c.counts[last] then Over
    else if adc == c.counts[last] then Celsius(TempAt(c, last))
    else if adc > c.counts[0] then Under
    else if adc == c.counts[0] then Celsius(c.start)
    else Celsius(SegmentTemp(c, adc, Scan(c.counts, adc, 0)))
  }

  /** The exact, unrounded interpolation. */
  function IdealTemp(c: Curve, adc: uint16, l: nat): real
    requires InSegment(c, adc, l)
  {
    var vl, vr := c.counts[l], c.counts[l + 1];
    TempAt(c, l + 1) as real - (c.step * (adc - vr)) as real / (vl - vr) as real
  }

  /** The straight line through the two entries. */
  lemma IdealIsLinear(c: Curve, adc: uint16, l: nat)
    requires InSegment(c, adc, l)
    ensures (IdealTemp(c, adc, l) - TempAt(c, l) as real) * (c.counts[l] - c.counts[l + 1]) as real
         == (c.step * (c.counts[l] - adc)) as real
  {
    var d, x := c.counts[l] - c.counts[l + 1], c.step * (adc - c.counts[l + 1]);
    QuotientTimes(x as real, d as real);
    assert (l + 1) * c.step == l * c.step + c.step;
    assert IdealTemp(c, adc, l) - TempAt(c, l) as real == c.step as real - x as real / d as real;
    assert c.step * d - x == c.step * (c.counts[l] - adc);
  }

  lemma QuotientTimes(x: real, d: real)
    requires d > 0.0
    ensures x / d * d == x
  {
  }

  /** Hotter readings come first in this order: Over is above every temperature. */
  predicate NotColder(a: Reading, b: Reading) {
    a.Over? || b.Under? || (a.Celsius? && b.Celsius? && a.t >= b.t)
  }

  /** It is an order of the readings: over every temperature, then hotter before colder,
      then under. */
  lemma NotColderIsOrder(a: Reading, b: Reading, c: Reading)
    ensures NotColder(a, b) || NotColder(b, a)
    ensures NotColder(a, b) && NotColder(b, a) ==> a == b
    ensures NotColder(a, b) && NotColder(b, c) ==> NotColder(a, c)
    ensures NotColder(Over, a) && NotColder(a, Under)
    ensures a.Celsius? && b.Celsius? ==> (NotColder(a, b) <==> a.t >= b.t)
  {
  }

  // Arithmetic.

  function Product(x: nat, y: nat): (p: nat)
    ensures p == x * y
  {
    Mul(x, y);
    x * y
  }

  lemma Mul(x: int, y: int)
    ensures x >= 0 && y >= 0 ==> x * y >= 0
  {
  }

  lemma MulLe(k: int, x: int, y: int)
    requires k >= 0 && x <= y
    ensures k * x <= k * y
  {
  }

  lemma MulLt(d: int, a: int, b: int)
    requires d > 0
    ensures a * d < b * d ==> a < b
  {
  }

  lemma DivBounds(y: nat, d: nat)
    requires d > 0
    ensures y / d * d <= y < (y / d + 1) * d
  {
  }

  /** The rounded quotient is within half a divisor of the exact one. */
  lemma RoundDivNearest(x: nat, d: nat)
    requires d > 0
    ensures 0 - d < 2 * (RoundDiv(x, d) * d - x) <= d
  {
  }

  lemma RoundDivMonotone(x: nat, y: nat, d: nat)
    requires d > 0 && x <= y
    ensures RoundDiv(x, d) <= RoundDiv(y, d)
  {
    DivBounds(x + d / 2, d);
    DivBounds(y + d / 2, d);
    MulLt(d, RoundDiv(x, d), RoundDiv(y, d) + 1);
  }

  lemma RoundDivExact(k: nat, d: nat)
    requires d > 0
    ensures k * d >= 0 && RoundDiv(k * d, d) == k
  {
    Mul(k, d);
    var q := RoundDiv(k * d, d);
    RoundDivNearest(k * d, d);
    assert (k + 1) * d == k * d + d && (k - 1) * d == k * d - d;
    MulLt(d, q, k + 1);
    MulLt(d, k - 1, q);
  }

  // One segment.

  /** A segment reads between its two end temperatures, and exactly the upper one when
      the count equals entry l. */
  lemma SegmentBounds(c: Curve, adc: uint16, l: nat)
    requires WellScaled(c) && InSegment(c, adc, l)
    ensures TempAt(c, l + 1) == TempAt(c, l) + c.step
    ensures TempAt(c, l) <= SegmentTemp(c, adc, l) <= TempAt(c, l + 1)
    ensures adc == c.counts[l] ==> SegmentTemp(c, adc, l) == TempAt(c, l)
  {
    var d: nat := c.counts[l] - c.counts[l + 1];
    var gap: nat := adc - c.counts[l + 1];
    assert (l + 1) * c.step == l * c.step + c.step;
    Mul(c.step, gap);
    MulLe(c.step, gap, d);
    RoundDivMonotone(c.step * gap, c.step * d, d);
    RoundDivExact(c.step, d);
  }

  /** Within a segment a greater count never reads hotter. */
  lemma SegmentAntitone(c: Curve, adc: uint16, adc': uint16, l: nat)
    requires WellScaled(c) && InSegment(c, adc, l) && InSegment(c, adc', l) && adc <= adc'
    ensures SegmentTemp(c, adc, l) >= SegmentTemp(c, adc', l)
  {
    var vr := c.counts[l + 1];
    Mul(c.step, adc - vr);
    MulLe(c.step, adc - vr, adc' - vr);
    RoundDivMonotone(c.step * (adc - vr), c.step * (adc' - vr), c.counts[l] - vr);
  }

  /** The reading is the exact interpolation rounded to the nearest degree. */
  lemma SegmentIsNearest(c: Curve, adc: uint16, l: nat)
    requires WellScaled(c) && InSegment(c, adc, l)
    ensures -0.5 <= SegmentTemp(c, adc, l) as real - IdealTemp(c, adc, l) < 0.5
  {
    var vr := c.counts[l + 1];
    var d: nat := c.counts[l] - vr;
    var x: nat := Product(c.step, adc - vr);
    RoundDivNearest(x, d);
    NearestQuotient(x, d, RoundDiv(x, d));
  }

  lemma NearestQuotient(x: int, d: nat, q: int)
    requires d > 0 && 0 - d < 2 * (q * d - x) <= d
    ensures -0.5 <= x as real / d as real - q as real < 0.5
  {
    var y := x as real / d as real - q as real;
    assert y * d as real == (x - q * d) as real;
    MulLtReal(d as real, y, 0.5);
    MulLtReal(d as real, -0.5, y);
  }

  lemma MulLtReal(d: real, a: real, b: real)
    requires d > 0.0
    ensures a * d < b * d ==> a < b
    ensures a * d <= b * d ==> a <= b
  {
  }
}

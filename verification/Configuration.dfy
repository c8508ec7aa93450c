/** From flash to table: what the persistent store guarantees the measurement chain. */
module Configuration {
  import opened CTypes
  import opened RegisterMap
  import opened RegisterStore
  import opened RegisterTable
  import opened NtcLookup
  import opened NtcLaws
  import opened NtcTable
  import opened MeasureNtc
  import opened Pipeline

  /** The three limited NTC rows of the register table: -10 in -40 .. 20, 1 in 1 .. 5,
      136 in 0 .. 166, the first one signed. */
  const START_ROW: Row := Row(0xFFF6, 0xFFD8, 20, true, true, Signed)
  const STEP_ROW: Row := Row(1, 1, 5, true, true, Unsigned)
  const STEPS_ROW: Row := Row(136, 0, 166, true, true, Unsigned)

  ghost predicate NtcRows(t: Table) {
    && DefaultsOk(t)
    && t[REG_NTC_START] == START_ROW
    && t[REG_NTC_STEP] == STEP_ROW
    && t[REG_NTC_STEPS] == STEPS_ROW
  }

  lemma SoundIsWithinLimits(t: Table, s: Store)
    requires NtcRows(t) && Sound(t, s)
    ensures WithinLimits(s.ram)
  {
  }

  /** The registers that a boot restores after any run from any memory contents. */
  function Restored(t: Table, flash: map<nat, uint16>, ops: seq<Op>): Ram
    requires OpsOk(t, ops)
  {
    Apply(t, Run(t, Booted(t, Store(ResetRam(), flash)), ops), Boot).ram
  }

  /** A boot leaves the registers within their limits whatever it finds. */
  lemma RestoredWithinLimits(t: Table, flash: map<nat, uint16>, ops: seq<Op>)
    requires NtcRows(t) && OpsOk(t, ops)
    ensures WithinLimits(Restored(t, flash, ops))
  {
    var end := Run(t, Booted(t, Store(ResetRam(), flash)), ops);
    BootEstablishes(t, Store(ResetRam(), end.cells));
    SoundIsWithinLimits(t, Apply(t, end, Boot));
  }

  /** Whatever the flash held, and whatever requests, saves and resets came after the
      first boot: the table that the next boot builds can be searched for every
      thermistor law exactly when there is a step and B is not negative, or one step, no
      thermistor or no divider leaves nothing to rise. */
  lemma BootBuildsSearchableTable(t: Table, flash: map<nat, uint16>, ops: seq<Op>)
    requires NtcRows(t) && OpsOk(t, ops)
    requires Buildable(Parameters(Restored(t, flash, ops)))
    ensures var p := Parameters(Restored(t, flash, ops));
      AlwaysDescends(p) <==> p.steps >= 1 && (p.b >= 0 || p.steps == 1 || p.r2 == 0 || p.divider == 0)
  {
    RestoredWithinLimits(t, flash, ops);
    LimitsAlwaysDescendExactly(Restored(t, flash, ops));
  }

  /** And for each single law: exactly when there is a step and B is not negative or the
      two ends of the table agree. */
  lemma BootedTableDescendsExactly(t: Table, flash: map<nat, uint16>, ops: seq<Op>, exp: real -> real)
    requires NtcRows(t) && OpsOk(t, ops) && IsExp(exp)
    requires Buildable(Parameters(Restored(t, flash, ops)))
    ensures var p := Parameters(Restored(t, flash, ops));
      Descending(IdealCurve(exp, p)) <==> p.steps >= 1 && (p.b >= 0 || EndsAgree(IdealCurve(exp, p)))
  {
    RestoredWithinLimits(t, flash, ops);
    LimitsDescendExactly(exp, Restored(t, flash, ops));
  }

  // What the limits let through.

  /** The other NTC rows, 90 to 95, can be written and saved, and have no limits. */
  ghost predicate OpenRows(t: Table) {
    forall r: nat | REG_NTC_R2_W1 <= r <= REG_NTC_T2 :: t[r].writable && t[r].saved && t[r].limit == NoLimit
  }

  /** One request for all nine NTC registers, and its save. */
  function Configure(values: seq<uint16>): seq<Op> {
    [Write(REG_NTC_R2_W1, values), Save(REG_NTC_R2_W1, 9)]
  }

  /** A request for all nine NTC registers is accepted exactly when the three limited
      values are within their limits. */
  lemma AcceptedExactly(t: Table, values: seq<uint16>)
    requires NtcRows(t) && OpenRows(t) && |values| == 9
    ensures Accepts(t, REG_NTC_R2_W1, values)
            <==> -40 <= ToInt16(values[6]) <= 20 && 1 <= values[7] <= 5 && values[8] <= 166
  {
    forall k | 0 <= k < 9
      ensures t[REG_NTC_R2_W1 + k].writable
      ensures k < 6 ==> LimitOk(t[REG_NTC_R2_W1 + k], values[k])
    {
      assert k < 6 ==> t[REG_NTC_R2_W1 + k].limit == NoLimit;
    }
  }

  /** The parameters that nine register values mean. */
  function Meaning(v: seq<uint16>): NtcData
    requires |v| == 9
  {
    NtcData(Word32(v[0], v[1]), ToInt16(v[4]), ToInt16(v[5]), Word32(v[2], v[3]),
            ToInt16(v[6]), ToInt16(v[7]), v[8], ADC_COUNTS, 1)
  }

  lemma ParametersMean(regs: Ram, values: seq<uint16>)
    requires |values| == 9 && forall k | 0 <= k < 9 :: regs[REG_NTC_R2_W1 + k] == values[k]
    ensures Parameters(regs) == Meaning(values)
  {
  }

  /** From every sound store such a request, saved, brings the next boot up with exactly
      these values: every configuration within the limits can be reached. */
  lemma ConfigurationComesBack(t: Table, s: Store, values: seq<uint16>)
    requires NtcRows(t) && OpenRows(t) && Sound(t, s) && |values| == 9
    requires Accepts(t, REG_NTC_R2_W1, values)
    ensures OpsOk(t, Configure(values))
    ensures Parameters(Apply(t, Run(t, s, Configure(values)), Boot).ram) == Meaning(values)
  {
    var regs := Apply(t, Run(t, s, Configure(values)), Boot).ram;
    forall k | 0 <= k < 9 ensures regs[REG_NTC_R2_W1 + k] == values[k] {
      ConfiguredRegister(t, s, values, k);
    }
    ParametersMean(regs, values);
  }

  lemma ConfiguredRegister(t: Table, s: Store, values: seq<uint16>, k: nat)
    requires NtcRows(t) && OpenRows(t) && Sound(t, s) && |values| == 9 && k < 9
    requires Accepts(t, REG_NTC_R2_W1, values) && OpsOk(t, Configure(values))
    ensures Apply(t, Run(t, s, Configure(values)), Boot).ram[REG_NTC_R2_W1 + k] == values[k]
  {
    assert Configure(values) + [] == Configure(values);
    SavedValueComesBack(t, s, REG_NTC_R2_W1, values, REG_NTC_R2_W1, 9, [], REG_NTC_R2_W1 + k);
  }

  /** Start at 20 degrees, 166 steps of five: the hottest table the limits allow. */
  const HOTTEST: seq<uint16> := [50000, 0, 20000, 0, 3950, 25, 20, 5, 166]
  const HOTTEST_PARAMETERS: NtcData := NtcData(50000, 3950, 25, 20000, 20, 5, 166, 4096, 1)

  lemma HottestMeans()
    ensures Meaning(HOTTEST) == HOTTEST_PARAMETERS
  {
    var v := HOTTEST;
    assert v[0] == 50000 && v[1] == 0 && v[2] == 20000 && v[3] == 0 && v[4] == 3950;
    assert v[5] == 25 && v[6] == 20 && v[7] == 5 && v[8] == 166;
  }

  lemma HottestCurve(exp: real -> real)
    requires IsExp(exp)
    ensures Buildable(HOTTEST_PARAMETERS)
    ensures var c := IdealCurve(exp, HOTTEST_PARAMETERS);
      && Descending(c) && |c.counts| == 166
      && Lookup(c, c.counts[165]) == Celsius(845)
      && MeasuredValue(ToUint16(Encode(Lookup(c, c.counts[165])))) == 18964
  {
    assert ClampedSteps(HOTTEST_PARAMETERS) == 166;
    IdealCurveDescends(exp, HOTTEST_PARAMETERS);
  }

  /** It is accepted and comes back at the next boot; its last entry reads 845 degrees,
      but these are stored as 18964. */
  lemma HottestNotHundredfold(t: Table, s: Store, exp: real -> real)
    requires NtcRows(t) && OpenRows(t) && Sound(t, s) && IsExp(exp)
    ensures OpsOk(t, Configure(HOTTEST))
    ensures var p := Parameters(Apply(t, Run(t, s, Configure(HOTTEST)), Boot).ram);
      && p == HOTTEST_PARAMETERS && Buildable(p)
      && var c := IdealCurve(exp, p);
      && Descending(c) && |c.counts| == 166
      && Lookup(c, c.counts[165]) == Celsius(845)
      && MeasuredValue(ToUint16(Encode(Lookup(c, c.counts[165])))) == 18964
  {
    HottestMeans();
    AcceptedExactly(t, HOTTEST);
    ConfigurationComesBack(t, s, HOTTEST);
    HottestCurve(exp);
  }

  lemma FlatCurve(exp: real -> real, p: NtcData)
    requires IsExp(exp) && Tabular(p) && p.b == 0 && p.steps >= 2
    ensures var c := IdealCurve(exp, p);
      && Descending(c) && OnlyReadsHottest(c)
      && Lookup(c, c.counts[0]).Celsius? && Lookup(c, c.counts[0]).t > TempAt(c, 0)
  {
    FlatReadsHottest(exp, p);
    TempAtMonotone(IdealCurve(exp, p), 0, ClampedSteps(p) - 1);
  }

  /** B = 0 is accepted too.  Then the whole table is one plateau, and what a thermistor
      gives at the first table temperature is read as the last one. */
  lemma FlatConfiguration(t: Table, s: Store, values: seq<uint16>, exp: real -> real)
    requires NtcRows(t) && OpenRows(t) && Sound(t, s) && IsExp(exp) && |values| == 9
    requires Accepts(t, REG_NTC_R2_W1, values) && values[4] == 0 && values[8] >= 2 && Buildable(Meaning(values))
    ensures OpsOk(t, Configure(values))
    ensures var p := Parameters(Apply(t, Run(t, s, Configure(values)), Boot).ram);
      && p == Meaning(values)
      && var c := IdealCurve(exp, p);
      && Descending(c) && OnlyReadsHottest(c)
      && Lookup(c, c.counts[0]).Celsius? && Lookup(c, c.counts[0]).t > TempAt(c, 0)
  {
    ConfigurationComesBack(t, s, values);
    MeaningIsTabular(t, values);
    FlatCurve(exp, Meaning(values));
  }

  lemma MeaningIsTabular(t: Table, values: seq<uint16>)
    requires NtcRows(t) && OpenRows(t) && |values| == 9 && Accepts(t, REG_NTC_R2_W1, values)
    requires values[8] >= 1 && Buildable(Meaning(values))
    ensures Tabular(Meaning(values))
  {
    AcceptedExactly(t, values);
    var p := Meaning(values);
    MulLe(ClampedSteps(p) - 1, p.step, 5);
  }

  /** The limits alone do not guarantee a table: from every sound store one
      accepted write request, saved, brings the next boot up with no table step at all. */
  lemma ZeroStepsAccepted(t: Table, s: Store)
    requires NtcRows(t) && Sound(t, s)
    ensures var ops := [Write(REG_NTC_STEPS, [0]), Save(REG_NTC_STEPS, 1)];
      && OpsOk(t, ops)
      && var regs := Apply(t, Run(t, s, ops), Boot).ram;
      && regs[REG_NTC_STEPS] == 0 && !HasTable(regs)
  {
    var ops := [Write(REG_NTC_STEPS, [0]), Save(REG_NTC_STEPS, 1)];
    var values: seq<uint16> := [0];
    assert Accepts(t, REG_NTC_STEPS, values);
    SavedValueComesBack(t, s, REG_NTC_STEPS, values, REG_NTC_STEPS, 1, [], REG_NTC_STEPS);
    assert ops + [] == ops;
  }

  /** B = -3950, which has no limits, with the factory values around it. */
  const RISING: seq<uint16> := [50000, 0, 20000, 0, 61586, 25, 0xFFF6, 1, 136]
  const RISING_PARAMETERS: NtcData := NtcData(50000, -3950, 25, 20000, -10, 1, 136, 4096, 1)

  /** Exactly which accepted configurations boot with a table that can be searched for
      every thermistor law. */
  lemma ConfigurationDescendsExactly(t: Table, s: Store, values: seq<uint16>)
    requires NtcRows(t) && OpenRows(t) && Sound(t, s) && |values| == 9
    requires Accepts(t, REG_NTC_R2_W1, values) && Buildable(Meaning(values))
    ensures OpsOk(t, Configure(values))
    ensures var p := Parameters(Apply(t, Run(t, s, Configure(values)), Boot).ram);
      && p == Meaning(values)
      && (AlwaysDescends(p) <==> p.steps >= 1 && (p.b >= 0 || p.steps == 1 || p.r2 == 0 || p.divider == 0))
  {
    ConfigurationComesBack(t, s, values);
    MeaningDescendsExactly(t, values);
  }

  lemma MeaningDescendsExactly(t: Table, values: seq<uint16>)
    requires NtcRows(t) && OpenRows(t) && |values| == 9
    requires Accepts(t, REG_NTC_R2_W1, values) && Buildable(Meaning(values))
    ensures var p := Meaning(values);
      AlwaysDescends(p) <==> p.steps >= 1 && (p.b >= 0 || p.steps == 1 || p.r2 == 0 || p.divider == 0)
  {
    var regs: Ram := seq(NUM_BUF, i => if REG_NTC_R2_W1 <= i <= REG_NTC_STEPS then values[i - REG_NTC_R2_W1] else 0);
    ParametersMean(regs, values);
    AcceptedExactly(t, values);
    LimitsAlwaysDescendExactly(regs);
  }

  lemma RisingMeans()
    ensures Meaning(RISING) == RISING_PARAMETERS
  {
    var v := RISING;
    assert v[0] == 50000 && v[1] == 0 && v[2] == 20000 && v[3] == 0 && v[4] == 61586;
    assert v[5] == 25 && v[6] == 0xFFF6 && v[7] == 1 && v[8] == 136;
  }

  /** So a negative B is accepted, and then the table does not always descend. */
  lemma RisingConfiguration(t: Table, s: Store)
    requires NtcRows(t) && OpenRows(t) && Sound(t, s)
    ensures OpsOk(t, Configure(RISING))
    ensures var p := Parameters(Apply(t, Run(t, s, Configure(RISING)), Boot).ram);
      p == RISING_PARAMETERS && Buildable(p) && !AlwaysDescends(p)
  {
    RisingMeans();
    AcceptedExactly(t, RISING);
    ConfigurationDescendsExactly(t, s, RISING);
  }

  /** A divider without any resistance is accepted as well; the builder then divides by
      zero for every entry. */
  lemma NoResistanceAccepted(t: Table, s: Store, values: seq<uint16>, exp: real -> real, i: nat)
    requires NtcRows(t) && OpenRows(t) && Sound(t, s) && IsExp(exp) && |values| == 9
    requires Accepts(t, REG_NTC_R2_W1, values) && i < ClampedSteps(Meaning(values))
    ensures OpsOk(t, Configure(values))
    ensures var p := Parameters(Apply(t, Run(t, s, Configure(values)), Boot).ram);
      && Kelvin(Degrees(p, i)) != 0.0
      && (2.0 * (Resistance(exp, p, Degrees(p, i)) + p.divider as real) == 0.0 <==> p.r2 == 0 && p.divider == 0)
  {
    ConfigurationComesBack(t, s, values);
    var p := Meaning(values);
    WholeIsNotAbsoluteZero(p.start + i * p.step);
    ResistanceExactly(exp, p, Degrees(p, i));
  }

  /** The default column of the NTC rows: 50000 ohm at 25 degrees, B 3950, divider 20000. */
  ghost predicate FactoryRows(t: Table) {
    && NtcRows(t)
    && (forall r: nat | REG_NTC_R2_W1 <= r <= REG_NTC_STEPS :: t[r].saved && LimitOk(t[r], t[r].initial))
    && t[REG_NTC_R2_W1].initial == 50000 && t[REG_NTC_R2_W2].initial == 0
    && t[REG_NTC_DIVIDER_W1].initial == 20000 && t[REG_NTC_DIVIDER_W2].initial == 0
    && t[REG_NTC_B].initial == 3950 && t[REG_NTC_T2].initial == 25
  }

  const FACTORY_PARAMETERS: NtcData := NtcData(50000, 3950, 25, 20000, -10, 1, 136, 4096, 1)

  lemma FactoryRegisters(t: Table, s: Store)
    requires FactoryRows(t) && Sound(t, s)
    ensures Parameters(Apply(t, Apply(t, s, Factory), Boot).ram) == FACTORY_PARAMETERS
  {
    var regs := Apply(t, Apply(t, s, Factory), Boot).ram;
    forall r: nat | REG_NTC_R2_W1 <= r <= REG_NTC_STEPS ensures regs[r] == t[r].initial {
      FactoryComesBack(t, s, r);
    }
    DefaultParameters(t, regs);
  }

  lemma DefaultParameters(t: Table, regs: Ram)
    requires FactoryRows(t)
    requires forall r: nat | REG_NTC_R2_W1 <= r <= REG_NTC_STEPS :: regs[r] == t[r].initial
    ensures Parameters(regs) == FACTORY_PARAMETERS
  {
  }

  lemma FactoryCurve(exp: real -> real)
    requires IsExp(exp)
    ensures Buildable(FACTORY_PARAMETERS)
    ensures var c := IdealCurve(exp, FACTORY_PARAMETERS);
      Descending(c) && c.step == 1 && |c.counts| == 136 && TempAt(c, 0) == -10 && TempAt(c, 135) == 125
  {
    assert ClampedSteps(FACTORY_PARAMETERS) == 136;
    IdealCurveDescends(exp, FACTORY_PARAMETERS);
  }

  /** With an exponential, the divider of the factory settings stands at 50000 of 70000 ohm
      at 25 degrees: the entry for that temperature is 2926 of 4096. */
  lemma FactoryEntry(exp: real -> real)
    requires IsExp(exp) && exp(0.0) == 1.0
    ensures IdealTable(exp, FACTORY_PARAMETERS)[35] == 2926
  {
    var p := FACTORY_PARAMETERS;
    assert ClampedSteps(p) == 136;
    EntryOf(exp, p, 35);
    NominalResistance(exp, p);
    EntryIsNearest(exp, p, 25.0);
    NearestOfShare(IdealCount(exp, p, 25.0), Sample(exp, p, 25.0));
  }

  lemma NearestOfShare(count: real, n: uint16)
    requires count * 70000.0 == 4096.0 * 50000.0 && -0.5 < n as real - count <= 0.5
    ensures n == 2926
  {
  }

  /** After a factory reset and a boot the sensor measures from -10 to 125 degrees in
      steps of one, and stores every temperature it reads hundredfold in the attribute. */
  lemma FactorySettingsMeasure(t: Table, s: Store, exp: real -> real)
    requires FactoryRows(t) && Sound(t, s) && IsExp(exp)
    ensures var p := Parameters(Apply(t, Apply(t, s, Factory), Boot).ram);
      && Measurable(p)
      && var c := IdealCurve(exp, p);
      && Descending(c) && c.step == 1 && |c.counts| == 136 && TempAt(c, 0) == -10 && TempAt(c, 135) == 125
      && forall adc: uint16 | Lookup(c, adc).Celsius? ::
           MeasuredValue(ToUint16(Encode(Lookup(c, adc)))) == 100 * Lookup(c, adc).t
  {
    FactoryRegisters(t, s);
    FactoryCurve(exp);
    AttributeExactly(IdealCurve(exp, FACTORY_PARAMETERS));
  }

  lemma FirmwareNtcRows()
    ensures NtcRow(REG_NTC_R2_W1) == Open(50000, 0xFFFF) && NtcRow(REG_NTC_R2_W2) == Open(0, 0xFFFF)
    ensures NtcRow(REG_NTC_DIVIDER_W1) == Open(20000, 0xFFFF) && NtcRow(REG_NTC_DIVIDER_W2) == Open(0, 0xFFFF)
    ensures NtcRow(REG_NTC_B) == Open(3950, 0xFFFF) && NtcRow(REG_NTC_T2) == Open(25, 0xFFFF)
    ensures NtcRow(REG_NTC_START) == START_ROW && NtcRow(REG_NTC_STEP) == STEP_ROW && NtcRow(REG_NTC_STEPS) == STEPS_ROW
  {
  }

  /** The register table of the firmware has these rows, so all of this holds of it. */
  lemma FirmwareTable()
    ensures FactoryRows(DefaultState()) && OpenRows(DefaultState())
  {
    DefaultsWithinLimits();
    FirmwareNtcRows();
    forall i: nat | REG_NTC_R2_W1 <= i <= REG_NTC_STEPS ensures DefaultState()[i] == NtcRow(i) {
      NtcState(i);
    }
    RowsSuffice(DefaultState());
  }

  lemma RowsSuffice(t: Table)
    requires DefaultsOk(t)
    requires t[REG_NTC_R2_W1] == Open(50000, 0xFFFF) && t[REG_NTC_R2_W2] == Open(0, 0xFFFF)
    requires t[REG_NTC_DIVIDER_W1] == Open(20000, 0xFFFF) && t[REG_NTC_DIVIDER_W2] == Open(0, 0xFFFF)
    requires t[REG_NTC_B] == Open(3950, 0xFFFF) && t[REG_NTC_T2] == Open(25, 0xFFFF)
    requires t[REG_NTC_START] == START_ROW && t[REG_NTC_STEP] == STEP_ROW && t[REG_NTC_STEPS] == STEPS_ROW
    ensures FactoryRows(t) && OpenRows(t)
  {
  }

  /** The first power-up of a device with empty memory: the version number in register 0,
      the factory parameters in the NTC registers. */
  lemma FirstPowerUp()
    ensures var ram := PowerUp(DefaultState(), map[]).ram;
      ram[0] == 101 && Parameters(ram) == FACTORY_PARAMETERS
  {
    var t := DefaultState();
    FirmwareTable();
    FirstRegister();
    forall r: nat | REG_NTC_R2_W1 <= r <= REG_NTC_STEPS ensures PowerUp(t, map[]).ram[r] == t[r].initial {
      BootRestores(t, Store(ResetRam(), map[]), r);
    }
    DefaultParameters(t, PowerUp(t, map[]).ram);
  }

  lemma FirstRegister()
    ensures PowerUp(DefaultState(), map[]).ram[0] == 101
  {
    assert DefaultState()[0] == NetworkRow(0);
    BootRestores(DefaultState(), Store(ResetRam(), map[]), 0);
  }

  /** And the network settings: mode, channel, waiting time, timeout and address. */
  lemma FirstNetworkSettings()
    ensures var ram := PowerUp(DefaultState(), map[]).ram;
      && ram[40] == 2 && ram[41] == 16 && ram[42] == 10 && ram[47] == 6
      && ram[70..78] == [0, 1, 0xF4, 0xCE, 0x47, 0xCA, 0x36, 0x5B]
  {
    var t, ram := DefaultState(), PowerUp(DefaultState(), map[]).ram;
    forall i: nat | i < NUM_BUF && t[i].saved ensures ram[i] == t[i].initial {
      BootRestores(t, Store(ResetRam(), map[]), i);
    }
    forall i: nat | 70 <= i < 78 ensures ram[i] == AddressRow(i).initial {
      assert t[i] == AddressRow(i);
    }
    forall i: nat | i < 70 ensures t[i] == NetworkRow(i) {
    }
  }
}

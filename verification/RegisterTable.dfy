/** The register table of the firmware: defaults, limits and permissions. */
module RegisterTable {
  import opened CTypes
  import opened RegisterMap
  import opened RegisterStore

  const ZI_SET_MODE_BIT_SET_CODE: uint16 := 2
  const ZI_SET_CHANNEL_DEFAULT: uint16 := 16
  const ZI_SET_WAIT_TIME_S_DEFAULT: uint16 := 10

  // End device timeouts of the Zigbee specification: the value k stands for 2^k minutes.
  const ED_AGING_TIMEOUT_2MIN: uint16 := 1
  const ED_AGING_TIMEOUT_64MIN: uint16 := 6
  const ED_AGING_TIMEOUT_16384MIN: uint16 := 14

  const SIZE_NTC_TABLE: uint16 := 166

  /** A register that can be written and is saved, without limits. */
  function Open(initial: uint16, max: uint16): Row {
    Row(initial, 0, max, true, true, NoLimit)
  }

  /** Commands and network settings. */
  function NetworkRow(i: nat): Row {
    match i
    case 29 => Row(0, 0, 0, true, false, NoLimit)
    case 40 => Open(ZI_SET_MODE_BIT_SET_CODE, 0)
    case 41 => Row(ZI_SET_CHANNEL_DEFAULT, 11, 26, true, true, Unsigned)
    case 42 => Open(ZI_SET_WAIT_TIME_S_DEFAULT, 0)
    case 47 => Row(ED_AGING_TIMEOUT_64MIN, ED_AGING_TIMEOUT_2MIN, ED_AGING_TIMEOUT_16384MIN, true, true, Unsigned)
    case _ => BLANK
  }

  /** Address and install code. */
  function AddressRow(i: nat): Row {
    match i
    case 70 => Open(0, 0xFF)
    case 71 => Open(1, 0xFF)
    case 72 => Open(0xF4, 0xFF)
    case 73 => Open(0xCE, 0xFF)
    case 74 => Open(0x47, 0xFF)
    case 75 => Open(0xCA, 0xFF)
    case 76 => Open(0x36, 0xFF)
    case 77 => Open(0x5B, 0xFF)
    case 80 => Open(0x0102, 0xFFFF)
    case 81 => Open(0x0304, 0xFFFF)
    case 82 => Open(0x0506, 0xFFFF)
    case 83 => Open(0x0708, 0xFFFF)
    case 84 => Open(0x090A, 0xFFFF)
    case 85 => Open(0x0B0C, 0xFFFF)
    case 86 => Open(0x0D0E, 0xFFFF)
    case 87 => Open(0x0F11, 0xFFFF)
    case _ => BLANK
  }

  /** The thermistor. */
  function NtcRow(i: nat): Row {
    match i
    case 90 => Open(50000, 0xFFFF)
    case 91 => Open(0, 0xFFFF)
    case 92 => Open(20000, 0xFFFF)
    case 93 => Open(0, 0xFFFF)
    case 94 => Open(3950, 0xFFFF)
    case 95 => Open(25, 0xFFFF)
    case 96 => Row(ToUint16(-10), ToUint16(-40), 20, true, true, Signed)
    case 97 => Row(1, 1, 5, true, true, Unsigned)
    case 98 => Row(136, 0, SIZE_NTC_TABLE, true, true, Unsigned)
    case _ => BLANK
  }

  /** Row i; the numbers that the table skips are all zero. */
  function RowAt(i: nat): Row {
    if i < 70 then NetworkRow(i) else if i < 90 then AddressRow(i) else NtcRow(i)
  }

  lemma NetworkDefaults(i: nat)
    ensures NetworkRow(i).saved ==> LimitOk(NetworkRow(i), NetworkRow(i).initial)
  {
  }

  lemma AddressDefaults(i: nat)
    ensures AddressRow(i).saved ==> LimitOk(AddressRow(i), AddressRow(i).initial)
  {
  }

  lemma NtcDefaults(i: nat)
    ensures NtcRow(i).saved ==> LimitOk(NtcRow(i), NtcRow(i).initial)
  {
  }

  function DefaultState(): Table {
    seq(NUM_BUF, i requires 0 <= i < NUM_BUF => RowAt(i))
  }

  /** Every default is within its own limits. */
  lemma DefaultsWithinLimits()
    ensures DefaultsOk(DefaultState())
  {
    var t := DefaultState();
    forall i: nat | i < NUM_BUF && t[i].saved ensures LimitOk(t[i], t[i].initial) {
      NetworkDefaults(i);
      AddressDefaults(i);
      NtcDefaults(i);
    }
  }

  /** Which registers are saved and which can be written; nothing else is set. */
  lemma SavedExactly(i: nat)
    requires i < 120
    ensures |DefaultState()| == 120
    ensures var row := DefaultState()[i];
      && (row.saved <==> i in {40, 41, 42, 47} || 70 <= i <= 77 || 80 <= i <= 87 || 90 <= i <= 98)
      && (row.writable <==> row.saved || i == 29)
      && (!row.saved ==> row == Row(0, 0, 0, i == 29, false, NoLimit))
  {
    assert DefaultState()[i] == RowAt(i);
  }

  /** Which values a register takes: five registers have limits. */
  lemma LimitsExactly(i: nat, v: uint16)
    requires i < NUM_BUF
    ensures LimitOk(DefaultState()[i], v) <==>
      && (i == 41 ==> 11 <= v <= 26)
      && (i == 47 ==> 1 <= v <= 14)
      && (i == 96 ==> -40 <= ToInt16(v) <= 20)
      && (i == 97 ==> 1 <= v <= 5)
      && (i == 98 ==> v <= 166)
  {
    assert DefaultState()[i] == RowAt(i);
  }

  /** The ranges of the saved registers without limits, which nothing checks. */
  lemma UncheckedRanges(i: nat)
    requires i < NUM_BUF && DefaultState()[i].saved && DefaultState()[i].limit == NoLimit
    ensures var row := DefaultState()[i];
      row.min == 0 && row.max == if i < 70 then 0 else if i < 80 then 0xFF else 0xFFFF
  {
    SavedExactly(i);
    assert DefaultState()[i] == RowAt(i);
  }

  lemma NtcState(i: nat)
    requires 90 <= i < NUM_BUF
    ensures DefaultState()[i] == NtcRow(i)
  {
  }
}

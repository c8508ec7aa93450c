/** Register numbers of the Modbus map that the model uses. */
module RegisterMap {
  const REG_NTC_R2_W1: nat := 90
  const REG_NTC_R2_W2: nat := 91
  const REG_NTC_DIVIDER_W1: nat := 92
  const REG_NTC_DIVIDER_W2: nat := 93
  const REG_NTC_B: nat := 94
  const REG_NTC_T2: nat := 95
  const REG_NTC_START: nat := 96
  const REG_NTC_STEP: nat := 97
  const REG_NTC_STEPS: nat := 98

  /** The table runs from Reg_Start, 0, to Reg_End, 119. */
  const NUM_BUF: nat := 120
}

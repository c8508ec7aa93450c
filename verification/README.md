# Zigbee temperature sensor: verified model

The firmware reads a thermistor through a voltage divider, publishes the temperature on
Modbus registers and in a Zigbee attribute, keeps its configuration in non-volatile memory,
answers Modbus frames over USB, rejoins its network by itself and shows a few virtual files
on a USB drive. This project models those parts and proves what they keep over every input,
every history and every interleaving.

Measurement chain, in data order:

- `Median`, `MedianNetwork`: what a median of nine is, and the 19 in-place exchanges that
  compute it.
- `AdcFilter`: the integer low-pass filter `(3F + A) >> 2` and where it settles.
- `NtcLookup`, `NtcLaws`: reading a temperature off a descending table, defined by a linear
  scan and rounded interpolation; monotonicity, rounding, round trips.
- `NtcTable`: the thermistor law over the reals (`exp` is any positive, strictly increasing
  function), the table it yields, and exactly when that table can be searched.
- `MeasureNtc`: the class that fills the table and searches it by bisection, proved against
  the two modules above.
- `AdcRun`, `IoAdc`: whole histories of conversions, and the task that processes them.
- `Pipeline`, `Configuration`: registers to parameters to table to reading to attribute, and
  what the persistent store guarantees them.

The rest:

- `Crc16`, `CrcBits`, `WordBits`, `Crc16Bits`, `LinearMachine`: the CRC-16/X-25 code and its
  bit-serial register; `CrcTable`: the table-driven form; `Periods`, `CrcPeriod`: the
  period of the register; `CrcLaws`, `CrcTwoBits`, `CrcResidue`, `CrcDivision`, `InstallCode`:
  what it detects, its residue (section C.2 of RFC 1662), polynomial division, and the install
  code; `CrcValues`: the CRC of particular messages.
- `RegisterStore`, `RegisterTable`, `ModbusHard`: registers and their stored copies over runs of
  boots, saves, resets, requests and power failures; the table; the loops over it.
- `FrameOwnership`, `UsbHandler`: the one frame buffer shared by interrupt handler and task.
- `Rejoin`: network signals, the reconnect alarm and the decision to erase, over timed runs.
- `AppFiles`: the virtual files.

`dafny verify dfyconfig.toml` checks everything.

## Where the code falls short, and exactly when it does not

- A step count of 0 passes the register limits, and then the one-byte last index is 255, not
  inside the 166-entry table: `MeasureNtc.TopIndexInTable`, `Configuration.ZeroStepsAccepted`.
  All lookup results are for at least one step.
- A divider without any resistance passes them too, and then every entry divides by zero:
  `Configuration.NoResistanceAccepted`. The table results are for some resistance.
- B has no limits either. A table descends for every thermistor law exactly when B is not
  negative or something leaves it flat, and for one law exactly when B is not negative or its
  ends agree: `NtcTable.AlwaysDescendsExactly`, `NtcTable.DescendsExactly`,
  `Configuration.BootBuildsSearchableTable`. B = -3950 is accepted:
  `Configuration.RisingConfiguration`.
- A table entry does not always read back as its own temperature: `NtcLaws.RoundTripExactly`.
  With B = 0, which is accepted, every entry reads as the hottest temperature:
  `Configuration.FlatConfiguration`.
- The attribute is 100 times the temperature exactly up to 327 degrees:
  `Pipeline.HundredfoldExactly`, `Pipeline.AttributeExactly`. The limits allow 845, which is
  then stored as 18964: `Configuration.HottestNotHundredfold`. The reading can still be told from
  the attribute: `Pipeline.AttributeReadsBack`.
- A negative filter state is converted to a large unsigned count, so it reads "under" although
  it means "hotter than the table". A history keeps its order with all histories above it
  exactly when it does not leave the filter negative: `AdcRun.OrderKeptExactly`. Five negative
  samples of nine in every read break the order, at most four in every read never do:
  `AdcRun.NegativeSamplesBreakOrder`, `AdcRun.ReadingAntitoneOfSamples`.
- The filter stops up to three counts below a constant input it approaches from below:
  `AdcFilter.StationaryExactly`, `AdcFilter.SettlesExactly`.
- The transmit branch ignores how much the serial driver took. A response is sent in full
  exactly when it fits the driver's room; of a longer one, which any frame can lead to, the rest
  is never sent: `FrameOwnership.SentInFullExactly`, `FrameOwnership.ShortWriteHappens`.
- Two wrong bits go unnoticed by the CRC exactly when they are a multiple of 32767 bits apart:
  `CrcTwoBits.TwoBitErrorExactly`. Messages of up to 4095 bytes are too short for that.

## Assumptions

- The serial driver reports the transmitter ready only while it is enabled, as
  `cdc_acm_irq_tx_ready` in the listing msd_zigbee_52840/zephyr/zephyr.lst does. Without that a
  frame's length could be lost: `FrameOwnership.UngatedLosesFrame`.
- An update of one stored item is done wholly or not at all when the power fails, and reads
  and updates succeed; the source ignores their error codes.
- `exp` is positive and strictly increasing, and arithmetic on `float` is exact.

## Model

| member | source | states |
|---|---|---|
| Median.MedianIsMiddleOfSorted | src/io_adc.c:124-128 | a value splits the nine samples five to five at every threshold exactly when it is element 4 of their sorted arrangement |
| Median.SortedExactly | src/io_adc.c:124-128 | sorted: no value is above its successor |
| Median.MedianRobust | src/io_adc.c:129-147 | four outliers cannot move a median out of an interval that holds the other five samples |
| Median.MedianMonotone | src/io_adc.c:129-147 | raising samples never lowers the median, and it never moves further than the samples do |
| MedianNetwork.ResultIsMedian | src/io_adc.c:137-144 | what the exchanges leave in place 4 is the median of the nine samples, for all inputs |
| MedianNetwork.SortThirds | src/io_adc.c:137-139 | the first nine exchanges sort the thirds and permute the samples |
| MedianNetwork.CombineThirds | src/io_adc.c:140-143 | the other ten bring the middle of the greatest low, middle mid and least high to place 4 |
| MedianNetwork.RunNetwork | src/io_adc.c:137-144 | the 19 in-place exchanges leave that value in place 4 and permute the samples |
| MedianNetwork.PixSort | src/io_adc.c:132-133 | one exchange puts the smaller value first and touches nothing else |
| AdcFilter.StepStaysBetween | src/io_adc.c:185 | a filter step stays between state and input, so the 16-bit state never overflows |
| AdcFilter.StepIsWeightedMean | src/io_adc.c:185 | a step is three parts state and one part input, rounded down |
| AdcFilter.StationaryExactly | src/io_adc.c:185 | a state is stationary exactly within three counts below the input |
| AdcFilter.SettlesExactly | src/io_adc.c:185 | under constant input the filter reaches its limit in at most as many steps as it is counts away: the input from above, up to three counts short from below |
| AdcFilter.SettleApproaches | src/io_adc.c:185 | it never overshoots the limit and comes closer with every step |
| AdcFilter.SettlesGeometrically | src/io_adc.c:185 | the distance beyond three counts shrinks by 3/4 each step |
| NtcLaws.BracketIsUnique | src/measure_NTC.c:82-95 | on a descending table the segment around a count is unique: its left end is the last index whose entry is at least the count |
| NtcLaws.LookupInRange | src/measure_NTC.c:53-108 | every temperature read lies between the first and last of the table |
| NtcLaws.WellScaledExactly | src/measure_NTC.c:53-108 | the tables the search is meant for: one to 166 entries, rising temperatures of 16 bits |
| NtcLaws.FallsExactly | src/measure_NTC.c:82-95 | a table falls exactly when every entry and its successor do |
| NtcLaws.OutOfRangeExactly | src/measure_NTC.c:64-80 | the sentinels are returned exactly for counts outside the table |
| NtcLaws.LookupAntitone | src/measure_NTC.c:64-107 | a greater count never reads hotter, across segments, exact entries, plateaus and sentinels |
| NtcLookup.NotColderIsOrder | src/measure_NTC.c:64-80 | the order of readings is total, antisymmetric and transitive, by temperature between the sentinels |
| NtcLookup.SegmentBounds | src/measure_NTC.c:95-107 | interpolation stays between the two temperatures of its segment and hits the left one exactly at its entry |
| NtcLookup.SegmentIsNearest | src/measure_NTC.c:100-107 | interpolation is the exact linear one rounded to the nearest degree |
| NtcLookup.IdealIsLinear | src/measure_NTC.c:100-107 | the exact interpolation is the straight line through the two entries |
| NtcLaws.LookupIsNearest | src/measure_NTC.c:95-107 | so is the whole lookup inside the table |
| NtcLaws.LookupOfEntry | src/measure_NTC.c:64-99 | what every entry of every descending table reads as: the end of its plateau, or index 0 for a plateau that starts but does not fill the table |
| NtcLaws.RoundTripExactly | src/measure_NTC.c:64-99 | the exact condition under which an entry reads back as its own temperature |
| NtcTable.EntryIsRoundedCount | src/measure_NTC.c:46-49 | the truncated quotient is the ideal divider count rounded to nearest, and fits the entry |
| NtcTable.EntryIsNearest | src/measure_NTC.c:46-49 | it is within half a count of full scale times R / (R + divider) |
| NtcTable.EntryOf | src/measure_NTC.c:44-46 | entry i belongs to start + i * step degrees |
| NtcTable.NominalResistance | src/measure_NTC.c:37-47 | at T2 the thermistor has the resistance R2 |
| NtcTable.ResistanceLaw | src/measure_NTC.c:37-47 | for an exponential, the resistances at two temperatures differ by the factor exp(B / (t + 273.15) - B / (t' + 273.15)) |
| NtcTable.ClampsExactly | src/measure_NTC.c:39-42 | the step count is kept up to 166 and is 166 beyond |
| NtcTable.TabularExactly | src/measure_NTC.c:32-51 | the parameters the results ask for: a step, all temperatures above absolute zero and in 16 bits, full scale in an entry |
| NtcTable.CountAntitone | src/measure_NTC.c:46-49 | a hotter thermistor never raises the count |
| NtcTable.DescendsExactly | src/measure_NTC.c:32-51 | for every sign of B: the table descends exactly when B is not negative or its ends agree |
| NtcTable.AlwaysDescendsExactly | src/measure_NTC.c:32-51 | it descends for every thermistor law exactly when B is not negative, there is one step, or the parameters make it flat |
| NtcTable.FlatReadsHottest | src/measure_NTC.c:64-73 | every entry of a flat table reads as its hottest temperature |
| NtcTable.ReadsBetweenEntries | src/measure_NTC.c:32-108 | between two table temperatures an ideal converter reads between what the table answers for those two entries |
| NtcTable.ReadsTrueTemperature | src/measure_NTC.c:32-108 | on a strictly decreasing table the reading is within one table step of the true temperature |
| NtcTable.ReadsOutside | src/measure_NTC.c:64-80 | outside the range it reads the sentinel, or the end, on the right side |
| MeasureNtc.TopIndexInTable | src/measure_NTC.c:56-57 | the one-byte last index is inside the table exactly when there is at least one step |
| MeasureNtc.Sensor.CalculateTable | src/measure_NTC.c:32-51 | the loop fills the table with the rounded ideal counts, clamps the step count, leaves the rest alone |
| MeasureNtc.Sensor.CalcTemperature | src/measure_NTC.c:53-108 | bisection terminates inside the table with 8-bit indices and 16/32-bit arithmetic, and on a descending table returns what the linear scan finds |
| MeasureNtc.Sensor.Search | src/measure_NTC.c:53-108 | the bisection on any table, descending or not: an end, or the interpolation of some bracketing segment |
| MeasureNtc.Sensor.Interpolate | src/measure_NTC.c:100-107 | the last lines in 32 bits compute the rounded interpolation |
| MeasureNtc.Sensor.EntryAt | src/measure_NTC.c:46-49 | the loop body computes the rounded ideal count |
| AdcRun.AddressesTile | src/io_adc.c:131-136 | the interleaved addresses of all channels tile the sample buffer |
| AdcRun.EveryPlaceSampled | src/io_adc.c:131-136 | every place of the buffer is sample j / channels of channel j % channels |
| AdcRun.FilterRobust | src/io_adc.c:164-188 | over every history, four outliers per read never move the filter out of an interval |
| AdcRun.FilterRobustRaw | src/io_adc.c:131-188 | the same of the raw reads: five of the nine places of the channel in the interval, in every read |
| AdcRun.MostlyWithinExactly | src/io_adc.c:131-136 | the condition of the robustness results, in terms of the raw reads |
| AdcRun.FilterFits | src/io_adc.c:154-187 | the filter state fits 16 bits for ever |
| AdcRun.FilterSettles | src/io_adc.c:185 | under constant medians the filter of the task runs as the filter step iterated |
| AdcRun.FilterMonotone | src/io_adc.c:164-188 | of two histories, one nowhere more than e above the other, the filter states keep that distance, for ever; e = 0 is monotonicity |
| AdcRun.ReadingRobust | src/io_adc.c:164-188 | robustness of the reported temperature over every history |
| AdcRun.ReadingAntitone | src/io_adc.c:164-188 | of two histories the greater reads no hotter if the lower leaves the filter at 0 or above |
| AdcRun.ReadingAntitoneOfSamples | src/io_adc.c:164-188 | it does if at most four of nine samples are negative in every read of the lower |
| AdcRun.OrderKeptExactly | src/io_adc.c:164-188 | a history keeps its order with every history above it exactly when it does not leave the filter negative |
| AdcRun.NegativeSamplesBreakOrder | src/io_adc.c:164-188 | five negative samples of nine in every read read under and break the order |
| AdcRun.ReadingOrderExactly | src/io_adc.c:168 | exactly when two ordered filter states keep their order in the readings |
| AdcRun.NegativeReadsUnder | src/io_adc.c:168 | a negative filter state reads under |
| AdcRun.ReadingSettles | src/io_adc.c:181-188 | after constant medians the reading is that of a count at most three below, exact from above; only a filter that came from a negative state to fewer than three counts is left reading under |
| IoAdc.AdcTask.GetAdcVal | src/io_adc.c:129-147 | the value is the median of the channel's nine samples |
| IoAdc.AdcTask.Pass | src/io_adc.c:181-188 | one pass steps every filter and publishes every reading, and touches no other register |
| IoAdc.AdcTask.Publish | src/io_adc.c:186-187 | the word appears in both places and nowhere else |
| IoAdc.AdcTask.ShownExactly | src/io_adc.c:168-169 | the register after the channel number shows 0x7002 above the table, 0x7001 below it, else the temperature in two's complement |
| IoAdc.AdcTask.Turn | src/io_adc.c:175-188 | a read and a pass extend the history by one |
| IoAdc.GoodSoFar | src/io_adc.c:175-180 | the history has exactly the reads before the first that fails |
| IoAdc.AdcTask.Task | src/io_adc.c:152-191 | after any reads up to the first failure every channel shows the reading of its history |
| Pipeline.IoAdcInit | src/io_adc.c:77-90 | the registers become the table of their parameters, which within the limits can be searched exactly when there is a step and B is not negative or the ends agree |
| Pipeline.WordsExactly | src/io_adc.c:81-82 | a 32-bit parameter is made of exactly its low and its high word |
| Pipeline.LimitsMakeTabular | src/modbus_x_macros.h:75-78 | limit-checked registers keep all temperatures in -40 .. 845 |
| Pipeline.LimitsAlwaysDescendExactly | src/modbus_x_macros.h:69-78 | which registers within the limits give a table that can be searched for every thermistor law |
| Pipeline.SentinelsUnambiguous | src/main.c:394-401 | the top-nibble test recognises exactly the sentinels, for every count exactly when the table stays below 0x7000 degrees |
| Pipeline.ErrorWordExactly | src/main.c:394-401 | the test holds of exactly the words 0x7000 .. 0x7FFF |
| Pipeline.SentinelsPassThrough | src/main.c:394-401 | the sentinels reach the attribute as 0x7001 and 0x7002 |
| Pipeline.HundredfoldExactly | src/main.c:394-401 | the stored 16-bit product is 100 times the temperature exactly for -327 .. 327 |
| Pipeline.AttributeExactly | src/main.c:394-401 | a sensor stores all its temperatures hundredfold exactly when its hottest one is at most 327 |
| Pipeline.AttributeReadsBack | src/main.c:394-401 | the attribute determines the reading, sentinels included, for every table within -8192 .. 8191 degrees |
| Pipeline.AttributeRobust | src/main.c:394-406 | outlier robustness up to the Zigbee attribute |
| Pipeline.SamplesAtExactly | src/io_adc.c:131-136 | the samples the next two results ask for, in terms of the raw reads |
| Pipeline.SteadyStateAccuracy | src/io_adc.c:173-191 | held at a true temperature, the settled reading is within one step of it if the sensor warmed up, bounded on both sides otherwise, and under only from a negative state at fewer than three counts |
| Pipeline.SteadyStateBetweenEntries | src/io_adc.c:173-191 | on every table, plateaus included, the settled reading lies between what the table answers for the two entries around the truth |
| Configuration.BootBuildsSearchableTable | src/modbus_hard.c:146-169 | whatever the flash held and whatever followed, the next boot builds a table that can be searched for every thermistor law exactly when there is a step and B is not negative, or one step, no thermistor or no divider makes it flat |
| Configuration.BootedTableDescendsExactly | src/modbus_hard.c:146-169 | and for one thermistor law: exactly when there is a step and B is not negative or the ends agree |
| Configuration.RestoredWithinLimits | src/modbus_hard.c:146-169 | the restored registers are within their limits |
| Configuration.AcceptedExactly | src/modbus_x_macros.h:69-78 | a request for all nine registers is accepted exactly when its last three values are within limits |
| Configuration.ConfigurationComesBack | src/modbus_x_macros.h:69-78 | such a request, saved, comes up at the next boot: every configuration within the limits can be reached |
| Configuration.FlatConfiguration | src/modbus_x_macros.h:73 | an accepted B of 0 boots with a table of which every entry, the first too, reads as the last temperature |
| Configuration.ConfigurationDescendsExactly | src/modbus_x_macros.h:69-78 | exactly which accepted configurations boot with a table that can be searched for every thermistor law |
| Configuration.RisingConfiguration | src/modbus_x_macros.h:73 | an accepted B of -3950 boots with a table that cannot |
| Configuration.NoResistanceAccepted | src/modbus_x_macros.h:69-72 | an accepted configuration makes an entry's denominator zero exactly when both resistances are zero |
| Configuration.HottestNotHundredfold | src/modbus_x_macros.h:75-78 | an accepted configuration boots with a table that reads 845 degrees, stored as 18964 |
| Configuration.ZeroStepsAccepted | src/modbus_x_macros.h:77-78 | one accepted request brings the next boot up with no table step |
| Configuration.FactorySettingsMeasure | src/modbus_x_macros.h:69-78 | factory settings measure -10 .. 125 degrees in steps of one, all stored hundredfold |
| Configuration.FactoryEntry | src/measure_NTC.c:37-49 | the factory entry for 25 degrees is 2926 |
| Configuration.FirstPowerUp | src/modbus_hard.c:146-169 | with empty memory the device comes up with version 101 in register 0 and the factory parameters |
| Configuration.FirstNetworkSettings | src/modbus_hard.c:146-169 | and with mode 2, channel 16, 10 s, timeout 6 and the default address |
| Configuration.FirmwareTable | src/modbus_x_macros.h:69-78 | the register table has the NTC rows, permissions and defaults that the results of this module ask for |
| RegisterTable.SavedExactly | src/modbus_x_macros.h:31-79 | which registers are saved and which can be written; every other row is zero |
| RegisterTable.LimitsExactly | src/modbus_x_macros.h:31-79 | which values each register takes |
| RegisterTable.DefaultsWithinLimits | src/modbus_x_macros.h:31-79 | every default of the register table is within its own limits |
| Crc16.Crc16X25 | src/main.c:112-123 | the nested loops compute the CRC of the first bytes of a buffer |
| CrcValues.CheckValue | src/main.c:112-123 | "123456789" gives 0x906E |
| CrcValues.LeadingZeroCounts | src/main.c:115 | a zero byte in front changes the CRC of every message |
| Crc16.EnterByte | src/main.c:118-120 | the inner loop is eight shifts of the register with the byte added |
| CrcTable.ByteStepIsLookUp | src/main.c:117-121 | eight shifts of the register with a byte added are one table look-up |
| CrcTable.TableExactly | src/main.c:117-121 | the look-up computes the loop exactly with the table of the eight shifts of every byte |
| CrcTable.TableCrc | src/main.c:112-123 | the table-driven CRC of every message is the CRC of the code |
| Crc16Bits.RegisterIsFeed | src/main.c:117-120 | the byte-wise register is, bit for bit, the shift register fed one message bit at a time |
| CrcDivision.CrcIsRemainder | src/main.c:112-123 | the CRC is the complemented remainder of the message polynomial, its first sixteen coefficients complemented and sixteen zeros behind, divided by x^16 + x^12 + x^5 + 1 |
| CrcDivision.DivisionLaw | src/main.c:120 | quotient times divisor plus remainder is the dividend |
| CrcDivision.TimesDivisorAt | src/main.c:120 | a product with the divisor is the factor added to itself moved by 4, 11 and 16 places |
| CrcDivision.DivisorCoefficients | src/main.c:120 | the divisor has exactly the powers 16, 12, 5 and 0 |
| CrcLaws.BurstDetected | src/main.c:112-123 | every error within sixteen consecutive bits changes the CRC, for every length |
| CrcLaws.EqualOutsideExactly | src/main.c:112-123 | such an error leaves what is before and behind those bits equal |
| CrcLaws.OddErrorDetected | src/main.c:112-123 | every error in an odd number of bits changes the CRC |
| CrcLaws.CountIsCardinality | src/main.c:112-123 | the wrong bits counted in these results are the places where the messages differ |
| CrcTwoBits.FewBitErrorDetected | src/main.c:112-123 | every error in one, two or three bits changes the CRC of up to 4095 bytes |
| CrcTwoBits.TwoBitErrorExactly | src/main.c:112-123 | two wrong bits go unnoticed exactly when their distance is a multiple of 32767, at every length |
| CrcPeriod.OneReturns | src/main.c:119-120 | the register value 1, a power of x, comes back after exactly the multiples of 32767 shifts |
| CrcPeriod.SquareOfPower | src/main.c:119-120 | squaring modulo the divisor doubles the number of shifts |
| CrcLaws.CrcAffine | src/main.c:112-123 | the CRC of an exclusive or of three equally long messages is the exclusive or of their CRCs |
| CrcResidue.ResidueExactly | src/main.c:155-157 | two bytes after a message leave 0xF0B8 in the register exactly when they are its CRC, low byte first |
| InstallCode.BuildInstallCode | src/main.c:148-158 | with the mode bit set the code bytes and their CRC are handed on, in order |
| CrcValues.FactoryInstallCode | src/main.c:148-158 | the default code is handed on as 01 02 .. 0F 11 19 EC |
| CrcValues.FactoryCodeIsDefault | src/modbus_x_macros.h:61-68 | that code is the default of registers 80 to 87 |
| InstallCode.FillCode | src/main.c:150-154 | the packing loop writes every register high byte first |
| InstallCode.CodeReadsBack | src/main.c:150-154 | the configured registers can be read back from the bytes, high byte first |
| InstallCode.InstallCodeAccepted | src/main.c:155-158 | of all completions of the code only this one passes the residue check |
| InstallCode.CorruptionNoticed | src/main.c:155-158 | one, two or three wrong bits anywhere, any odd number, or a burst of up to sixteen, are always noticed |
| RegisterStore.RunKeepsSound | src/modbus_hard.c:112-169 | over every run, power failures included, the saved registers stay within limits in RAM and in memory |
| RegisterStore.BootEstablishes | src/modbus_hard.c:146-169 | a boot from any memory ends within limits with RAM equal to memory |
| RegisterStore.BootRestores | src/modbus_hard.c:150-168 | a saved register boots with its item, or with its default if the item is missing or out of limits; any other register keeps its value |
| RegisterStore.LogExactly | src/modbus_hard.c:152-167 | a boot updates exactly the missing and the out-of-limit items, to the default |
| RegisterStore.LogReplays | src/modbus_hard.c:152-167 | these updates, in order, lead from the old items to the new ones |
| RegisterStore.CutBootIsBoot | src/modbus_hard.c:146-169 | a boot cut short by a power failure, from any memory, leaves the next one to end as if it had not happened |
| RegisterStore.PartKeepsStoredSound | src/modbus_hard.c:112-144 | memory is within limits after every part of a save or a reset |
| RegisterStore.SoundBootIsSilent | src/modbus_hard.c:146-169 | a boot from items within limits writes nothing |
| RegisterStore.RunStores | src/modbus_hard.c:112-169 | a run leaves in memory what was last stored |
| RegisterStore.Persistence | src/modbus_hard.c:112-169 | after the first boot every later boot writes nothing and restores what was last stored, also when saves, resets and boots were cut short |
| RegisterStore.SavedValueComesBack | src/modbus_hard.c:112-169 | an accepted, saved value comes back at the next boot |
| RegisterStore.StoresNothing | src/modbus_hard.c:112-169 | which operations leave the item of a register alone |
| RegisterStore.FactoryComesBack | src/modbus_hard.c:132-144 | after a factory reset every saved register boots with its default |
| RegisterStore.ResetIsLocal | src/modbus_hard.c:132-144 | a reset gives every saved register its default in RAM and in memory and leaves the others alone |
| RegisterStore.WriteAccepted | src/modbus_x_macros.h:31-79 | an accepted write changes exactly the registers it names |
| RegisterStore.WriteRefused | src/modbus_x_macros.h:31-79 | one register that does not exist, cannot be written or is out of limits refuses the whole write |
| RegisterStore.SaveIsLocal | src/modbus_hard.c:116-122 | a save stores the RAM values of the saved registers in its range and changes nothing else |
| RegisterStore.PublishIsLocal | src/io_adc.c:186-187 | a measurement shows in its register and nowhere else |
| RegisterStore.RunsAreFree | src/modbus_hard.c:112-169 | boots, resets, requests, saves in the table and power failures come in any order and at any point |
| ModbusHard.Registers.BufInit | src/modbus_hard.c:146-169 | the boot loop, with the updates it makes in order |
| ModbusHard.Registers.BootRegister | src/modbus_hard.c:152-167 | one saved register at boot, with its updates |
| ModbusHard.Registers.WriteEeprom | src/modbus_hard.c:112-125 | the save loop |
| ModbusHard.Registers.Factory | src/modbus_hard.c:132-144 | the reset loop |
| FrameOwnership.FramesIntact | src/modbus_hard.c:49-78 | over every interleaving: one queue entry at most, every look of the parser shows exactly the accepted frame, the driver is given each response at most once and in order and takes the front of it |
| FrameOwnership.OwnershipAlways | src/modbus_hard.c:49-78 | every interleaving keeps the ownership invariant |
| FrameOwnership.NeverStuck | src/modbus_hard.c:174-187 | unless all is idle, the task or the transmitter has a step that needs no input |
| FrameOwnership.BecomesIdle | src/modbus_hard.c:174-187 | from every reachable state, without new input, at most ten steps are possible in whatever order; where none is left all is idle, every frame taken and every response given |
| FrameOwnership.AcceptedExactly | src/modbus_hard.c:56-69 | a chunk is accepted exactly if nothing is parsed, sent or saved and it has at least four bytes; else it changes nothing |
| FrameOwnership.NextFrameIsSeen | src/modbus_hard.c:56-69 | when all is idle the parser gets to see the next frame |
| FrameOwnership.NextFrameIsAnswered | src/modbus_hard.c:49-78 | its response then goes out and all is idle again |
| FrameOwnership.NextFrameIsSaved | src/modbus_hard.c:112-125 | or the save it asks for is done, and what comes meanwhile is lost |
| FrameOwnership.GuardsAlwaysHold | src/modbus_hard.c:70-76 | the size conditions never hold a step back |
| FrameOwnership.SentInFullExactly | src/modbus_hard.c:72-75 | whatever happens later, a response has been sent in full exactly when it fitted the driver's room |
| FrameOwnership.ShortWriteHappens | src/modbus_hard.c:49-78 | from power-up, for every frame and every response longer than the room, a run ends idle with only the front sent |
| FrameOwnership.ClearLosesLength | src/modbus_hard.c:63-76 | how a frame's length is lost if the handler runs ahead of the task |
| FrameOwnership.UngatedLosesFrame | src/modbus_hard.c:70-76 | without a gated transmitter the parser can see an empty frame |
| UsbHandler.MbUsb.RxReady | src/modbus_hard.c:56-69 | the receive branch is the machine's receive step |
| UsbHandler.MbUsb.Copy | src/modbus_hard.c:65 | the copy into the frame buffer |
| UsbHandler.MbUsb.TxReady | src/modbus_hard.c:70-76 | the transmit branch is the machine's transmit step with what the driver took, whatever room it had |
| Rejoin.OneAlarm | src/main.c:198-207 | at most one alarm is pending, due 220000 ms after the latest signal, and no signal leads to two expiries |
| Rejoin.CountsAreCardinalities | src/main.c:198-207 | signals and expiries are counted by the places of the run where they are |
| Rejoin.AlarmPending | src/main.c:198-207 | an alarm is pending exactly when a signal has come with no expiry and no reboot after it |
| Rejoin.SignalSetsAlarm | src/main.c:198-243 | every such signal leaves exactly one alarm, 220000 ms later |
| Rejoin.FlagMeaning | src/main.c:219-236 | the saved flag is set exactly when some reboot or leave signal has no local reset and no reboot after it |
| Rejoin.StatusMeaning | src/main.c:223-238 | the status register shows success exactly when the latest signal since power-up reported it |
| Rejoin.UsbMeaning | src/main.c:339-342 | the USB state is a status code exactly when the latest callback since power-up reported it |
| Rejoin.EraseSafe | src/main.c:180-196 | an erase has its cause in the run, and no signal there ever was is younger than 220000 ms |
| Rejoin.EraseExactly | src/main.c:183-195 | an expiry erases exactly when the run has a flag signal since power-up and the latest local reset, the latest USB status is not configured and the node has not joined; otherwise it reconnects unless joined |
| Rejoin.ExpiryHappens | src/main.c:180-243 | from power-up, which signals lead to an erase and a reboot at the expiry and which to the button indication |
| Rejoin.ResetCalls | src/main.c:167-172 | a local reset calls the stack and then the indication |
| Rejoin.RebootIsLast | src/main.c:174-178 | no call follows a reboot, and an erase comes before it |
| Rejoin.Handlers.StatusUpdate | src/main.c:209-243 | the signal handler, with its fall-through |
| Rejoin.Handlers.ZiReboot | src/main.c:198-207 | all alarms are replaced by one |
| Rejoin.Handlers.ReconTimerCb | src/main.c:180-196 | the expiry handler |
| Rejoin.Handlers.FuncErase | src/main.c:174-178 | erase and reboot, in that order |
| Rejoin.Handlers.FuncResetLocal | src/main.c:167-172 | a local reset clears the saved flag, then resets, then indicates |
| Rejoin.Handlers.UsbCb | src/main.c:339-342 | the USB status code is kept |
| AppFiles.ChunkIndependence | src/app.c:145-220 | however a host splits a range into reads, it gets the same bytes |
| AppFiles.ChunkExactly | src/app.c:145-153 | a read yields what the file has of the range |
| AppFiles.WholeFile | src/app.c:145-220 | reads that cover a file yield the file |
| AppFiles.ReadmeRoundTrip | src/app.c:163-196 | the version can be read back from readme.txt for up to seven digits |
| AppFiles.ReadmeAt | src/app.c:169-195 | readme.txt place by place: its text, the digits with a dot after the first, spaces |
| AppFiles.ReadmeOfFirmware | src/app.c:163-196 | that of version 101 starts with "Firmware version 1.01" |
| AppFiles.ReadmeReadProc | src/app.c:155-197 | the loop writes exactly the clamped range of the virtual file |
| AppFiles.ReadmeChar | src/app.c:169-195 | the loop body computes the file's character |
| AppFiles.IndexReadProc | src/app.c:199-220 | the same for index.htm |
| AppFiles.IndexText | src/app.c:199-220 | index.htm is its text, then spaces |
| AppFiles.TestReadProc | src/app.c:145-153 | the same for the stored file |

## Left out

- MeasureNtc.Sensor.CalcTemperature: asks for at least one step of at least one degree and temperatures that fit 16 bits; with no step the source reads outside its table.
- MeasureNtc.Sensor.Search: the same.
- MeasureNtc.Sensor.CalculateTable: works over the reals; rounding and range of `float`, and the numeric values of `exp`, are not modelled. A total resistance of zero, where the source converts zero divided by zero to an integer, which has no defined value, is excluded.
- Pipeline.IoAdcInit: excludes a total resistance of zero as well; LimitsDescendExactly and BootBuildsSearchableTable do too.
- NtcTable.ReadsTrueTemperature: for strictly decreasing tables; ReadsBetweenEntries covers tables with plateaus.
- IoAdc.AdcTask.Task: the endless loop is observed after a finite list of reads; the converter, its errors and the sleeps are parameters.
- RegisterStore.Row: limits are none, signed or unsigned; the mask kind, which no row of the table uses, is not modelled.
- FrameOwnership.Next: modelled on values because the interleaving is the subject; each branch of the handler is one step, `MBparsing` is cut at its writes to shared variables as the listing in msd_zigbee_52840/zephyr/zephyr.lst shows it, and what it answers is arbitrary. FrameParse and its own CRC are not part of this model. How much room the driver has is arbitrary.
- Rejoin.OnSignal: the conversion of 220000 ms to beacon intervals and failures of the alarm calls are not modelled; joining, and the default signal handler, are events from outside.
- InstallCode.BuildInstallCode: the address part of address_and_code_init, which only passes bytes on.
- AppFiles.ReadmeReadProc: a negative size, which no caller passes, is excluded; the stored archive and the HTML text are arbitrary bytes.
- command_control, the start-up sequence, watchdog, USB, flash protection, logging: no logic to prove.

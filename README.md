# SHT31 humidity/temperature sensor driver — Dafny model

This project models the logic core of the `SHT31` driver class in
`libraries/SHT31/SHT31.cpp`: the CRC-8 checksum the sensor appends to every
data word, the validation and big-endian decode of the 6-byte
measurement reply `[T_hi, T_lo, T_crc, H_hi, H_lo, H_crc]`, the conversion
of the raw codes ST and SRH to °C and %RH, the update of the cached
`temp`/`humidity` fields, and the 2-byte command encoding used for reset,
measurement and heater control.

- `checksum.dfy` (module `Checksum`): the checksum as a pure left fold
  (`ShiftStep`, `Shifts`, `Step8`, `CrcFrom`, `Crc8`), the driver's nested
  count-down loops as the method `ComputeCrc8` proved equal to it, and
  lemmas: the fold property, seed on empty input, the datasheet example,
  the zero-residue check and single-byte error detection.
- `frame.dfy` (module `Frame`): 16-bit words and their bytes, the reply
  frame as `Decode` (the driver's accept rule) with `Encode` (what a
  sensor sends) as its partner, the unit conversions over exact reals and
  `ReadingOf`, what `getReading` reports.
- `driver.dfy` (module `Sht31Driver`): the class `Sht31` with the cached
  fields and a log `wire` of the bytes written to the bus.

The bus is abstracted. The bytes the sensor returns to a measurement
request (what `available()`/`read()` deliver) are a `seq<bv8>` parameter
`reply`, and every byte the driver writes is appended to the field `wire`.
NAN is modelled as `None` of an `Option<real>`. The four command codes are
defined in `SHT31.h`, which is not part of this model; they are a
`Commands` value fixed when the driver object is built.

Two checksum and conversion values follow from the code and are proved:
0x92 is the checksum of the two bytes 0xBE 0xEF (`DatasheetExample`), while
the single byte 0xBE alone has checksum 0x0C (`SingleByteExample`); and
ST = 0x6666 converts to exactly 25 °C, because 0x6666 is 0.4 × 0xFFFF
(`TemperatureValues`), not to about −1.96 °C.

## Model

| member | source | states |
|---|---|---|
| Checksum.ShiftStep | libraries/SHT31/SHT31.cpp:63-66 | one shift step is invertible (`UnshiftStep` recovers its input) and sets the low bit exactly when the top bit was shifted out |
| Checksum.ShiftsInjective | libraries/SHT31/SHT31.cpp:63-67 | the eight-step inner loop never maps two states to the same state |
| Checksum.ShiftsZero | libraries/SHT31/SHT31.cpp:63-67 | shift steps map the zero state to zero |
| Checksum.ComputeCrc8 | libraries/SHT31/SHT31.cpp:56-70 | the two nested count-down loops over `len` bytes from a position in a buffer return the checksum `Crc8` of exactly those bytes |
| Checksum.Crc8Empty | libraries/SHT31/SHT31.cpp:58-60 | over zero bytes the checksum is the seed 0xFF |
| Checksum.CrcSnoc | libraries/SHT31/SHT31.cpp:60-68 | the checksum of n+1 bytes is eight shift steps applied to the checksum of the first n bytes XOR the next byte |
| Checksum.CrcConcat | libraries/SHT31/SHT31.cpp:60-68 | absorbing two byte strings one after the other equals absorbing their concatenation |
| Checksum.CrcFromInjective | libraries/SHT31/SHT31.cpp:60-68 | two different checksum states stay different whatever bytes follow |
| Checksum.CheckByteIff | libraries/SHT31/SHT31.cpp:90 | a check byte equals the checksum of its data if and only if the checksum over data and check byte is zero |
| Checksum.Step8Separates | libraries/SHT31/SHT31.cpp:61-67 | XORing two different bytes into one state and shifting gives two different states |
| Checksum.LastByteSeparates | libraries/SHT31/SHT31.cpp:60-68 | the same prefix followed by two different bytes gives two different states |
| Checksum.DifferentByteDifferentState | libraries/SHT31/SHT31.cpp:60-68 | byte strings that differ in exactly one position give different states |
| Checksum.SingleByteErrorDetected | libraries/SHT31/SHT31.cpp:56-70 | changing any one byte of the data changes its checksum |
| Checksum.Step8Unrolled | libraries/SHT31/SHT31.cpp:63-67 | the inner loop is eight shift steps in a row |
| Checksum.DatasheetExample | libraries/SHT31/SHT31.cpp:56-70 | the checksum of 0xBE 0xEF is 0x92 |
| Checksum.SingleByteExample | libraries/SHT31/SHT31.cpp:56-70 | the checksum of the single byte 0xBE is 0x0C |
| Frame.ShiftOrValue | libraries/SHT31/SHT31.cpp:86-88 | loading the high byte, shifting it by 8 and ORing in the low byte yields `hi * 256 + lo` |
| Frame.Word | libraries/SHT31/SHT31.cpp:86-94 | an assembled code equals `hi * 256 + lo`, so ST and SRH lie in 0..0xFFFF |
| Frame.WordBytes | libraries/SHT31/SHT31.cpp:113-117 | a command goes out as exactly two bytes, `cmd >> 8` then `cmd & 0xFF`, with `hi * 256 + lo == cmd`; reassembling them gives the command back |
| Frame.WordBytesOfWord | libraries/SHT31/SHT31.cpp:113-117 | splitting an assembled word gives back its two bytes |
| Frame.Encode | libraries/SHT31/SHT31.cpp:80-96 | the reply a sensor sends for two codes is six bytes long |
| Frame.Decode | libraries/SHT31/SHT31.cpp:80-96 | a reply is accepted if and only if it is exactly 6 bytes, `buf[2]` is the checksum of `buf[0..2]` and `buf[5]` the checksum of `buf[3..5]` (so a bad humidity check byte rejects it even with a good temperature one); then `ST == buf[0]*256 + buf[1]` and `SRH == buf[3]*256 + buf[4]` |
| Frame.DecodeEncode | libraries/SHT31/SHT31.cpp:80-96 | every reply a sensor sends is accepted and decodes to the codes it carries |
| Frame.DecodeIffEncode | libraries/SHT31/SHT31.cpp:80-96 | a reply decodes to given codes if and only if it is the sensor's encoding of those codes |
| Frame.SingleByteCorruptionRejected | libraries/SHT31/SHT31.cpp:90-96 | corrupting any one of the six bytes of a sensor's reply makes the driver reject it |
| Frame.Temperature | libraries/SHT31/SHT31.cpp:98-102 | `-45 + ST * 175 / 0xFFFF` lies between −45 and 130 °C |
| Frame.Humidity | libraries/SHT31/SHT31.cpp:104-108 | `SRH * 100 / 0xFFFF` lies between 0 and 100 %RH |
| Frame.TemperatureValues | libraries/SHT31/SHT31.cpp:98-102 | ST 0x0000 gives −45, 0xFFFF gives 130 and 0x6666 gives 25 °C |
| Frame.HumidityValues | libraries/SHT31/SHT31.cpp:104-108 | SRH 0x0000 gives 0, 0xFFFF gives 100 and 0x8000 gives 3276800/65535 %RH |
| Frame.TemperatureStrictlyIncreasing | libraries/SHT31/SHT31.cpp:98-102 | a larger ST gives a strictly higher temperature |
| Frame.HumidityStrictlyIncreasing | libraries/SHT31/SHT31.cpp:104-108 | a larger SRH gives a strictly higher humidity |
| Frame.ReadingOf | libraries/SHT31/SHT31.cpp:30-39 | a reading has both values or neither, both exactly when the reply is accepted, and then they are the converted codes of the reply |
| Sht31Driver.Sht31.constructor | libraries/SHT31/SHT31.cpp:3-4 | a new driver has written nothing; its cached values start invalid (NAN) and its address at 0 |
| Sht31Driver.Sht31.WriteCommand | libraries/SHT31/SHT31.cpp:113-118 | appends exactly the two bytes of the command, high byte first, to the bus log |
| Sht31Driver.Sht31.Reset | libraries/SHT31/SHT31.cpp:44-47 | writes the soft-reset command |
| Sht31Driver.Sht31.Begin | libraries/SHT31/SHT31.cpp:6-17 | stores the address, writes the soft-reset command and always reports success |
| Sht31Driver.Sht31.Heater | libraries/SHT31/SHT31.cpp:49-54 | writes the heater-enable command when asked to switch on, the heater-disable command otherwise |
| Sht31Driver.Sht31.GetTempHum | libraries/SHT31/SHT31.cpp:73-111 | writes the measurement command; succeeds exactly when `Decode` accepts the reply; on success the cached fields become the converted codes, on every rejecting path (short reply, either check byte wrong) they are unchanged |
| Sht31Driver.Sht31.GetTemperature | libraries/SHT31/SHT31.cpp:19-22 | returns the fresh temperature, or NAN exactly when the reply is rejected; on success both cached fields hold the fresh values, on failure both are unchanged |
| Sht31Driver.Sht31.GetHumidity | libraries/SHT31/SHT31.cpp:25-28 | returns the fresh humidity, or NAN exactly when the reply is rejected; on success both cached fields hold the fresh values, on failure both are unchanged |
| Sht31Driver.Sht31.GetReading | libraries/SHT31/SHT31.cpp:30-39 | returns both fresh values (the new cached ones) or both NAN, never one without the other |

## Left out

- Bus initialisation and the pin multiplexer writes in `begin` (`Wire1.begin`, `CORE_PIN29_CONFIG`, `CORE_PIN30_CONFIG`): hardware binding with no logic.
- `delay(10)` after a reset and `delay(50)` before reading a measurement: timing has no observable meaning in the model.
- The I2C transport calls `beginTransmission`, `endTransmission` and `requestFrom`: the log `wire` records the bytes written but not the address they were sent to or the transmission boundaries, and the reply is a parameter.
- `available()` returning more than six bytes: the model, like the code, rejects any reply whose length is not six.
- Floating point: `Temperature` and `Humidity` compute in exact real arithmetic, so double rounding and the narrowing to `float` are not modelled, and NAN is `None`.
- `readStatus`: its body is empty and returns no value, and nothing calls it.
- The values of `SHT31_SOFTRESET`, `SHT31_MEAS_HIGHREP`, `SHT31_HEATEREN` and `SHT31_HEATERDIS`: `SHT31.h` is not part of this model, so they are parameters.
- Checksum.ComputeCrc8: `len` is a natural number. With a negative C `int len` the loop `for (int j = len; j; --j)` reads past the buffer through `*data++` and then reaches signed overflow at INT_MIN, which is undefined behaviour; the driver only passes 2.
- Sht31Driver.Sht31.constructor: the constructor at SHT31.cpp:3-4 is empty and the initial values of `temp`, `humidity` and `_i2caddr` come from `SHT31.h`, which is not part of this model; the model starts the cached values as invalid (NAN) and the address at 0.

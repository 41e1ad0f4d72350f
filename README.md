# Three I2C sensor drivers, modelled and verified in Dafny

The repository holds three small Raspberry Pi programs. Each is one `main`
that talks to one sensor on I2C bus 1, then prints a reading:

- `temp_humid.c` drives an **AHT10** temperature and humidity sensor at
  address 0x38. It sends the calibrate command (0xE1 with 0x08 0x00), polls
  the status byte until BUSY (bit 7) clears, and checks CALIBRATED (bit 3).
  Then it sends the trigger command (0xAC with 0x33 0x00), polls again, reads
  six bytes and unpacks two 20-bit fields.
- `temp_humid2.c` drives an **SHT30** at address 0x44. It writes the
  measure command (0x24, 0x00), sleeps 20 ms, reads six bytes and converts
  two big-endian 16-bit words. The CRC bytes are not checked.
- `room_temp.c` drives an **MCP9801** at address 0x4F. It reads the
  configuration register (1) and, when it does not hold 0x60, rewrites it and
  sleeps 330 ms. Then it reads the 16-bit temperature register (0), closes
  the device and converts the word into degrees.

The model treats the I2C transport as a **script**: one reply (a C return
value, plus bytes for a block read) for each I2C call except `close`. It
records every transport call and every `usleep` in a trace (module `I2C`).
`usleep` and `close` take no reply: their return values are never looked
at. A run is then a function of its script. For each driver:

- `Stop(script)` names where the run ends, after the source's error
  messages.
- `Log(script)` is the exact list of calls.
- `Result(script)` is the exit status (1 for a bus set-up failure, 2 for any
  later failure) or the decoded reading.
- The method `Run` follows `main` step by step and is proved to return
  exactly `Result` and `Log`. The lemmas state what the source promises
  about those functions: call order, error paths, close, sleeps, and which
  replies are looked at.

The bounded busy wait `busy_wait_limited` is defined in both `temp_humid.c`
and `temp_humid2.c`. Module `Polling` models it as a `while` loop whose
result is tied to `Polling.BusyRun`, the number of busy statuses in a row in
the script. The decoders are functions from bytes to raw integers, with the
physical value as an exact `real`. The source's own shift, mask and or
operators are modelled on integers (module `Bits`) and proved equal to the
arithmetic form.

Closing the device:

- Every error exit calls `exit()` without `close()` and leaves the device
  open: temp_humid.c:122, 147, 152, 158, 163 and 170; temp_humid2.c:108, 113
  and 127; room_temp.c:86 and 91.
- `temp_humid.c` and `temp_humid2.c` close the device only on the success
  path. `room_temp.c` closes it right after the temperature word read,
  whether or not that read failed (room_temp.c:102). It does not close it
  after a failed open, bind or configuration read.

There is no sensor selector: the three drivers are three separate programs,
each with its own `main`.

## Model

| member | source | states |
|---|---|---|
| Bits.ShlExact | temp_humid.c:180-182 | a left shift of a `uint32_t` that does not overflow multiplies by the power of two |
| Bits.OrDisjoint | temp_humid.c:181-183 | or-ing a value below 2^k into a multiple of 2^k adds it |
| Bits.ShrValue | temp_humid.c:183 | a right shift by n divides by 2^n |
| Bits.AndLowMask | temp_humid.c:186 | masking with 2^k - 1 keeps the remainder modulo 2^k |
| Bits.AndBit | temp_humid.c:78 | masking with 2^k is non-zero exactly when bit k is set |
| Polling.Int8 | temp_humid2.c:57-61 | the conversion of the status read to `int8_t` lies in [-128, 128) |
| Polling.Int8Truncates | temp_humid2.c:58 | that conversion keeps the value modulo 256, as two's complement truncation does |
| Polling.BusyRun | temp_humid2.c:65 | the count of busy statuses in a row is at most the number looked at, and a shorter count ends at a status that is not busy |
| Polling.BusyBefore | temp_humid2.c:65 | every status the count covers says busy |
| Polling.FullRun | temp_humid2.c:63-76 | the count reaches its limit exactly when every status it looks at says busy |
| Polling.BusyRunFrame | temp_humid2.c:65 | the count depends on the replies from its start on and on no others |
| Polling.Polls | temp_humid.c:78-79 | n busy rounds make 2n calls |
| Polling.PollsEvents | temp_humid.c:78-79 | a poll makes no call but status reads and sleeps of its delay |
| Polling.SleptPolls | temp_humid.c:79 | n busy rounds sleep n times `loop_delay_ms * 1000` microseconds |
| Polling.FirstRound | temp_humid.c:78 | the first status read of a poll leaves the bus in the polled state with no sleep |
| Polling.NextRound | temp_humid.c:78-83 | one more busy round adds one sleep and one status read, and every earlier read said busy |
| Polling.GaveUp | temp_humid.c:83-86 | after max_retries + 1 busy reads the wait returns -1, with max_retries + 1 reads and as many sleeps |
| Polling.ClearedAt | temp_humid.c:78-88 | a status that clears on read k + 1, k within the budget, makes the wait return 0 after k sleeps and k + 1 reads |
| Polling.BusyWait | temp_humid.c:76-89 | busy_wait_limited returns 0 after k sleeps and k + 1 reads when k busy statuses come first and k <= max_retries, otherwise -1 after max_retries + 1 reads and sleeps; it consumes those replies and no others |
| Polling.BusyWaitAsWritten | temp_humid2.c:63-76 | with the `uint8_t` counter: for max_retries < 255 the same promise as `BusyWait`; for max_retries = 255 a status that clears on read k + 1 gives 0 after k sleeps and k + 1 reads, and a status that stays busy keeps the loop going past any bound |
| Aht10.Status | temp_humid.c:65-74 | getStatus returns the byte when its `int8_t` value is non-negative, and 0xFF for a failed read or a byte with bit 7 set |
| Aht10.StatusMasks | temp_humid.c:78 | the BUSY and CALIBRATED tests are the source's masks 0x80 and 0x08 |
| Aht10.BusyBitIsStillBusy | temp_humid.c:65-78 | the BUSY bit of getStatus is set exactly when the `int8_t` read is negative, so both files' waits test the same thing |
| Aht10.FailedReadLooksCalibrated | temp_humid.c:70-72 | a failed status read reads as 0xFF, which has both BUSY and CALIBRATED set |
| Aht10.HumidityRaw | temp_humid.c:179-183 | the humidity field is below 2^20 |
| Aht10.TemperatureRaw | temp_humid.c:186-190 | the temperature field is below 2^20 |
| Aht10.HumidityBitsValue | temp_humid.c:179-183 | the source's shifts and ors for `h` build byte 1, byte 2 and the top nibble of byte 3 into one field |
| Aht10.TemperatureBitsValue | temp_humid.c:186-190 | the source's mask, shifts and ors for `tdata` build the low nibble of byte 3, byte 4 and byte 5 into one field |
| Aht10.Humidity | temp_humid.c:184 | humidity `h * 100 / 2^20` lies in [0, 100) |
| Aht10.Temperature | temp_humid.c:191 | temperature `t * 200 / 2^20 - 50` lies in [-50, 150) |
| Aht10.HalfHumidity | temp_humid.c:179-191 | bytes 0x00 0x80 0x00 0x00 0x00 0x00 read as 50 % humidity at -50 degrees |
| Aht10.StatusByteIgnored | temp_humid.c:179-191 | byte 0 affects neither reading |
| Aht10.Run | temp_humid.c:119-193 | main returns exactly `Result` and makes exactly the calls of `Log` |
| Aht10.Calibrate | temp_humid.c:145-193 | from the wait after the calibrate command on, main returns `Result` and makes the calls of `Log` |
| Aht10.CalibrationWait | temp_humid.c:145-148 | the first wait times out exactly after 21 busy statuses, and otherwise leaves the bus at the CALIBRATED check |
| Aht10.Measure | temp_humid.c:161-193 | the second wait, the block read, the decoding and the close end the run as the stage reached there says |
| Aht10.EndsAt | temp_humid.c:145-159 | a run that stops before the trigger command is sent exits with status 2 |
| Aht10.Triggering | temp_humid.c:155-193 | once the trigger command is sent, the end of main decides the stage, the result and the rest of the calls |
| Aht10.CallsArePrefix | temp_humid.c:137-171 | the calls of every stage begin those of a run that fails nowhere: one order, and a run stops at the first failure |
| Aht10.CallsClose | temp_humid.c:193 | the device is closed exactly in a run that fails nowhere |
| Aht10.CallsTrigger | temp_humid.c:150-156 | the trigger command is sent exactly in the stages after the CALIBRATED check |
| Aht10.TriggeredSleep | temp_humid.c:137-156 | up to the trigger command a run sleeps exactly 10 ms per busy round of the first wait |
| Aht10.MeasureCallsSleep | temp_humid.c:161-193 | from the second wait on a run sleeps exactly 20 ms per busy round of that wait |
| Aht10.CallsSleep | temp_humid.c:145-164 | a run sleeps exactly 10 ms per busy round of the first wait once the calibrate command is sent, plus 20 ms per busy round of the second once the trigger command is sent, and never otherwise |
| Aht10.LogIsPrefix | temp_humid.c:137-193 | a run's calls begin those of a run that fails nowhere, and it closes the device exactly when it fails nowhere |
| Aht10.TriggeredOnlyWhenCalibrated | temp_humid.c:145-156 | the trigger command is sent exactly when the bus is set up, the first wait ends in time and the CALIBRATED bit is set |
| Aht10.UnreadableStatusPasses | temp_humid.c:150-153 | a status read after calibration that fails, or that has bit 7 set, passes the CALIBRATED check |
| Aht10.CalibrateTimeoutMeansBusy | temp_humid.c:145-148 | the first wait times out exactly when its 21 status reads all say busy |
| Aht10.BoundedSleep | temp_humid.c:145-164 | a run sleeps at most 21 x 10 ms plus 21 x 20 ms |
| Aht10.PositionsFrame | temp_humid.c:145-168 | scripts that agree on the replies main looks at agree on the lengths of both waits and on the replies at the CALIBRATED check, the trigger and the block read |
| Aht10.StopFrame | temp_humid.c:119-171 | where a run stops depends only on those replies |
| Aht10.RunFrame | temp_humid.c:119-193 | scripts that agree on the open, the bind and every reply from the first poll on give the same result and the same calls |
| Aht10.CalibrateReplyIgnored | temp_humid.c:137-143 | what the calibrate command gets back changes neither the result nor the calls |
| Sht30.Word | temp_humid2.c:137 | `hi * 256 + lo` is below 2^16 |
| Sht30.WordBytes | temp_humid2.c:137 | the word gives back its high and its low byte |
| Sht30.TemperatureOf | temp_humid2.c:137 | `-45 + 175 * w / 65535` lies in [-45, 130] |
| Sht30.HumidityOf | temp_humid2.c:138 | `100 * w / 65535` lies in [0, 100] |
| Sht30.Extremes | temp_humid2.c:137-138 | word 0 reads as -45 degrees and 0 %, word 0xFFFF as 130 degrees and 100 % |
| Sht30.TemperatureOrder | temp_humid2.c:137 | a larger word reads as a higher temperature, and only a larger one |
| Sht30.HumidityOrder | temp_humid2.c:138 | a larger word reads as a higher humidity, and only a larger one |
| Sht30.Decode | temp_humid2.c:137-138 | both readings lie in their ranges |
| Sht30.Example | temp_humid2.c:137-138 | bytes 0xFF 0xFF 0x00 0x80 0x00 0x00 read as 130 degrees and just over 50 % |
| Sht30.CrcBytesIgnored | temp_humid2.c:137-138 | the CRC bytes 2 and 5 change neither reading |
| Sht30.Run | temp_humid2.c:105-152 | main returns exactly `Result` and makes exactly the calls of `Log` |
| Sht30.CallsArePrefix | temp_humid2.c:105-128 | the calls of every stage begin those of a run that fails nowhere |
| Sht30.ExitStatus | temp_humid2.c:105-128 | exit 1 exactly on a failed open or bind, a reading exactly when every step succeeds, exit 2 exactly on a failed measure command or block read |
| Sht30.SleepsBeforeRead | temp_humid2.c:111-128 | the run sleeps and reads the data exactly when the measure command succeeds; it then sleeps once, 20 ms, right before the 6-byte read from register 0 |
| Sht30.CloseOnlyOnSuccess | temp_humid2.c:125-135 | the device is closed exactly in a run that fails nowhere, as its last call, right after the block read |
| Sht30.RunFrame | temp_humid2.c:105-135 | a run looks at the replies to its first four calls and at no others |
| Mcp9801.Celsius | room_temp.c:114 | the decoded temperature is not negative |
| Mcp9801.CelsiusBitsValue | room_temp.c:114 | the source's `(res & 0xff) + (res >> 12) / 16` is the low byte plus the top nibble in sixteenths |
| Mcp9801.CelsiusRange | room_temp.c:114 | a 16-bit word reads between 0 and 255 + 15/16 degrees |
| Mcp9801.MiddleNibbleIgnored | room_temp.c:114 | bits 8-11 of the word change nothing |
| Mcp9801.Example | room_temp.c:116 | word 0x1850 reads as 80.0625 degrees |
| Mcp9801.Run | room_temp.c:83-118 | main returns exactly `Result` and makes exactly the calls of `Log` |
| Mcp9801.SetupFailure | room_temp.c:83-86 | exit 1 exactly on a failed open or bind, with no register access |
| Mcp9801.ConfigReadFailure | room_temp.c:88-92 | a failed configuration read exits with status 2, with no write and no temperature read |
| Mcp9801.ConfigWriteRule | room_temp.c:94-99 | the configuration is written exactly when it read as something other than 0x60; the write is 0x60 to register 1, the fourth call, followed by a 330 ms sleep; a run sleeps at no other time |
| Mcp9801.WriteResultIgnored | room_temp.c:96 | what the configuration write gets back changes neither the result nor the calls |
| Mcp9801.ClosedAfterWordRead | room_temp.c:100-107 | once the configuration is read, the device is closed right after the temperature read, as the last call, whether that read fails or not, and the run exits with 2 exactly when it fails |
| Mcp9801.ReadingIsWord | room_temp.c:100-116 | a successful run reports the word its temperature read returned, and its conversion |

## Left out

- The transport: open_i2c_dev, set_slave_addr, the i2c_smbus_* calls and
  close are foreign code. They are a script of replies and a trace of calls.
  A script that runs out answers -5 (-EIO) to every further call.
- `usleep` is a trace event carrying its duration. Time itself is not
  modelled.
- The conversions use exact reals. The `float` and `double` rounding of the
  source (`(float)h`, `(float)tdata`, `(float)word`, `(double)(res >> 12)`) is
  not modelled.
- Printing: `printf` formatting, the raw and bare output formats of each
  program, and `set_degstr` in common.c, which chooses the degree sign. common.c
  is not part of this model.
- The command-line flag loops and `help()` of each program.
- Code that is compiled out: the DEBUG and DEBUG_GET_STATUS tracing, and the
  AHT10_SOFTRESET and AHT10_CALIBRATE_EXIT_ON_FAIL branches of temp_humid.c.
  The SHT30 busy wait, commented out in its `main`, is not part of `Sht30.Run`.
- A block read fills `uint8_t data[6] = {0}` with the bytes the reply
  delivers and leaves zeros after them. The model assumes no partial-read
  behaviour beyond that.
- Error codes below -128 wrap around when truncated to `int8_t`, exactly as C
  does. The model does not single this out, since errno values are small.
- Polling.BusyWaitAsWritten: its contract speaks of the first `fuel` rounds of
  the loop only, because a loop that may never stop cannot be run to its end.
  A status that clears later than `fuel` rounds is not covered.
- Mcp9801.CelsiusRange: the bound holds for words below 2^16, which is what
  `i2c_smbus_read_word_data` delivers. The model does not restrict the
  transport's replies to that range.

## Findings

| source | as written | input that shows it | evidently intended | confidence | as-written member | corrected member |
|---|---|---|---|---|---|---|
| temp_humid2.c:63-76 | `uint8_t retries` is compared with `retries > max_retries`; with `max_retries` = 255 the test can never hold, because the counter wraps from 255 to 0 (temp_humid.c:76-89 is the same) | max_retries = 255 and a status that stays busy: the loop never returns -1 | give up after max_retries + 1 busy reads for every max_retries | not executed; both callers pass 20, so no run of these programs hits it | Polling.BusyWaitAsWritten | Polling.BusyWait |

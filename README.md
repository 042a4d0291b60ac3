# MAX7219 LED driver, modelled in Dafny

This project models `max7219.py`, a driver class `MAX7219` for the Maxim
MAX7219 LED-matrix / 7-segment display controller. The driver keeps a
64-byte status mirror (`status`), one byte per row or digit. Rows 0..7 are
used. Bit 7 of a row is column 0. Each public method changes the mirror with bit
masks and sends register writes to the chip. `_write(opcode, data)` lays a
write out in a 16-byte scratch buffer (`spidata`) and shifts the bytes out in
reverse order. For the one device the driver supports, that reversal makes
the frame `[opcode, data]`.

Modules:

- `Registers` (registers.dfy): the register address map and `RegWrite`, one
  `(opcode, data)` register write.
- `Leds` (leds.dfy): the mask `0x80 >> column`, and switching one LED of a row byte.
- `Glyphs` (glyphs.dfy): the 128-entry glyph table `char_table`. It is written
  as its sixteen source lines of eight entries. It also holds an independent
  read-back of the sixteen hex-digit glyphs.
- `Display` (display.dfy): every operation as a pure function from the old
  mirror and the arguments to an `Outcome`. An `Outcome` is the new mirror plus
  the writes issued, in order. The lemmas state what each operation does.
- `Mirror` (mirror.dfy): the driver's invariant. For every row, `status[r]` is
  the data last sent to that row's digit register. Every operation keeps this
  invariant, and construction establishes it.
- `Driver` (driver.dfy): class `MAX7219`. It holds `status` and `spidata` as
  `array<bv8>` and the bus traffic as a ghost log `writes`. Every method's
  `ensures` gives the new mirror, the new log and the new scratch buffer as the
  matching `Display` function says. `Write` also returns, as a ghost value, the
  frame it sends, `[opcode, data]`. On `Valid()`, which includes the mirror
  invariant:
  - `Write` requires only `Shape()` and says nothing about `Valid()`. A bare
    write to a digit register can break the mirror.
  - `Shutdown` and `SetScanLimit` require only `Shape()`. They keep `Valid()`
    when it held before the call, because the constructor calls them while
    the mirror is still being set up.
  - `ClearDisplay` requires only `Shape()` and establishes `Valid()`.
  - `SetIntensity`, `SetLed`, `SetRow`, `SetColumn`, `SetDigit` and `SetChar`
    require `Valid()` and keep it.
  - The constructor establishes `Valid()`.

Arguments are unbounded `int`s, so each range guard is modelled exactly as the
source writes it (`row < 0 or row > 7`, `value > 15`, `limit < 8`, …).

Two facts about the code that the lemmas make explicit:

- Construction issues 12 register writes. These are display test off,
  scan limit 7, decode mode off, the eight writes of `clear_display`, and
  shutdown (`Display.InitWritesExplicit`).
- `set_led(r, c, True)` followed by `set_led(r, c, False)` restores the row
  only when that LED was off beforehand. If it was on, the pair leaves it off.
  `Display.SetLedOnThenOff` proves both directions.

## Model

| member | source | states |
|---|---|---|
| `Leds.Mask` | max7219.py:201 | the mask `0x80 >> column` of LED `column` is never zero; its exact value per column is stated by `Leds.MaskValue` |
| `Leds.UpdateLed` | max7219.py:201-207 | switching an LED on keeps every bit that was set; switching it off sets no new bit; the exact effect is stated by `Leds.UpdateLedBits` |
| `Leds.MaskValue` | max7219.py:201 | `0x80 >> column` has exactly bit `7 - column` set, for each column 0..7 |
| `Leds.UpdateLedBits` | max7219.py:201-207 | ORing in the mask sets the LED; ANDing with its complement clears it; the other seven LEDs keep their state |
| `Leds.SameLeds` | max7219.py:201-207 | a row byte is determined by its eight LED bits |
| `Leds.FullAndEmptyRows` | max7219.py:225-230 | a row with all eight LEDs on is 0xFF; one with all off is 0x00 |
| `Leds.OnThenOff` | max7219.py:203-207 | switching an LED on and then off restores the byte exactly when the LED was off |
| `Leds.UpdateLedIdempotent` | max7219.py:203-207 | switching an LED to the same state twice equals doing it once |
| `Registers.DigitRegister` | max7219.py:37-44 | row `r` (0..7) is held by register `r + 1`, which lies in DIGIT0..DIGIT7 |
| `Registers.DigitRegisterInjective` | max7219.py:38-45 | rows 0..7 use distinct digit registers 1..8 |
| `Registers.ControlRegistersAreNotDigits` | max7219.py:38-53 | no control register address coincides with a digit register |
| `Glyphs.CharTable` | max7219.py:56-73 | the 128-entry segment table, entry for entry as the source lists it; its shape is stated by `Glyphs.TableShape` |
| `Glyphs.TableShape` | max7219.py:56-73 | the table has 128 entries; entry 32 (space) is 0; entry 0 is 0b01111110 |
| `Glyphs.HexGlyphs` | max7219.py:57-58 | the sixteen hex glyphs are the table's first two lines |
| `Glyphs.HexGlyphsLeaveDecimalPoint` | max7219.py:57-58 | no hex-digit glyph has the decimal-point bit 0x80 set |
| `Glyphs.HexGlyphsReadBack` | max7219.py:57-58 | every hex glyph reads back as its digit, so the sixteen glyphs are distinct |
| `Glyphs.HexCharacterGlyph` | max7219.py:63-70 | codes '0'..'9', 'A'..'F' and 'a'..'f' fall on table lines 6, 7, 8 and 12 |
| `Glyphs.HexCharactersMatchDigits` | max7219.py:57-70 | the glyph of a hex digit's character code, in either case, equals the digit's glyph |
| `Display.SetLed` | max7219.py:198-209 | set_led as a function of the old mirror: a no-op out of range, else one byte updated and written; the result is a 64-byte mirror |
| `Display.SetLedOutOfRange` | max7219.py:198-199 | set_led writes nothing exactly when row or column is outside 0..7; it then leaves the mirror unchanged |
| `Display.SetLedInRange` | max7219.py:201-209 | in range, bit `7 - column` of status[row] becomes `state`; every other bit and byte is kept; exactly one write `(row+1, new status[row])` is issued |
| `Display.SetLedIdempotent` | max7219.py:198-209 | repeating set_led leaves the mirror as the first call left it |
| `Display.SetLedOnThenOff` | max7219.py:201-207 | on-then-off restores the mirror if and only if the LED was off |
| `Display.SetRowUpTo` | max7219.py:229-230 | the first n iterations of set_row's loop; the result is a 64-byte mirror |
| `Display.SetRow` | max7219.py:222-230 | set_row as a function of the old mirror: a no-op out of range, else the eight-step loop; the result is a 64-byte mirror |
| `Display.SetRowUpToEffect` | max7219.py:229-230 | after n iterations, LEDs 0..n-1 are `state`; write j goes to register row+1 and carries the row with LEDs 0..j set; other bytes are unchanged |
| `Display.SetRowEffect` | max7219.py:222-230 | in range, status[row] becomes 0xFF or 0x00 and nothing else changes; eight writes go to register row+1, and the last carries the final byte |
| `Display.SetRowOutOfRange` | max7219.py:222-223 | an out-of-range row is a no-op |
| `Display.SetRowIdempotent` | max7219.py:222-230 | repeating set_row leaves the mirror as the first call left it |
| `Display.SetColumnUpTo` | max7219.py:250-251 | the first n iterations of set_column's loop; the result is a 64-byte mirror |
| `Display.SetColumn` | max7219.py:243-251 | set_column as a function of the old mirror: a no-op out of range, else the eight-row loop; the result is a 64-byte mirror |
| `Display.SetColumnUpToEffect` | max7219.py:250-251 | after n iterations, rows 0..n-1 have the column's LED switched; write j is `(j+1, new status[j])`; the other bytes are unchanged |
| `Display.SetColumnEffect` | max7219.py:243-251 | in range, bit `7 - column` of status[0..7] becomes `state` and every other bit is kept; one write per row, rows 0..7 in order |
| `Display.SetColumnOutOfRange` | max7219.py:243-244 | an out-of-range column is a no-op |
| `Display.SetColumnIdempotent` | max7219.py:243-251 | repeating set_column leaves the mirror as the first call left it |
| `Display.ClearUpTo` | max7219.py:182-184 | the first n iterations of clear_display's loop; the result is a 64-byte mirror |
| `Display.Clear` | max7219.py:175-184 | clear_display as a function of the old mirror; the result is a 64-byte mirror |
| `Display.ClearUpToEffect` | max7219.py:182-184 | after n iterations, status[0..n-1] are zero and the rest unchanged; write j is `(j+1, 0)` |
| `Display.ClearEffect` | max7219.py:175-184 | status[0..7] become zero and bytes 8..63 are kept; the writes are exactly (1,0),…,(8,0) in order |
| `Display.ClearIdempotent` | max7219.py:175-184 | clearing twice gives the same mirror and the same writes as clearing once |
| `Display.SetDigit` | max7219.py:264-271 | set_digit as a function of the old mirror: the guard, the glyph lookup, the decimal point and the one write; the result is a 64-byte mirror |
| `Display.SetDigitGuard` | max7219.py:264-265 | set_digit writes nothing exactly when the digit is outside 0..7 or value > 15; it then leaves the mirror unchanged |
| `Display.SetDigitEffect` | max7219.py:266-271 | status[digit] shows value's glyph, reads back as value, and has its decimal point on iff `dp`; other bytes are kept; one write `(digit+1, byte)` is issued |
| `Display.SetDigitZero` | max7219.py:57 | set_digit(d, 0, False) writes 0b01111110 to register d+1; with dp it writes 0b11111110 |
| `Display.SetDigitIdempotent` | max7219.py:264-271 | repeating set_digit gives the same mirror and the same write as the first call |
| `Display.SetChar` | max7219.py:282-295 | set_char as a function of the old mirror: the guard, the fallback to code 32, the high bit and the one write; the result is a 64-byte mirror |
| `Display.SetCharGuard` | max7219.py:282-283 | set_char writes nothing exactly when the digit is outside 0..7; it then leaves the mirror unchanged |
| `Display.SetCharEffect` | max7219.py:285-295 | for a code 0..127, status[digit] has the glyph's segments; its high bit is on iff `state` or the glyph has it; other bytes are kept; one write is issued |
| `Display.SetCharFallback` | max7219.py:286-288 | any code above 127 behaves exactly as code 32, so the digit is blank except for the high bit when `state` |
| `Display.SetCharIdempotent` | max7219.py:282-295 | repeating set_char gives the same mirror and the same write as the first call |
| `Display.SetCharHexMatchesSetDigit` | max7219.py:253-295 | set_char on a hex digit's character code, in either case, has the same outcome as set_digit on the digit |
| `Display.ShutdownWrites` | max7219.py:146-149 | shutdown issues exactly one write, to the SHUTDOWN register; its data is stated by `Display.ShutdownEffect` |
| `Display.ScanLimitWrites` | max7219.py:160-161 | set_scan_limit issues at most one write, to the SCAN_LIMIT register; when and with what data is stated by `Display.ScanLimitEffect` |
| `Display.IntensityWrites` | max7219.py:172-173 | set_intensity issues at most one write, to the INTENSITY register; when and with what data is stated by `Display.IntensityEffect` |
| `Display.InitWrites` | max7219.py:89-97 | construction issues 12 writes; they are listed one by one by `Display.InitWritesExplicit` |
| `Display.ShutdownEffect` | max7219.py:146-149 | shutdown writes exactly one byte to register 0x0C: 0 iff powering down, 1 iff resuming |
| `Display.ScanLimitEffect` | max7219.py:160-161 | set_scan_limit writes iff 0 <= limit < 8, and then exactly `(0x0B, limit)` |
| `Display.IntensityEffect` | max7219.py:172-173 | set_intensity writes iff 0 <= intensity < 16, and then exactly `(0x0A, intensity)` |
| `Display.InitWritesExplicit` | max7219.py:89-97 | construction issues exactly 12 writes: (0x0F,0), (0x0B,7), (0x09,0), (1,0)…(8,0), (0x0C,0); it leaves the mirror all zero |
| `Mirror.LastDataAppend` | max7219.py:115-126 | the last write to a register after two batches is the second batch's, if that batch has one |
| `Mirror.LastDataAbsent` | max7219.py:115-126 | a log with no write to a register has no last data for that register |
| `Mirror.LastDataByRow` | max7219.py:182-184 | when write j goes to row j's register, row r's last data is write r's data |
| `Mirror.ControlWritesSkipRows` | max7219.py:146-173 | writes to control registers say nothing about any row |
| `Mirror.MirrorsStep` | max7219.py:83-84 | a step whose writes match its new rows keeps the invariant "status[r] is the data last sent to register r+1" |
| `Mirror.SetLedInStep` | max7219.py:198-209 | set_led's write matches the row it changes, and rows it does not write are unchanged |
| `Mirror.SetRowInStep` | max7219.py:222-230 | set_row's last write matches the final row, and other rows are unchanged |
| `Mirror.SetColumnInStep` | max7219.py:243-251 | each row's last write from set_column matches that row's new byte |
| `Mirror.ClearMirrors` | max7219.py:182-184 | clear_display establishes the invariant from any prior state |
| `Mirror.SetDigitInStep` | max7219.py:264-271 | set_digit's write matches the digit it changes |
| `Mirror.SetCharInStep` | max7219.py:282-295 | set_char's write matches the digit it changes |
| `Mirror.ControlWritesKeepMirror` | max7219.py:146-173 | control-register writes keep the invariant and leave the mirror alone |
| `Mirror.ControlOperationsWriteControlRegisters` | max7219.py:146-173 | shutdown, set_scan_limit and set_intensity write control registers only |
| `Mirror.InitMirrors` | max7219.py:84-97 | the mirror and log left by construction satisfy the invariant |
| `Driver.ShiftOut` | max7219.py:112-113 | the output buffer is spidata[0..maxbytes) reversed, with length maxbytes |
| `Driver.ScratchAfter` | max7219.py:105-110 | the scratch buffer after a batch of writes: 16 bytes, bytes 2..15 never change, and no writes leave it as it was |
| `Driver.ScratchAfterAppend` | max7219.py:105-110 | the scratch buffer after two batches of writes depends only on the last write |
| `Driver.MAX7219.constructor` | max7219.py:76-97 | construction gives an all-zero mirror and the 12 initialisation writes; the scratch buffer is left holding the last frame; Valid() holds |
| `Driver.MAX7219.Write` | max7219.py:100-126 | the frame shifted out has length `2 * max_devices` and is `[opcode, data]`; exactly one write `(opcode, data)` is appended to the log; spidata[0] = data and spidata[1] = opcode; the other scratch bytes are kept; status is untouched |
| `Driver.MAX7219.Shutdown` | max7219.py:137-149 | the log grows by ShutdownWrites(powerdown); status is untouched; Valid() is kept |
| `Driver.MAX7219.SetScanLimit` | max7219.py:151-161 | the log grows by ScanLimitWrites(limit); status is untouched; Valid() is kept |
| `Driver.MAX7219.SetIntensity` | max7219.py:163-173 | the log grows by IntensityWrites(intensity); status is untouched; Valid() is kept |
| `Driver.MAX7219.ClearDisplay` | max7219.py:175-184 | the new mirror and log are as in Display.Clear; Valid() is established |
| `Driver.MAX7219.SetLed` | max7219.py:187-209 | the new mirror, log and scratch buffer are as in Display.SetLed; Valid() is kept |
| `Driver.MAX7219.SetRow` | max7219.py:212-230 | the new mirror, log and scratch buffer are as in Display.SetRow; Valid() is kept |
| `Driver.MAX7219.SetColumn` | max7219.py:233-251 | the new mirror, log and scratch buffer are as in Display.SetColumn; Valid() is kept |
| `Driver.MAX7219.SetDigit` | max7219.py:253-271 | the new mirror, log and scratch buffer are as in Display.SetDigit; Valid() is kept |
| `Driver.MAX7219.SetChar` | max7219.py:273-295 | the new mirror, log and scratch buffer are as in Display.SetChar; Valid() is kept |

## Left out

- The SPI bus (max7219.py:77, 115-126): `spi.Spi.__init__`, the clock setting, and `lock`/`select`/`write`/`unselect`/`unlock`. These are calls into a library that is not part of this model. The bus is a ghost log of the `(opcode, data)` writes, read off the transmitted frame.
- The `try`/`except` around the transmit (max7219.py:120-126). It catches, prints and swallows bus errors. This is I/O; in the model every write reaches the log. Nothing is claimed about the chip's registers after a bus error has been swallowed: the log then records a write the chip may not have received.
- Daisy-chaining: `max_devices` is fixed at 1 (`Driver.MaxDevices`), so the per-device loop in `__init__` runs once and `_write` frames two bytes. The commented-out `get_device_count` is dead code.
- The constructor's `for i in self.status: self.status[i] = 0x00` loop (max7219.py:86-87). It iterates the buffer's values, not its indices, so it only ever writes `status[0]` of a buffer that is already zero. The model starts the mirror all zero.
- Display.SetDigit: requires a non-negative `value` only when the digit is in 0..7 and `value <= 15`, that is, only when the guard lets the call through. Python would then index `char_table` from its end for -128..-1 and raise IndexError below that. That wrap-around is not modelled. Calls the guard rejects, including those with a negative value, are modelled as the no-ops they are.
- Driver.MAX7219.SetDigit, Display.SetDigitGuard, Display.SetDigitIdempotent, Mirror.SetDigitInStep: the same precondition, for the same reason as Display.SetDigit.
- Display.SetChar: requires a non-negative `value` only when the digit is in 0..7, for the same reason. set_char's guard only checks `value > 127`. An out-of-range digit is a no-op for any value.
- Driver.MAX7219.SetChar, Display.SetCharGuard, Display.SetCharIdempotent, Mirror.SetCharInStep: the same precondition, for the same reason as Display.SetChar.
- Python truthiness: `state`, `dp` and `powerdown` are modelled as `bool`. Arguments that are not integers (floats, strings) are not modelled.

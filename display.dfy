/** The driver's operations as pure functions: from the old status mirror and
    the arguments to the new status mirror and the register writes issued, in
    order. The MAX7219 class methods are proved to behave as these say. */
module Display {

  import opened Registers
  import opened Leds
  import opened Glyphs

  /** Size of the status mirror (a 64-byte bytearray); rows 0..7 are used. */
  const StatusSize := 64

  /** What one call does: the new status mirror and the writes it issued. */
  datatype Outcome = Outcome(status: seq<bv8>, writes: seq<RegWrite>)

  /** The range guard shared by rows, columns and digits: 0..7. */
  predicate InRange(i: int)
  {
    0 <= i <= 7
  }

  /** The mirror of a freshly built driver: all zeros. */
  function Blank(): (b: seq<bv8>)
    ensures |b| == StatusSize && forall k :: 0 <= k < |b| ==> b[k] == 0
  {
    seq(StatusSize, _ => 0)
  }

  // ---------------------------------------------------------------- set_led

  /** set_led(row, column, state): out-of-range indices are a no-op; else
      switch the LED's bit in status[row] and write the row to its register. */
  function SetLed(s: seq<bv8>, row: int, column: int, state: bool): (e: Outcome)
    requires |s| == StatusSize
    ensures |e.status| == StatusSize
  {
    if row < 0 || row > 7 || column < 0 || column > 7 then Outcome(s, [])
    else
      var v := UpdateLed(s[row], column, state);
      Outcome(s[row := v], [RegWrite(DigitRegister(row), v)])
  }

  /** An out-of-range row or column changes nothing and writes nothing. */
  lemma SetLedOutOfRange(s: seq<bv8>, row: int, column: int, state: bool)
    requires |s| == StatusSize
    ensures SetLed(s, row, column, state).writes == [] <==> !(InRange(row) && InRange(column))
    ensures !(InRange(row) && InRange(column)) ==> SetLed(s, row, column, state).status == s
  {
  }

  /** In range, exactly bit `7 - column` of status[row] becomes `state`, nothing
      else in the mirror changes, and the one write carries the new row byte. */
  lemma SetLedInRange(s: seq<bv8>, row: int, column: int, state: bool)
    requires |s| == StatusSize && InRange(row) && InRange(column)
    ensures var e := SetLed(s, row, column, state);
      && LedOn(e.status[row], column) == state
      && (forall c :: 0 <= c < 8 && c != column ==> LedOn(e.status[row], c) == LedOn(s[row], c))
      && (forall k :: 0 <= k < StatusSize && k != row ==> e.status[k] == s[k])
      && e.writes == [RegWrite(DigitRegister(row), e.status[row])]
  {
    UpdateLedBits(s[row], column, state);
  }

  /** Repeating a set_led leaves the mirror as the first call left it. */
  lemma SetLedIdempotent(s: seq<bv8>, row: int, column: int, state: bool)
    requires |s| == StatusSize
    ensures var e := SetLed(s, row, column, state);
      SetLed(e.status, row, column, state).status == e.status
  {
    if InRange(row) && InRange(column) {
      UpdateLedIdempotent(s[row], column, state);
    }
  }

  /** set_led(r, c, true) then set_led(r, c, false) restores the mirror exactly
      when that LED was off before. */
  lemma SetLedOnThenOff(s: seq<bv8>, row: int, column: int)
    requires |s| == StatusSize && InRange(row) && InRange(column)
    ensures SetLed(SetLed(s, row, column, true).status, row, column, false).status == s
        <==> !LedOn(s[row], column)
  {
    OnThenOff(s[row], column);
    var t := SetLed(SetLed(s, row, column, true).status, row, column, false).status;
    assert t[row] == UpdateLed(UpdateLed(s[row], column, true), column, false);
    if !LedOn(s[row], column) {
      assert t == s;
    }
  }

  // ---------------------------------------------------------------- set_row

  /** The first `n` iterations of set_row's loop: set_led(row, i, state) for i < n. */
  function SetRowUpTo(s: seq<bv8>, row: int, n: int, state: bool): (e: Outcome)
    requires |s| == StatusSize && InRange(row) && 0 <= n <= 8
    ensures |e.status| == StatusSize
    decreases n
  {
    if n == 0 then Outcome(s, [])
    else
      var e0 := SetRowUpTo(s, row, n - 1, state);
      var e1 := SetLed(e0.status, row, n - 1, state);
      Outcome(e1.status, e0.writes + e1.writes)
  }

  /** set_row(row, state): an out-of-range row is a no-op; else set_led for columns 0..7. */
  function SetRow(s: seq<bv8>, row: int, state: bool): (e: Outcome)
    requires |s| == StatusSize
    ensures |e.status| == StatusSize
  {
    if row < 0 || row > 7 then Outcome(s, [])
    else SetRowUpTo(s, row, 8, state)
  }

  /** After `n` iterations, LEDs 0..n-1 of the row are `state` and the others
      as before; write j goes to the row's register and carries the row with
      LEDs 0..j set; no other byte of the mirror changes. */
  lemma {:induction false} SetRowUpToEffect(s: seq<bv8>, row: int, n: int, state: bool)
    requires |s| == StatusSize && InRange(row) && 0 <= n <= 8
    ensures var e := SetRowUpTo(s, row, n, state);
      && |e.writes| == n
      && (forall j :: 0 <= j < n ==> e.writes[j].opcode == DigitRegister(row))
      && (forall j, c :: 0 <= j < n && 0 <= c < 8 ==>
            LedOn(e.writes[j].data, c) == if c <= j then state else LedOn(s[row], c))
      && (n > 0 ==> e.writes[n - 1].data == e.status[row])
      && (forall c :: 0 <= c < 8 ==> LedOn(e.status[row], c) == if c < n then state else LedOn(s[row], c))
      && (forall k :: 0 <= k < StatusSize && k != row ==> e.status[k] == s[k])
  {
    if n > 0 {
      SetRowUpToEffect(s, row, n - 1, state);
      var e0 := SetRowUpTo(s, row, n - 1, state);
      UpdateLedBits(e0.status[row], n - 1, state);
    }
  }

  /** set_row with an in-range row leaves status[row] == 0xFF (on) or 0x00
      (off) and every other byte as it was, after eight writes to the row's
      register, the last of which carries the final byte. */
  lemma SetRowEffect(s: seq<bv8>, row: int, state: bool)
    requires |s| == StatusSize && InRange(row)
    ensures var e := SetRow(s, row, state);
      && e.status == s[row := if state then 0xFF else 0x00]
      && |e.writes| == 8
      && (forall j :: 0 <= j < 8 ==> e.writes[j].opcode == DigitRegister(row))
      && e.writes[7].data == e.status[row]
  {
    SetRowUpToEffect(s, row, 8, state);
    var e := SetRow(s, row, state);
    FullAndEmptyRows(e.status[row], state);
    assert e.status == s[row := if state then 0xFF else 0x00];
  }

  /** Repeating a set_row leaves the mirror as the first call left it. */
  lemma SetRowIdempotent(s: seq<bv8>, row: int, state: bool)
    requires |s| == StatusSize
    ensures var e := SetRow(s, row, state);
      SetRow(e.status, row, state).status == e.status
  {
    if InRange(row) {
      SetRowEffect(s, row, state);
      SetRowEffect(SetRow(s, row, state).status, row, state);
    }
  }

  /** set_row with an out-of-range row changes nothing and writes nothing. */
  lemma SetRowOutOfRange(s: seq<bv8>, row: int, state: bool)
    requires |s| == StatusSize && !InRange(row)
    ensures SetRow(s, row, state) == Outcome(s, [])
  {
  }

  // ------------------------------------------------------------- set_column

  /** The first `n` iterations of set_column's loop: set_led(i, column, state) for i < n. */
  function SetColumnUpTo(s: seq<bv8>, column: int, n: int, state: bool): (e: Outcome)
    requires |s| == StatusSize && InRange(column) && 0 <= n <= 8
    ensures |e.status| == StatusSize
    decreases n
  {
    if n == 0 then Outcome(s, [])
    else
      var e0 := SetColumnUpTo(s, column, n - 1, state);
      var e1 := SetLed(e0.status, n - 1, column, state);
      Outcome(e1.status, e0.writes + e1.writes)
  }

  /** set_column(column, state): an out-of-range column is a no-op; else set_led for rows 0..7. */
  function SetColumn(s: seq<bv8>, column: int, state: bool): (e: Outcome)
    requires |s| == StatusSize
    ensures |e.status| == StatusSize
  {
    if column < 0 || column > 7 then Outcome(s, [])
    else SetColumnUpTo(s, column, 8, state)
  }

  /** After `n` iterations rows 0..n-1 have the column's LED set, the other
      bytes are untouched, and write j went to row j's register with row j's new byte. */
  lemma {:induction false} SetColumnUpToEffect(s: seq<bv8>, column: int, n: int, state: bool)
    requires |s| == StatusSize && InRange(column) && 0 <= n <= 8
    ensures var e := SetColumnUpTo(s, column, n, state);
      && |e.writes| == n
      && (forall r :: 0 <= r < n ==> e.status[r] == UpdateLed(s[r], column, state))
      && (forall k :: n <= k < StatusSize ==> e.status[k] == s[k])
      && (forall j :: 0 <= j < n ==> e.writes[j] == RegWrite(DigitRegister(j), e.status[j]))
  {
    if n > 0 {
      SetColumnUpToEffect(s, column, n - 1, state);
    }
  }

  /** set_column with an in-range column sets bit `7 - column` of status[0..7]
      to `state`, leaves every other bit and byte alone, and issues one write
      per row, rows 0..7 in order, each carrying that row's new byte. */
  lemma SetColumnEffect(s: seq<bv8>, column: int, state: bool)
    requires |s| == StatusSize && InRange(column)
    ensures var e := SetColumn(s, column, state);
      && (forall r, c :: 0 <= r < 8 && 0 <= c < 8 ==>
            LedOn(e.status[r], c) == if c == column then state else LedOn(s[r], c))
      && (forall k :: 8 <= k < StatusSize ==> e.status[k] == s[k])
      && |e.writes| == 8
      && (forall j :: 0 <= j < 8 ==> e.writes[j] == RegWrite(DigitRegister(j), e.status[j]))
  {
    SetColumnUpToEffect(s, column, 8, state);
    forall r | 0 <= r < 8
      ensures LedOn(UpdateLed(s[r], column, state), column) == state
      ensures forall c :: 0 <= c < 8 && c != column ==> LedOn(UpdateLed(s[r], column, state), c) == LedOn(s[r], c)
    {
      UpdateLedBits(s[r], column, state);
    }
  }

  /** Repeating a set_column leaves the mirror as the first call left it. */
  lemma SetColumnIdempotent(s: seq<bv8>, column: int, state: bool)
    requires |s| == StatusSize
    ensures var e := SetColumn(s, column, state);
      SetColumn(e.status, column, state).status == e.status
  {
    if InRange(column) {
      var e := SetColumn(s, column, state);
      SetColumnUpToEffect(s, column, 8, state);
      SetColumnUpToEffect(e.status, column, 8, state);
      forall r | 0 <= r < 8
        ensures UpdateLed(e.status[r], column, state) == e.status[r]
      {
        UpdateLedIdempotent(s[r], column, state);
      }
      assert SetColumn(e.status, column, state).status == e.status;
    }
  }

  /** set_column with an out-of-range column changes nothing and writes nothing. */
  lemma SetColumnOutOfRange(s: seq<bv8>, column: int, state: bool)
    requires |s| == StatusSize && !InRange(column)
    ensures SetColumn(s, column, state) == Outcome(s, [])
  {
  }

  // ---------------------------------------------------------- clear_display

  /** The first `n` iterations of clear_display's loop: zero status[i], then
      write it to register i + 1, for i < n. */
  function ClearUpTo(s: seq<bv8>, n: int): (e: Outcome)
    requires |s| == StatusSize && 0 <= n <= 8
    ensures |e.status| == StatusSize
    decreases n
  {
    if n == 0 then Outcome(s, [])
    else
      var e0 := ClearUpTo(s, n - 1);
      var t := e0.status[n - 1 := 0];
      Outcome(t, e0.writes + [RegWrite(DigitRegister(n - 1), t[n - 1])])
  }

  /** clear_display(): all eight iterations. */
  function Clear(s: seq<bv8>): (e: Outcome)
    requires |s| == StatusSize
    ensures |e.status| == StatusSize
  {
    ClearUpTo(s, 8)
  }

  lemma {:induction false} ClearUpToEffect(s: seq<bv8>, n: int)
    requires |s| == StatusSize && 0 <= n <= 8
    ensures var e := ClearUpTo(s, n);
      && (forall k :: 0 <= k < StatusSize ==> e.status[k] == if k < n then 0 else s[k])
      && |e.writes| == n
      && (forall j :: 0 <= j < n ==> e.writes[j] == RegWrite(DigitRegister(j), 0))
  {
    if n > 0 {
      ClearUpToEffect(s, n - 1);
    }
  }

  /** clear_display zeroes status[0..7], leaves the unused bytes alone and
      writes exactly (1,0), (2,0), ..., (8,0) in that order. */
  lemma ClearEffect(s: seq<bv8>)
    requires |s| == StatusSize
    ensures var e := Clear(s);
      && (forall k :: 0 <= k < 8 ==> e.status[k] == 0)
      && (forall k :: 8 <= k < StatusSize ==> e.status[k] == s[k])
      && e.writes == [RegWrite(1, 0), RegWrite(2, 0), RegWrite(3, 0), RegWrite(4, 0),
                      RegWrite(5, 0), RegWrite(6, 0), RegWrite(7, 0), RegWrite(8, 0)]
  {
    ClearUpToEffect(s, 8);
  }

  /** Clearing twice leaves the mirror, and issues the writes, that clearing once does. */
  lemma ClearIdempotent(s: seq<bv8>)
    requires |s| == StatusSize
    ensures Clear(Clear(s).status) == Clear(s)
  {
    ClearEffect(s);
    ClearEffect(Clear(s).status);
    assert Clear(Clear(s).status).status == Clear(s).status;
  }

  // -------------------------------------------------------------- set_digit

  /** set_digit(digit, value, dp): a no-op unless digit is in 0..7 and value
      <= 15; else the hex glyph, with the decimal point ORed in when `dp`,
      becomes status[digit] and is written to the digit's register. */
  function SetDigit(s: seq<bv8>, digit: int, value: int, dp: bool): (e: Outcome)
    requires |s| == StatusSize && (InRange(digit) && value <= 15 ==> value >= 0)
    ensures |e.status| == StatusSize
  {
    if digit < 0 || digit > 7 || value > 15 then Outcome(s, [])
    else
      var g := CharTable[value];
      var v := if dp then g | DecimalPoint else g;
      Outcome(s[digit := v], [RegWrite(DigitRegister(digit), v)])
  }

  /** set_digit writes nothing, and changes nothing, exactly when the digit is
      out of range or the value exceeds 15. */
  lemma SetDigitGuard(s: seq<bv8>, digit: int, value: int, dp: bool)
    requires |s| == StatusSize && (InRange(digit) && value <= 15 ==> value >= 0)
    ensures SetDigit(s, digit, value, dp).writes == [] <==> !(InRange(digit) && value <= 15)
    ensures SetDigit(s, digit, value, dp).writes == [] ==> SetDigit(s, digit, value, dp).status == s
  {
  }

  /** In range, status[digit] shows `value`'s glyph (it reads back as `value`),
      its decimal point is lit exactly when `dp`, nothing else changes, and the
      one write carries the new byte. */
  lemma SetDigitEffect(s: seq<bv8>, digit: int, value: int, dp: bool)
    requires |s| == StatusSize && InRange(digit) && 0 <= value <= 15
    ensures var e := SetDigit(s, digit, value, dp);
      && e.status[digit] & !DecimalPoint == CharTable[value]
      && ReadHexDigit(e.status[digit] & !DecimalPoint) == Some(value)
      && (e.status[digit] & DecimalPoint != 0) == dp
      && (forall k :: 0 <= k < StatusSize && k != digit ==> e.status[k] == s[k])
      && e.writes == [RegWrite(DigitRegister(digit), e.status[digit])]
  {
    HexGlyphsLeaveDecimalPoint(value);
    HexGlyphsReadBack(value);
  }

  /** set_digit(d, 0, false) writes 0b01111110 to register d + 1; with the
      decimal point, 0b11111110. */
  lemma SetDigitZero(s: seq<bv8>, digit: int)
    requires |s| == StatusSize && InRange(digit)
    ensures SetDigit(s, digit, 0, false).writes == [RegWrite(DigitRegister(digit), 0x7E)]
    ensures SetDigit(s, digit, 0, true).writes == [RegWrite(DigitRegister(digit), 0xFE)]
  {
    TableShape();
  }

  /** Repeating a set_digit leaves the mirror, and issues the write, that the first call does. */
  lemma SetDigitIdempotent(s: seq<bv8>, digit: int, value: int, dp: bool)
    requires |s| == StatusSize && (InRange(digit) && value <= 15 ==> value >= 0)
    ensures var e := SetDigit(s, digit, value, dp);
      SetDigit(e.status, digit, value, dp) == e
  {
  }

  // --------------------------------------------------------------- set_char

  /** set_char(digit, value, state): a no-op unless digit is in 0..7; a value
      above 127 is shown as the space; the high bit is ORed in when `state`. */
  function SetChar(s: seq<bv8>, digit: int, value: int, state: bool): (e: Outcome)
    requires |s| == StatusSize && (InRange(digit) ==> value >= 0)
    ensures |e.status| == StatusSize
  {
    if digit < 0 || digit > 7 then Outcome(s, [])
    else
      var index := if value > 127 then Space else value;
      var g := CharTable[index];
      var v := if state then g | DecimalPoint else g;
      Outcome(s[digit := v], [RegWrite(DigitRegister(digit), v)])
  }

  /** set_char writes nothing, and changes nothing, exactly when the digit is out of range. */
  lemma SetCharGuard(s: seq<bv8>, digit: int, value: int, state: bool)
    requires |s| == StatusSize && (InRange(digit) ==> value >= 0)
    ensures SetChar(s, digit, value, state).writes == [] <==> !InRange(digit)
    ensures !InRange(digit) ==> SetChar(s, digit, value, state).status == s
  {
  }

  /** In range and for a code 0..127, status[digit] has the glyph's segments,
      its high bit is lit when `state` or when the glyph has it (',' and '.'),
      nothing else changes, and the one write carries the new byte. */
  lemma SetCharEffect(s: seq<bv8>, digit: int, value: int, state: bool)
    requires |s| == StatusSize && InRange(digit) && 0 <= value <= 127
    ensures var e := SetChar(s, digit, value, state);
      && e.status[digit] & !DecimalPoint == CharTable[value] & !DecimalPoint
      && (e.status[digit] & DecimalPoint != 0) == (state || CharTable[value] & DecimalPoint != 0)
      && (forall k :: 0 <= k < StatusSize && k != digit ==> e.status[k] == s[k])
      && e.writes == [RegWrite(DigitRegister(digit), e.status[digit])]
  {
    TableShape();
  }

  /** A code above 127 behaves exactly as the space (code 32): the digit shows
      no segment, only the high bit when `state`. */
  lemma SetCharFallback(s: seq<bv8>, digit: int, value: int, state: bool)
    requires |s| == StatusSize && value > 127 && InRange(digit)
    ensures SetChar(s, digit, value, state) == SetChar(s, digit, Space, state)
    ensures SetChar(s, digit, value, state).status[digit] == if state then DecimalPoint else 0x00
  {
    TableShape();
  }

  /** Repeating a set_char leaves the mirror, and issues the write, that the first call does. */
  lemma SetCharIdempotent(s: seq<bv8>, digit: int, value: int, state: bool)
    requires |s| == StatusSize && (InRange(digit) ==> value >= 0)
    ensures var e := SetChar(s, digit, value, state);
      SetChar(e.status, digit, value, state) == e
  {
  }

  /** Showing a hex digit's character code, upper or lower case, with set_char
      has the same effect as showing the digit with set_digit. */
  lemma SetCharHexMatchesSetDigit(s: seq<bv8>, digit: int, v: int, state: bool)
    requires |s| == StatusSize && 0 <= v < 16
    ensures SetChar(s, digit, HexUpper(v), state) == SetDigit(s, digit, v, state)
    ensures SetChar(s, digit, HexLower(v), state) == SetDigit(s, digit, v, state)
  {
    HexCharactersMatchDigits(v);
  }

  // ------------------------------------- shutdown, set_scan_limit, set_intensity

  /** shutdown(powerdown): one write to the shutdown register. */
  function ShutdownWrites(powerdown: bool): (w: seq<RegWrite>)
    ensures |w| == 1 && w[0].opcode == Shutdown
  {
    if powerdown then [RegWrite(Shutdown, ShutdownMode)] else [RegWrite(Shutdown, ShutdownNormal)]
  }

  /** shutdown writes 0 (power down) when asked to, 1 (normal operation) otherwise. */
  lemma ShutdownEffect(powerdown: bool)
    ensures var w := ShutdownWrites(powerdown);
      && |w| == 1 && w[0].opcode == 0x0C
      && (w[0].data == 0x00 <==> powerdown)
      && (w[0].data == 0x01 <==> !powerdown)
  {
  }

  /** set_scan_limit(limit): a write to the scan-limit register when 0 <= limit < 8. */
  function ScanLimitWrites(limit: int): (w: seq<RegWrite>)
    ensures |w| <= 1
    ensures forall i :: 0 <= i < |w| ==> w[i].opcode == ScanLimit
  {
    if limit >= 0 && limit < 8 then [RegWrite(ScanLimit, limit as bv8)] else []
  }

  /** set_scan_limit writes exactly when the limit is in 0..7, and then the limit itself. */
  lemma ScanLimitEffect(limit: int)
    ensures ScanLimitWrites(limit) == [] <==> !(0 <= limit < 8)
    ensures ScanLimitWrites(limit) != [] ==>
      |ScanLimitWrites(limit)| == 1 && ScanLimitWrites(limit)[0].opcode == 0x0B
      && ScanLimitWrites(limit)[0].data as int == limit
  {
  }

  /** set_intensity(intensity): a write to the intensity register when 0 <= intensity < 16. */
  function IntensityWrites(intensity: int): (w: seq<RegWrite>)
    ensures |w| <= 1
    ensures forall i :: 0 <= i < |w| ==> w[i].opcode == Intensity
  {
    if intensity >= 0 && intensity < 16 then [RegWrite(Intensity, intensity as bv8)] else []
  }

  /** set_intensity writes exactly when the intensity is in 0..15, and then the intensity itself. */
  lemma IntensityEffect(intensity: int)
    ensures IntensityWrites(intensity) == [] <==> !(0 <= intensity < 16)
    ensures IntensityWrites(intensity) != [] ==>
      |IntensityWrites(intensity)| == 1 && IntensityWrites(intensity)[0].opcode == 0x0A
      && IntensityWrites(intensity)[0].data as int == intensity
  {
  }

  // ------------------------------------------------------------ construction

  /** The writes construction issues, call by call: display test off, scan
      limit 7, decode mode off, clear_display, shutdown(True). */
  function InitWrites(): (w: seq<RegWrite>)
    ensures |w| == 12
  {
    [RegWrite(DisplayTest, 0)] + ScanLimitWrites(7) + [RegWrite(DecodeMode, 0)]
      + Clear(Blank()).writes + ShutdownWrites(true)
  }

  /** Construction issues exactly these twelve writes, in this order, and leaves the mirror all zeros. */
  lemma InitWritesExplicit()
    ensures InitWrites() == [
      RegWrite(0x0F, 0), RegWrite(0x0B, 7), RegWrite(0x09, 0),
      RegWrite(1, 0), RegWrite(2, 0), RegWrite(3, 0), RegWrite(4, 0),
      RegWrite(5, 0), RegWrite(6, 0), RegWrite(7, 0), RegWrite(8, 0),
      RegWrite(0x0C, 0)]
    ensures |InitWrites()| == 12
    ensures Clear(Blank()).status == Blank()
  {
    ClearEffect(Blank());
    assert Clear(Blank()).status == Blank();
  }
}

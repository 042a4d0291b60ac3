/** The MAX7219 driver object: a 64-byte status mirror and a 16-byte shift
    scratch buffer, updated in place, and the register writes sent over the
    bus, kept as a ghost log. Each method is proved to do what the matching
    function of module Display says. */
module Driver {

  import Registers
  import Display
  import Mirror
  import Leds
  import Glyphs

  /** Number of daisy-chained devices; this driver drives exactly one. */
  const MaxDevices := 1

  /** Size of the shift scratch buffer `spidata` (a 16-byte bytearray). */
  const ScratchSize := 16

  /** The bytes shifted out for one write: spidata[0..maxbytes) in reverse
      order, most significant device first. */
  method ShiftOut(spidata: array<bv8>, maxbytes: nat) returns (buffer: seq<bv8>)
    requires maxbytes <= spidata.Length
    ensures |buffer| == maxbytes
    ensures forall k :: 0 <= k < maxbytes ==> buffer[k] == spidata[maxbytes - 1 - k]
  {
    buffer := [];
    var i := maxbytes;
    while i > 0
      invariant 0 <= i <= maxbytes
      invariant |buffer| == maxbytes - i
      invariant forall k :: 0 <= k < |buffer| ==> buffer[k] == spidata[maxbytes - 1 - k]
    {
      buffer := buffer + [spidata[i - 1]];
      i := i - 1;
    }
  }

  /** The scratch buffer after the writes `ws`: untouched if there were none,
      else holding the last write's data and opcode in bytes 0 and 1. */
  function ScratchAfter(sp: seq<bv8>, ws: seq<Registers.RegWrite>): (r: seq<bv8>)
    requires |sp| == ScratchSize
    ensures |r| == ScratchSize
    ensures forall k :: 2 <= k < ScratchSize ==> r[k] == sp[k]
    ensures ws == [] ==> r == sp
  {
    if ws == [] then sp
    else sp[0 := ws[|ws| - 1].data][1 := ws[|ws| - 1].opcode]
  }

  lemma ScratchAfterAppend(sp: seq<bv8>, a: seq<Registers.RegWrite>, b: seq<Registers.RegWrite>)
    requires |sp| == ScratchSize
    ensures |ScratchAfter(sp, a)| == ScratchSize
    ensures ScratchAfter(sp, a + b) == ScratchAfter(ScratchAfter(sp, a), b)
  {
    if b == [] {
      assert a + b == a;
    } else {
      assert (a + b)[|a + b| - 1] == b[|b| - 1];
    }
  }

  /** Shutting down from a scratch buffer whose bytes 2..15 are zero leaves
      only the shutdown opcode in it. */
  lemma ShutdownScratch(sp: seq<bv8>)
    requires |sp| == ScratchSize && forall k :: 2 <= k < ScratchSize ==> sp[k] == 0
    ensures ScratchAfter(sp, Display.ShutdownWrites(true))
            == seq(ScratchSize, k => if k == 1 then Registers.Shutdown else 0)
  {
  }

  class MAX7219 {
    /** The LED / segment pattern last sent to each row (bytes 8..63 unused). */
    const status: array<bv8>
    /** The scratch buffer a register write is laid out in before it is shifted out. */
    const spidata: array<bv8>
    /** Every register write sent over the bus, in order. */
    ghost var writes: seq<Registers.RegWrite>

    /** The buffers have their sizes and are distinct. */
    ghost predicate Shape()
    {
      status.Length == Display.StatusSize && spidata.Length == ScratchSize && status != spidata
    }

    /** Shape() and the mirror invariant: status[r] is the data last sent to row r's register. */
    ghost predicate Valid()
      reads this, status
    {
      Shape() && Mirror.Mirrors(status[..], writes)
    }

    /** Builds the driver and initialises the chip: display test off, scan
        limit 7, decode mode off, all rows cleared, then shutdown mode. */
    constructor ()
      ensures Valid() && fresh(status) && fresh(spidata)
      ensures status[..] == Display.Blank()
      ensures writes == Display.InitWrites()
      ensures spidata[..] == seq(ScratchSize, k => if k == 1 then Registers.Shutdown else 0)
    {
      status := new bv8[Display.StatusSize](_ => 0);
      spidata := new bv8[ScratchSize](_ => 0);
      writes := [];
      new;
      // One pass of the per-device loop, since MaxDevices == 1.
      ghost var testFrame := Write(Registers.DisplayTest, 0);
      SetScanLimit(0x07);
      ghost var decodeFrame := Write(Registers.DecodeMode, 0);
      ghost var pre := writes;
      assert pre == [Registers.RegWrite(Registers.DisplayTest, 0)] + Display.ScanLimitWrites(7)
                    + [Registers.RegWrite(Registers.DecodeMode, 0)];
      assert status[..] == Display.Blank();
      ClearDisplay();
      ghost var cleared := writes;
      assert cleared == pre + Display.Clear(Display.Blank()).writes;
      Display.InitWritesExplicit();
      assert status[..] == Display.Blank();
      ghost var beforeShutdown := spidata[..];
      assert forall k :: 2 <= k < ScratchSize ==> beforeShutdown[k] == 0;
      Shutdown(true);
      ShutdownScratch(beforeShutdown);
      Mirror.InitMirrors();
      assert writes == cleared + Display.ShutdownWrites(true);
    }

    /** _write(opcode, data): zero the scratch bytes, lay out [data, opcode],
        shift them out in reverse, and send the frame. */
    method Write(opcode: bv8, data: bv8) returns (ghost frame: seq<bv8>)
      requires Shape()
      modifies this, spidata
      ensures |frame| == 2 * MaxDevices && frame == [opcode, data]
      ensures writes == old(writes) + [Registers.RegWrite(opcode, data)]
      ensures spidata[..] == old(spidata[..])[0 := data][1 := opcode]
    {
      var maxbytes := MaxDevices * 2;
      for i := 0 to maxbytes
        invariant writes == old(writes)
        invariant forall k :: 0 <= k < i ==> spidata[k] == 0
        invariant forall k :: i <= k < spidata.Length ==> spidata[k] == old(spidata[k])
      {
        spidata[i] := 0;
      }
      spidata[1] := opcode;
      spidata[0] := data;
      var buffer := ShiftOut(spidata, maxbytes);
      assert buffer == [opcode, data] by {
        assert buffer[0] == spidata[1] && buffer[1] == spidata[0];
      }
      // The chip takes the first byte shifted in as the register address and
      // the second as its data. A transmit error would be caught and dropped,
      // so every write reaches the log.
      frame := buffer;
      writes := writes + [Registers.RegWrite(buffer[0], buffer[1])];
    }

    /** shutdown(powerdown): power down (0) or resume normal operation (1). */
    method Shutdown(powerdown: bool)
      requires Shape()
      modifies this, spidata
      ensures writes == old(writes) + Display.ShutdownWrites(powerdown)
      ensures spidata[..] == ScratchAfter(old(spidata[..]), Display.ShutdownWrites(powerdown))
      ensures old(Valid()) ==> Valid()
    {
      if powerdown {
        ghost var frame := Write(Registers.Shutdown, Registers.ShutdownMode);
      } else {
        ghost var frame := Write(Registers.Shutdown, Registers.ShutdownNormal);
      }
      if old(Valid()) {
        Mirror.ControlOperationsWriteControlRegisters(powerdown, 0, 0);
        Mirror.ControlWritesKeepMirror(status[..], old(writes), Display.ShutdownWrites(powerdown));
      }
    }

    /** set_scan_limit(limit): only a limit in 0..7 is written. */
    method SetScanLimit(limit: int)
      requires Shape()
      modifies this, spidata
      ensures writes == old(writes) + Display.ScanLimitWrites(limit)
      ensures spidata[..] == ScratchAfter(old(spidata[..]), Display.ScanLimitWrites(limit))
      ensures old(Valid()) ==> Valid()
    {
      if limit >= 0 && limit < 8 {
        ghost var frame := Write(Registers.ScanLimit, limit as bv8);
      }
      if old(Valid()) {
        Mirror.ControlOperationsWriteControlRegisters(true, limit, 0);
        Mirror.ControlWritesKeepMirror(status[..], old(writes), Display.ScanLimitWrites(limit));
      }
    }

    /** set_intensity(intensity): only an intensity in 0..15 is written. */
    method SetIntensity(intensity: int)
      requires Valid()
      modifies this, spidata
      ensures Valid()
      ensures writes == old(writes) + Display.IntensityWrites(intensity)
      ensures spidata[..] == ScratchAfter(old(spidata[..]), Display.IntensityWrites(intensity))
    {
      if intensity >= 0 && intensity < 16 {
        ghost var frame := Write(Registers.Intensity, intensity as bv8);
      }
      Mirror.ControlOperationsWriteControlRegisters(true, 0, intensity);
      Mirror.ControlWritesKeepMirror(status[..], old(writes), Display.IntensityWrites(intensity));
    }

    /** clear_display(): zero rows 0..7, writing each to its register. */
    method ClearDisplay()
      requires Shape()
      modifies this, status, spidata
      ensures Valid()
      ensures var e := Display.Clear(old(status[..]));
        status[..] == e.status && writes == old(writes) + e.writes
        && spidata[..] == ScratchAfter(old(spidata[..]), e.writes)
    {
      for i := 0 to 8
        invariant var e := Display.ClearUpTo(old(status[..]), i);
          status[..] == e.status && writes == old(writes) + e.writes
          && spidata[..] == ScratchAfter(old(spidata[..]), e.writes)
      {
        ghost var e0 := Display.ClearUpTo(old(status[..]), i);
        status[i] := 0;
        ghost var frame := Write(Registers.DigitRegister(i), status[i]);
        ScratchAfterAppend(old(spidata[..]), e0.writes, [Registers.RegWrite(Registers.DigitRegister(i), 0)]);
      }
      Mirror.ClearMirrors(old(status[..]), old(writes));
    }

    /** set_led(row, column, state): switch one LED and write its row. */
    method SetLed(row: int, column: int, state: bool)
      requires Valid()
      modifies this, status, spidata
      ensures Valid()
      ensures var e := Display.SetLed(old(status[..]), row, column, state);
        status[..] == e.status && writes == old(writes) + e.writes
        && spidata[..] == ScratchAfter(old(spidata[..]), e.writes)
    {
      Mirror.SetLedInStep(status[..], row, column, state);
      Mirror.MirrorsStep(status[..], writes, Display.SetLed(status[..], row, column, state));
      if row < 0 || row > 7 || column < 0 || column > 7 {
        return;
      }
      var val := Leds.Mask(column);
      if state {
        status[row] := status[row] | val;
      } else {
        val := !val;
        status[row] := status[row] & val;
      }
      ghost var frame := Write(Registers.DigitRegister(row), status[row]);
    }

    /** set_row(row, state): set_led for every column of an in-range row. */
    method SetRow(row: int, state: bool)
      requires Valid()
      modifies this, status, spidata
      ensures Valid()
      ensures var e := Display.SetRow(old(status[..]), row, state);
        status[..] == e.status && writes == old(writes) + e.writes
        && spidata[..] == ScratchAfter(old(spidata[..]), e.writes)
    {
      if row < 0 || row > 7 {
        return;
      }
      for i := 0 to 8
        invariant Valid()
        invariant var e := Display.SetRowUpTo(old(status[..]), row, i, state);
          status[..] == e.status && writes == old(writes) + e.writes
          && spidata[..] == ScratchAfter(old(spidata[..]), e.writes)
      {
        ghost var e0 := Display.SetRowUpTo(old(status[..]), row, i, state);
        SetLed(row, i, state);
        ScratchAfterAppend(old(spidata[..]), e0.writes, Display.SetLed(e0.status, row, i, state).writes);
      }
    }

    /** set_column(column, state): set_led for every row of an in-range column. */
    method SetColumn(column: int, state: bool)
      requires Valid()
      modifies this, status, spidata
      ensures Valid()
      ensures var e := Display.SetColumn(old(status[..]), column, state);
        status[..] == e.status && writes == old(writes) + e.writes
        && spidata[..] == ScratchAfter(old(spidata[..]), e.writes)
    {
      if column < 0 || column > 7 {
        return;
      }
      for i := 0 to 8
        invariant Valid()
        invariant var e := Display.SetColumnUpTo(old(status[..]), column, i, state);
          status[..] == e.status && writes == old(writes) + e.writes
          && spidata[..] == ScratchAfter(old(spidata[..]), e.writes)
      {
        ghost var e0 := Display.SetColumnUpTo(old(status[..]), column, i, state);
        SetLed(i, column, state);
        ScratchAfterAppend(old(spidata[..]), e0.writes, Display.SetLed(e0.status, i, column, state).writes);
      }
    }

    /** set_digit(digit, value, dp): show a hex digit, with or without its decimal point. */
    method SetDigit(digit: int, value: int, dp: bool)
      requires Valid() && (Display.InRange(digit) && value <= 15 ==> value >= 0)
      modifies this, status, spidata
      ensures Valid()
      ensures var e := Display.SetDigit(old(status[..]), digit, value, dp);
        status[..] == e.status && writes == old(writes) + e.writes
        && spidata[..] == ScratchAfter(old(spidata[..]), e.writes)
    {
      Mirror.SetDigitInStep(status[..], digit, value, dp);
      Mirror.MirrorsStep(status[..], writes, Display.SetDigit(status[..], digit, value, dp));
      if digit < 0 || digit > 7 || value > 15 {
        return;
      }
      var v := Glyphs.CharTable[value];
      if dp {
        v := v | Glyphs.DecimalPoint;
      }
      status[digit] := v;
      ghost var frame := Write(Registers.DigitRegister(digit), v);
    }

    /** set_char(digit, value, state): show a character; codes above 127 show as the space. */
    method SetChar(digit: int, value: int, state: bool)
      requires Valid() && (Display.InRange(digit) ==> value >= 0)
      modifies this, status, spidata
      ensures Valid()
      ensures var e := Display.SetChar(old(status[..]), digit, value, state);
        status[..] == e.status && writes == old(writes) + e.writes
        && spidata[..] == ScratchAfter(old(spidata[..]), e.writes)
    {
      Mirror.SetCharInStep(status[..], digit, value, state);
      Mirror.MirrorsStep(status[..], writes, Display.SetChar(status[..], digit, value, state));
      if digit < 0 || digit > 7 {
        return;
      }
      var index := value;
      if index > 127 {
        index := Glyphs.Space;
      }
      var v := Glyphs.CharTable[index];
      if state {
        v := v | Glyphs.DecimalPoint;
      }
      status[digit] := v;
      ghost var frame := Write(Registers.DigitRegister(digit), v);
    }
  }
}

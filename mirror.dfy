/** The driver's central invariant: the status mirror holds, for every row,
    the byte last sent to that row's digit register. Every operation keeps it,
    and construction establishes it. */
module Mirror {

  import opened Registers
  import opened Leds
  import opened Display

  /** The data of the last write to register `opcode` in `log`, if there is one. */
  function LastData(log: seq<RegWrite>, opcode: bv8): Option<bv8>
    decreases |log|
  {
    if log == [] then None
    else if log[|log| - 1].opcode == opcode then Some(log[|log| - 1].data)
    else LastData(log[..|log| - 1], opcode)
  }

  /** Rows 0..7 of `status` are the data last sent to their digit registers in `log`. */
  ghost predicate Mirrors(status: seq<bv8>, log: seq<RegWrite>)
    requires |status| == StatusSize
  {
    forall r :: 0 <= r < 8 ==> LastData(log, DigitRegister(r)) == Some(status[r])
  }

  /** One call's outcome `e` is in step with the mirror it started from `s`: a
      row whose register it wrote holds the byte last written there, a row it
      did not write is unchanged. */
  ghost predicate InStep(s: seq<bv8>, e: Outcome)
    requires |s| == StatusSize && |e.status| == StatusSize
  {
    forall r :: 0 <= r < 8 ==>
      if LastData(e.writes, DigitRegister(r)).Some?
      then LastData(e.writes, DigitRegister(r)) == Some(e.status[r])
      else e.status[r] == s[r]
  }

  /** The last write to a register in `a + b` is its last write in `b`, if `b` has one. */
  lemma {:induction false} LastDataAppend(a: seq<RegWrite>, b: seq<RegWrite>, opcode: bv8)
    ensures LastData(a + b, opcode)
         == if LastData(b, opcode).Some? then LastData(b, opcode) else LastData(a, opcode)
    decreases |b|
  {
    if b == [] {
      assert a + b == a;
    } else {
      assert (a + b)[..|a + b| - 1] == a + b[..|b| - 1];
      LastDataAppend(a, b[..|b| - 1], opcode);
    }
  }

  /** A log with no write to `opcode` has no last data for it. */
  lemma {:induction false} LastDataAbsent(log: seq<RegWrite>, opcode: bv8)
    requires forall j :: 0 <= j < |log| ==> log[j].opcode != opcode
    ensures LastData(log, opcode) == None
    decreases |log|
  {
    if log != [] {
      LastDataAbsent(log[..|log| - 1], opcode);
    }
  }

  /** In a log whose j-th write goes to row j's register, row r's last data is write r's. */
  lemma {:induction false} LastDataByRow(log: seq<RegWrite>, r: int)
    requires |log| <= 8 && 0 <= r < 8
    requires forall j :: 0 <= j < |log| ==> log[j].opcode == DigitRegister(j)
    ensures LastData(log, DigitRegister(r)) == if r < |log| then Some(log[r].data) else None
    decreases |log|
  {
    if log != [] {
      var n := |log| - 1;
      DigitRegisterInjective(n, r);
      if n != r {
        LastDataByRow(log[..n], r);
      }
    }
  }

  /** A log of writes to control registers only says nothing about any row. */
  lemma ControlWritesSkipRows(log: seq<RegWrite>, r: int)
    requires 0 <= r < 8
    requires forall j :: 0 <= j < |log| ==> log[j].opcode >= DecodeMode
    ensures LastData(log, DigitRegister(r)) == None
  {
    LastDataAbsent(log, DigitRegister(r));
  }

  /** A step that is in step with the mirror keeps the invariant. */
  lemma MirrorsStep(s: seq<bv8>, log: seq<RegWrite>, e: Outcome)
    requires |s| == StatusSize && |e.status| == StatusSize
    requires Mirrors(s, log) && InStep(s, e)
    ensures Mirrors(e.status, log + e.writes)
  {
    forall r | 0 <= r < 8
      ensures LastData(log + e.writes, DigitRegister(r)) == Some(e.status[r])
    {
      LastDataAppend(log, e.writes, DigitRegister(r));
    }
  }

  lemma SetLedInStep(s: seq<bv8>, row: int, column: int, state: bool)
    requires |s| == StatusSize
    ensures InStep(s, SetLed(s, row, column, state))
  {
    var e := SetLed(s, row, column, state);
    forall r | 0 <= r < 8
      ensures if LastData(e.writes, DigitRegister(r)).Some?
              then LastData(e.writes, DigitRegister(r)) == Some(e.status[r])
              else e.status[r] == s[r]
    {
      if InRange(row) && InRange(column) {
        DigitRegisterInjective(row, r);
        assert e.writes[..0] == [];
      }
    }
  }

  lemma SetRowInStep(s: seq<bv8>, row: int, state: bool)
    requires |s| == StatusSize
    ensures InStep(s, SetRow(s, row, state))
  {
    var e := SetRow(s, row, state);
    if InRange(row) {
      SetRowEffect(s, row, state);
      forall r | 0 <= r < 8
        ensures if LastData(e.writes, DigitRegister(r)).Some?
                then LastData(e.writes, DigitRegister(r)) == Some(e.status[r])
                else e.status[r] == s[r]
      {
        if r != row {
          forall j | 0 <= j < |e.writes|
            ensures e.writes[j].opcode != DigitRegister(r)
          {
            DigitRegisterInjective(row, r);
          }
          LastDataAbsent(e.writes, DigitRegister(r));
        }
      }
    }
  }

  lemma SetColumnInStep(s: seq<bv8>, column: int, state: bool)
    requires |s| == StatusSize
    ensures InStep(s, SetColumn(s, column, state))
  {
    var e := SetColumn(s, column, state);
    if InRange(column) {
      SetColumnEffect(s, column, state);
      forall r | 0 <= r < 8
        ensures LastData(e.writes, DigitRegister(r)) == Some(e.status[r])
      {
        LastDataByRow(e.writes, r);
      }
    }
  }

  /** clear_display re-establishes the invariant from any mirror and log. */
  lemma ClearMirrors(s: seq<bv8>, log: seq<RegWrite>)
    requires |s| == StatusSize
    ensures Mirrors(Clear(s).status, log + Clear(s).writes)
  {
    var e := Clear(s);
    ClearEffect(s);
    forall r | 0 <= r < 8
      ensures LastData(log + e.writes, DigitRegister(r)) == Some(e.status[r])
    {
      LastDataByRow(e.writes, r);
      LastDataAppend(log, e.writes, DigitRegister(r));
    }
  }

  lemma SetDigitInStep(s: seq<bv8>, digit: int, value: int, dp: bool)
    requires |s| == StatusSize && (InRange(digit) && value <= 15 ==> value >= 0)
    ensures InStep(s, SetDigit(s, digit, value, dp))
  {
    var e := SetDigit(s, digit, value, dp);
    forall r | 0 <= r < 8
      ensures if LastData(e.writes, DigitRegister(r)).Some?
              then LastData(e.writes, DigitRegister(r)) == Some(e.status[r])
              else e.status[r] == s[r]
    {
      if e.writes != [] {
        DigitRegisterInjective(digit, r);
        assert e.writes[..0] == [];
      }
    }
  }

  lemma SetCharInStep(s: seq<bv8>, digit: int, value: int, state: bool)
    requires |s| == StatusSize && (InRange(digit) ==> value >= 0)
    ensures InStep(s, SetChar(s, digit, value, state))
  {
    var e := SetChar(s, digit, value, state);
    forall r | 0 <= r < 8
      ensures if LastData(e.writes, DigitRegister(r)).Some?
              then LastData(e.writes, DigitRegister(r)) == Some(e.status[r])
              else e.status[r] == s[r]
    {
      if e.writes != [] {
        DigitRegisterInjective(digit, r);
        assert e.writes[..0] == [];
      }
    }
  }

  /** shutdown, set_scan_limit and set_intensity write no digit register, so
      they keep the invariant without touching the mirror. */
  lemma ControlWritesKeepMirror(s: seq<bv8>, log: seq<RegWrite>, w: seq<RegWrite>)
    requires |s| == StatusSize && Mirrors(s, log)
    requires forall j :: 0 <= j < |w| ==> w[j].opcode >= DecodeMode
    ensures Mirrors(s, log + w)
  {
    forall r | 0 <= r < 8
      ensures LastData(log + w, DigitRegister(r)) == Some(s[r])
    {
      ControlWritesSkipRows(w, r);
      LastDataAppend(log, w, DigitRegister(r));
    }
  }

  /** The writes of shutdown, set_scan_limit and set_intensity go to control registers only. */
  lemma ControlOperationsWriteControlRegisters(powerdown: bool, limit: int, intensity: int)
    ensures forall j :: 0 <= j < |ShutdownWrites(powerdown)| ==> ShutdownWrites(powerdown)[j].opcode >= DecodeMode
    ensures forall j :: 0 <= j < |ScanLimitWrites(limit)| ==> ScanLimitWrites(limit)[j].opcode >= DecodeMode
    ensures forall j :: 0 <= j < |IntensityWrites(intensity)| ==> IntensityWrites(intensity)[j].opcode >= DecodeMode
  {
  }

  /** A freshly constructed driver satisfies the invariant. */
  lemma InitMirrors()
    ensures Mirrors(Blank(), InitWrites())
  {
    InitWritesExplicit();
    ClearMirrors(Blank(), [RegWrite(DisplayTest, 0)] + ScanLimitWrites(7) + [RegWrite(DecodeMode, 0)]);
    var pre := [RegWrite(DisplayTest, 0)] + ScanLimitWrites(7) + [RegWrite(DecodeMode, 0)];
    ControlWritesKeepMirror(Blank(), pre + Clear(Blank()).writes, ShutdownWrites(true));
    assert InitWrites() == pre + Clear(Blank()).writes + ShutdownWrites(true);
  }
}

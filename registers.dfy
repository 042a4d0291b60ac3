/** The MAX7219 register address map and the unit of traffic on the bus: one
    register write, an (opcode, data) pair. */
module Registers {

  datatype Option<T> = None | Some(value: T)

  /** One register write as the driver sends it: the register address and the data byte. */
  datatype RegWrite = RegWrite(opcode: bv8, data: bv8)

  // Register address map; the digit (row) registers DIGIT0..DIGIT7 are 1..8.
  const Digit0: bv8 := 1
  const Digit7: bv8 := 8
  const NoOp: bv8 := 0x00
  const Shutdown: bv8 := 0x0C
  const ShutdownMode: bv8 := 0
  const ShutdownNormal: bv8 := 1
  const DecodeMode: bv8 := 0x09
  const Intensity: bv8 := 0x0A
  const ScanLimit: bv8 := 0x0B
  const DisplayTest: bv8 := 0x0F

  /** The digit register that holds row (or digit) `row`: `row + 1`. */
  function DigitRegister(row: int): (r: bv8)
    requires 0 <= row < 8
    ensures Digit0 <= r <= Digit7
    ensures r as int == row + 1
  {
    (row + 1) as bv8
  }

  /** Distinct rows are held in distinct registers. */
  lemma DigitRegisterInjective(i: int, j: int)
    requires 0 <= i < 8 && 0 <= j < 8
    ensures DigitRegister(i) == DigitRegister(j) <==> i == j
  {
  }

  /** The control registers are never digit registers. */
  lemma ControlRegistersAreNotDigits(row: int)
    requires 0 <= row < 8
    ensures DigitRegister(row) !in {NoOp, Shutdown, DecodeMode, Intensity, ScanLimit, DisplayTest}
  {
  }
}

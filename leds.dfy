/** The bit that stands for one LED of a row (or one segment of a digit).
    Column 0 is the most significant bit. */
module Leds {

  /** The mask `0x80 >> column` for LED `column` of a row. */
  function Mask(column: int): (m: bv8)
    requires 0 <= column < 8
    ensures m != 0
  {
    0x80 >> column
  }

  /** The eight masks spelled out: exactly bit `7 - column` is set. */
  lemma MaskValue(column: int)
    requires 0 <= column < 8
    ensures Mask(column) == [0x80, 0x40, 0x20, 0x10, 0x08, 0x04, 0x02, 0x01][column]
    ensures Mask(column) == 1 << (7 - column)
  {
    if column == 0 {
    } else if column == 1 {
    } else if column == 2 {
    } else if column == 3 {
    } else if column == 4 {
    } else if column == 5 {
    } else if column == 6 {
    } else {
    }
  }

  /** Whether LED `column` is lit in row pattern `b`. */
  predicate LedOn(b: bv8, column: int)
    requires 0 <= column < 8
  {
    b & Mask(column) != 0
  }

  /** The row pattern `b` with LED `column` switched on (`state`) or off:
      OR in the mask, or AND with its complement. */
  function UpdateLed(b: bv8, column: int, state: bool): (r: bv8)
    requires 0 <= column < 8
    ensures state ==> r & b == b
    ensures !state ==> r & b == r
  {
    if state then b | Mask(column) else b & !Mask(column)
  }

  /** UpdateLed sets LED `column` to `state` and leaves the other seven LEDs alone. */
  lemma UpdateLedBits(b: bv8, column: int, state: bool)
    requires 0 <= column < 8
    ensures LedOn(UpdateLed(b, column, state), column) == state
    ensures forall c :: 0 <= c < 8 && c != column ==> LedOn(UpdateLed(b, column, state), c) == LedOn(b, c)
  {
    MaskValue(column);
    forall c | 0 <= c < 8 && c != column
      ensures LedOn(UpdateLed(b, column, state), c) == LedOn(b, c)
    {
      MaskValue(c);
    }
  }

  /** A row pattern is determined by which of its eight LEDs are lit. */
  lemma SameLeds(a: bv8, b: bv8)
    requires forall c :: 0 <= c < 8 ==> LedOn(a, c) == LedOn(b, c)
    ensures a == b
  {
    MaskValue(0); MaskValue(1); MaskValue(2); MaskValue(3);
    MaskValue(4); MaskValue(5); MaskValue(6); MaskValue(7);
    assert LedOn(a, 0) == LedOn(b, 0) && LedOn(a, 1) == LedOn(b, 1);
    assert LedOn(a, 2) == LedOn(b, 2) && LedOn(a, 3) == LedOn(b, 3);
    assert LedOn(a, 4) == LedOn(b, 4) && LedOn(a, 5) == LedOn(b, 5);
    assert LedOn(a, 6) == LedOn(b, 6) && LedOn(a, 7) == LedOn(b, 7);
  }

  /** A row with all eight LEDs lit is 0xFF; one with none lit is 0x00. */
  lemma FullAndEmptyRows(b: bv8, state: bool)
    requires forall c :: 0 <= c < 8 ==> LedOn(b, c) == state
    ensures b == if state then 0xFF else 0x00
  {
    var full: bv8 := if state then 0xFF else 0x00;
    forall c | 0 <= c < 8
      ensures LedOn(full, c) == state
    {
      MaskValue(c);
    }
    SameLeds(b, full);
  }

  /** Switching an LED on and then off again gives back the original pattern
      exactly when that LED was off to begin with. */
  lemma OnThenOff(b: bv8, column: int)
    requires 0 <= column < 8
    ensures UpdateLed(UpdateLed(b, column, true), column, false) == b <==> !LedOn(b, column)
  {
    MaskValue(column);
  }

  /** Setting an LED twice to the same state is the same as setting it once. */
  lemma UpdateLedIdempotent(b: bv8, column: int, state: bool)
    requires 0 <= column < 8
    ensures UpdateLed(UpdateLed(b, column, state), column, state) == UpdateLed(b, column, state)
  {
    MaskValue(column);
  }
}

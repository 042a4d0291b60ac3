/** The 128-entry 7-segment glyph table, indexed by character code. Bits 0-6
    are segments; bit 7 (0x80) is the decimal point, which the table leaves
    clear except for ',' and '.'. The table is written as its sixteen lines of
    eight entries (codes 8k..8k+7 on line k), exactly as the driver lists them. */
module Glyphs {

  import opened Registers

  const Row0: seq<bv8> := [0x7E, 0x30, 0x6D, 0x79, 0x33, 0x5B, 0x5F, 0x70]
  const Row1: seq<bv8> := [0x7F, 0x7B, 0x77, 0x1F, 0x0D, 0x3D, 0x4F, 0x47]
  const Row2: seq<bv8> := [0x00, 0x00, 0x00, 0x00, 0x00, 0x00, 0x00, 0x00]
  const Row3: seq<bv8> := [0x00, 0x00, 0x00, 0x00, 0x00, 0x00, 0x00, 0x00]
  const Row4: seq<bv8> := [0x00, 0x00, 0x00, 0x00, 0x00, 0x00, 0x00, 0x00]
  const Row5: seq<bv8> := [0x00, 0x00, 0x00, 0x00, 0x80, 0x01, 0x80, 0x00]
  const Row6: seq<bv8> := [0x7E, 0x30, 0x6D, 0x79, 0x33, 0x5B, 0x5F, 0x70]
  const Row7: seq<bv8> := [0x7F, 0x7B, 0x00, 0x00, 0x00, 0x00, 0x00, 0x00]
  const Row8: seq<bv8> := [0x00, 0x77, 0x1F, 0x0D, 0x3D, 0x4F, 0x47, 0x00]
  const Row9: seq<bv8> := [0x37, 0x00, 0x00, 0x00, 0x0E, 0x00, 0x00, 0x00]
  const Row10: seq<bv8> := [0x67, 0x00, 0x00, 0x00, 0x00, 0x00, 0x00, 0x00]
  const Row11: seq<bv8> := [0x00, 0x00, 0x00, 0x00, 0x00, 0x00, 0x00, 0x08]
  const Row12: seq<bv8> := [0x00, 0x77, 0x1F, 0x0D, 0x3D, 0x4F, 0x47, 0x00]
  const Row13: seq<bv8> := [0x37, 0x00, 0x00, 0x00, 0x0E, 0x00, 0x15, 0x1D]
  const Row14: seq<bv8> := [0x67, 0x00, 0x00, 0x00, 0x00, 0x00, 0x00, 0x00]
  const Row15: seq<bv8> := [0x00, 0x00, 0x00, 0x00, 0x00, 0x00, 0x00, 0x00]

  const CharTable: seq<bv8> :=
    (((Row0 + Row1) + (Row2 + Row3)) + ((Row4 + Row5) + (Row6 + Row7)))
    + (((Row8 + Row9) + (Row10 + Row11)) + ((Row12 + Row13) + (Row14 + Row15)))

  /** The decimal-point bit, ORed in by set_digit and set_char. */
  const DecimalPoint: bv8 := 0x80

  /** The glyph used for character codes beyond the table: the space. */
  const Space := 32

  /** The table covers the 7-bit character codes; the space is blank and hex digit 0 is 0b01111110. */
  lemma TableShape()
    ensures |CharTable| == 128
    ensures CharTable[Space] == 0x00
    ensures CharTable[0] == 0x7E
  {
  }

  /** The glyphs of the sixteen hex digits are the table's first two lines. */
  lemma HexGlyphs(v: int)
    requires 0 <= v < 16
    ensures CharTable[v] == if v < 8 then Row0[v] else Row1[v - 8]
  {
    assert CharTable[..8] == Row0 && CharTable[8..16] == Row1;
  }

  /** No hex-digit glyph uses the decimal-point bit, so set_digit's `dp` flag alone decides it. */
  lemma HexGlyphsLeaveDecimalPoint(v: int)
    requires 0 <= v < 16
    ensures CharTable[v] & DecimalPoint == 0
  {
    HexGlyphs(v);
    if v < 8 {
      assert Row0[v] & 0x80 == 0;
    } else {
      assert Row1[v - 8] & 0x80 == 0;
    }
  }

  /** Reads a hex digit back off a segment pattern: an independent listing of
      the sixteen hex glyphs (0-9, A, b, c, d, E, F). */
  function ReadHexDigit(g: bv8): Option<int>
  {
    if g == 0x7E then Some(0) else if g == 0x30 then Some(1)
    else if g == 0x6D then Some(2) else if g == 0x79 then Some(3)
    else if g == 0x33 then Some(4) else if g == 0x5B then Some(5)
    else if g == 0x5F then Some(6) else if g == 0x70 then Some(7)
    else if g == 0x7F then Some(8) else if g == 0x7B then Some(9)
    else if g == 0x77 then Some(10) else if g == 0x1F then Some(11)
    else if g == 0x0D then Some(12) else if g == 0x3D then Some(13)
    else if g == 0x4F then Some(14) else if g == 0x47 then Some(15)
    else None
  }

  /** Every hex-digit glyph reads back as its digit, so the sixteen glyphs are
      pairwise different. */
  lemma HexGlyphsReadBack(v: int)
    requires 0 <= v < 16
    ensures ReadHexDigit(CharTable[v]) == Some(v)
  {
    HexGlyphs(v);
    if v < 8 {
      assert ReadHexDigit(Row0[v]) == Some(v);
    } else {
      assert ReadHexDigit(Row1[v - 8]) == Some(v);
    }
  }

  /** The character code of hex digit `v` in upper case ('0'..'9', 'A'..'F'). */
  function HexUpper(v: int): (c: int)
    requires 0 <= v < 16
    ensures 48 <= c < 71
  {
    if v < 10 then '0' as int + v else 'A' as int + (v - 10)
  }

  /** The character code of hex digit `v` in lower case ('0'..'9', 'a'..'f'). */
  function HexLower(v: int): (c: int)
    requires 0 <= v < 16
    ensures 48 <= c < 103
  {
    if v < 10 then '0' as int + v else 'a' as int + (v - 10)
  }

  /** Where the hex digits' character codes sit: '0'..'7' on line 6, '8' and
      '9' on line 7, 'A'..'F' on line 8 and 'a'..'f' on line 12. */
  lemma HexCharacterGlyph(c: int)
    requires 48 <= c < 72 || 96 <= c < 104
    ensures CharTable[c] == if c < 56 then Row6[c - 48] else if c < 64 then Row7[c - 56]
                            else if c < 72 then Row8[c - 64] else Row12[c - 96]
  {
    assert CharTable[48..56] == Row6 && CharTable[56..64] == Row7;
    assert CharTable[64..72] == Row8 && CharTable[96..104] == Row12;
  }

  /** The glyph of a hex digit's character code is the glyph of the digit itself. */
  lemma HexCharactersMatchDigits(v: int)
    requires 0 <= v < 16
    ensures CharTable[HexUpper(v)] == CharTable[v]
    ensures CharTable[HexLower(v)] == CharTable[v]
  {
    HexGlyphs(v);
    HexCharacterGlyph(HexUpper(v));
    HexCharacterGlyph(HexLower(v));
  }
}

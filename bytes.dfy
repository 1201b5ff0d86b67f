/** Fixed-width integer arithmetic of the AVR target and the column write rule
    shared by the sprite and glyph drawers. */
module Bytes {

  /** A signed 8-bit value (`int8_t`). */
  type int8 = x: int | -128 <= x <= 127

  /** An unsigned 8-bit value (`uint8_t`) used as a count or index. */
  type uint8 = x: int | 0 <= x <= 255

  /** Conversion of an `int` result to `int8_t` as avr-gcc performs it:
      the value is reduced modulo 256 into -128..127. */
  function Int8(v: int): (r: int8)
    ensures -128 <= v <= 127 ==> r == v
    ensures 128 <= v <= 383 ==> r == v - 256
  {
    (v + 128) % 256 - 128
  }

  /** The conversion keeps the value modulo 256. */
  lemma Int8Congruent(v: int)
    ensures (Int8(v) - v) % 256 == 0
  {
  }

  /** Bit `i` (row `i`) of a column byte. */
  predicate Bit(b: bv8, i: nat)
    requires i < 8
  {
    (b >> (i as bv8)) & 1 == 1
  }

  /** The destination mask of `display_draw_sprite`/`display_draw_char`:
      `0xFF << y` truncated to a byte for y >= 0, and the comparison
      `0xFF > y`, which is 1, for y < 0. */
  function ColumnMask(y: int): bv8
    requires -8 <= y <= 8
  {
    if y >= 0 then 0xFF << (y as bv8) else 1
  }

  /** The source column shifted up by `y` (y >= 0) or down by `-y` (y < 0),
      truncated to a byte. */
  function Shifted(bits: bv8, y: int): bv8
    requires -8 <= y <= 8
  {
    if y >= 0 then bits << (y as bv8) else bits >> ((-y) as bv8)
  }

  /** A column after `canvas &= ~mask; canvas |= pixels`. */
  function Overlay(col: bv8, mask: bv8, pixels: bv8): bv8
  {
    (col & !mask) | pixels
  }

  /** The new canvas column when source column `bits` is drawn at row
      offset `y`. */
  function WriteColumn(col: bv8, bits: bv8, y: int): bv8
    requires -8 <= y <= 8
  {
    Overlay(col, ColumnMask(y), Shifted(bits, y))
  }

  /** Row i of the mask: every row from y up for y >= 0, only row 0 for
      y < 0. */
  lemma ColumnMaskRows(y: int, i: nat)
    requires -8 <= y <= 8 && i < 8
    ensures Bit(ColumnMask(y), i) == if y >= 0 then y <= i else i == 0
  {
    if y >= 0 && y <= i {
      assert (i - y) as bv8 == i as bv8 - y as bv8;
    }
  }

  /** Row i of the shifted column is source row i - y, when that row
      exists. */
  lemma ShiftedRows(bits: bv8, y: int, i: nat)
    requires -8 <= y <= 8 && i < 8
    ensures Bit(Shifted(bits, y), i) == (0 <= i - y < 8 && Bit(bits, i - y))
  {
    if y >= 0 {
      WriteColumnUp(0, bits, y, i);
      OverlayRows(0, ColumnMask(y), Shifted(bits, y), i);
    } else {
      WriteColumnDown(0, bits, y, i);
      OverlayRows(0, ColumnMask(y), Shifted(bits, y), i);
    }
  }

  /** Row i after the overlay: the old row where the mask is clear, OR the
      new pixels. */
  lemma OverlayRows(col: bv8, mask: bv8, pixels: bv8, i: nat)
    requires i < 8
    ensures Bit(Overlay(col, mask, pixels), i) == ((Bit(col, i) && !Bit(mask, i)) || Bit(pixels, i))
  {
    OverlayBit(col, mask, pixels, i as bv8);
  }

  /** OverlayRows for a bit-vector row number, checked row by row. */
  lemma OverlayBit(col: bv8, mask: bv8, pixels: bv8, k: bv8)
    requires k < 8
    ensures (((col & !mask) | pixels) >> k) & 1 == 1 <==>
            ((col >> k) & 1 == 1 && (mask >> k) & 1 != 1) || (pixels >> k) & 1 == 1
  {
    if k == 0 {
    } else if k == 1 {
    } else if k == 2 {
    } else if k == 3 {
    } else if k == 4 {
    } else if k == 5 {
    } else if k == 6 {
    } else {
    }
  }

  /** Shifting up by y >= 0: the rows below `y` keep the old column, row
      `i >= y` shows source row `i - y`. */
  lemma WriteColumnUp(col: bv8, bits: bv8, y: int, i: nat)
    requires 0 <= y <= 8 && i < 8
    ensures Bit(WriteColumn(col, bits, y), i) == if i < y then Bit(col, i) else Bit(bits, i - y)
  {
    if i >= y {
      assert (i - y) as bv8 == i as bv8 - y as bv8;
    }
  }

  /** Shifting down by -y > 0: only row 0 is cleared first (the mask is 1), so
      the shifted source is OR-ed over the old rows 1..7. */
  lemma WriteColumnDown(col: bv8, bits: bv8, y: int, i: nat)
    requires -8 <= y < 0 && i < 8
    ensures Bit(WriteColumn(col, bits, y), i) ==
            ((i > 0 && Bit(col, i)) || (i - y < 8 && Bit(bits, i - y)))
  {
    if i - y < 8 {
      assert (i - y) as bv8 == i as bv8 + (-y) as bv8;
    }
  }

  /** A full column drawn over an empty one: 0xFF at y = 2 gives 0xFC, at
      y = -2 gives 0x3F. */
  lemma FullColumnShift()
    ensures WriteColumn(0, 0xFF, 2) == 0xFC
    ensures WriteColumn(0, 0xFF, -2) == 0x3F
  {
  }

  /** Row `y` set (`|= 1 << y`). */
  function SetBit(b: bv8, y: nat): bv8
    requires y < 16
  {
    if y < 8 then b | (1 << (y as bv8)) else b
  }

  /** Row i is lit afterwards exactly when it is row y or was lit before; a
      shift past the byte (y >= 8) changes nothing. */
  lemma SetBitRows(b: bv8, y: nat, i: nat)
    requires y < 16 && i < 8
    ensures Bit(SetBit(b, y), i) == (i == y || Bit(b, i))
  {
    if y < 8 {
      SingleBit(y, i);
    }
  }

  /** Row `y` cleared (`&= ~(1 << y)`). */
  function ClearBit(b: bv8, y: nat): bv8
    requires y < 16
  {
    if y < 8 then b & !(1 << (y as bv8)) else b
  }

  /** Row i is lit afterwards exactly when it is not row y and was lit
      before; a shift past the byte (y >= 8) changes nothing. */
  lemma ClearBitRows(b: bv8, y: nat, i: nat)
    requires y < 16 && i < 8
    ensures Bit(ClearBit(b, y), i) == (i != y && Bit(b, i))
  {
    if y < 8 {
      SingleBit(y, i);
    }
  }

  /** `1 << y` has row y and no other row lit. */
  lemma SingleBit(y: nat, i: nat)
    requires y < 8 && i < 8
    ensures (((1 as bv8) << (y as bv8)) >> (i as bv8)) & 1 == if i == y then 1 else 0
  {
  }
}

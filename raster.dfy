/** Glyph, sprite and string rasterisation of display.c as functions on a
    canvas value (one byte per column, bit i = row i). */
module Raster {
  import opened Bytes

  /** The program-memory font tables: `charset_width`, `charset_offset` and
      `charset_char`, indexed by character code. */
  datatype Font = Font(width: seq<bv8>, offset: seq<nat>, bitmap: seq<bv8>)

  /** Tables covering at least the codes 0..127 that `display_draw_char`
      reads, 16-bit offsets, glyphs inside the bitmap table, and widths below
      128 (the column counter of `display_draw_char` is an `int8_t`). */
  predicate ValidFont(f: Font)
  {
    |f.width| >= 128 && |f.offset| == |f.width| &&
    forall c :: 0 <= c < |f.width| ==>
      f.width[c] < 128 && f.offset[c] < 0x1_0000 && f.offset[c] + f.width[c] as int <= |f.bitmap|
  }

  /** The bitmap columns of character `code`. */
  function Glyph(f: Font, code: nat): (g: seq<bv8>)
    requires ValidFont(f) && code < |f.width|
    ensures |g| == f.width[code] as int
  {
    f.bitmap[f.offset[code] .. f.offset[code] + f.width[code] as int]
  }

  /** The value `display_draw_char` returns: 0 for a code above 127 or an
      empty glyph, the glyph width otherwise. */
  function CharWidth(f: Font, code: uint8): (w: nat)
    requires ValidFont(f)
    ensures w < 128
    ensures w == 0 <==> code > 127 || f.width[code] == 0
    ensures w > 0 ==> w == |Glyph(f, code)|
  {
    if code > 127 then 0 else f.width[code] as int
  }

  /** The guard `ch > 127` as avr-gcc evaluates it: a plain `char` is signed,
      so the byte is read as Int8(code). */
  predicate SignedGuardRejects(code: uint8)
  {
    Int8(code) > 127
  }

  /** `display_draw_char`'s width lookup as written, for signed `char`. */
  function SignedCharWidth(f: Font, code: uint8): nat
    requires ValidFont(f) && |f.width| == 256
  {
    if SignedGuardRejects(code) then 0 else f.width[code] as int
  }

  /** With a signed `char` (avr-gcc's default, absent `-funsigned-char`) the
      guard never fires: code 200 reads as -56, passes the guard, and, for a
      256-entry width table, its width is looked up in the upper half of the
      table, which the byte guard of CharWidth rejects. With a 128-entry
      table the same lookup reads past its end. */
  lemma SignedGuardAdmitsHighCodes(f: Font)
    requires ValidFont(f) && |f.width| == 256
    ensures forall code: uint8 :: !SignedGuardRejects(code)
    ensures Int8(200) == -56
    ensures SignedCharWidth(f, 200) == f.width[200] as int
    ensures CharWidth(f, 200) == 0
  {
  }

  /** Glyph columns 0..n-1 written at columns x + j, computed in `int8_t`
      arithmetic; columns outside the canvas are skipped. */
  function Blit(cv: seq<bv8>, x: int8, y: int, glyph: seq<bv8>, n: nat): (r: seq<bv8>)
    requires -8 <= y <= 8 && n <= |glyph| && n <= 128
    ensures |r| == |cv|
  {
    if n == 0 then cv
    else
      var prev := Blit(cv, x, y, glyph, n - 1);
      var col := Int8(x + (n - 1));
      if 0 <= col < |prev| then prev[col := WriteColumn(prev[col], glyph[n - 1], y)] else prev
  }

  /** Column c changes exactly when it is x + j for some j < n and lies at
      or below 127: an `int8_t` column past 127 wraps to a negative one and is
      clipped. */
  lemma {:induction false} BlitColumns(cv: seq<bv8>, x: int8, y: int, glyph: seq<bv8>, n: nat, c: nat)
    requires -8 <= y <= 8 && n <= |glyph| && n <= 128 && c < |cv|
    ensures Blit(cv, x, y, glyph, n)[c] ==
              if x <= c < x + n && c <= 127 then WriteColumn(cv[c], glyph[c - x], y) else cv[c]
  {
    if n > 0 {
      BlitColumns(cv, x, y, glyph, n - 1, c);
    }
  }

  /** The canvas after `display_draw_char(x, y, code)`. */
  function CharDrawn(cv: seq<bv8>, x: int8, y: int, code: uint8, f: Font): (r: seq<bv8>)
    requires ValidFont(f) && -8 <= y <= 8
    ensures |r| == |cv|
  {
    var w := CharWidth(f, code);
    if w == 0 then cv else Blit(cv, x, y, Glyph(f, code), w)
  }

  /** `display_draw_char` draws nothing for a rejected code or an empty
      glyph; otherwise it rewrites exactly the on-canvas columns x + j,
      j < width, with glyph column j. */
  lemma CharDrawnColumns(cv: seq<bv8>, x: int8, y: int, code: uint8, f: Font, c: nat)
    requires ValidFont(f) && -8 <= y <= 8 && c < |cv|
    ensures CharWidth(f, code) == 0 ==> CharDrawn(cv, x, y, code, f) == cv
    ensures CharDrawn(cv, x, y, code, f)[c] ==
              var w := CharWidth(f, code);
              if x <= c < x + w && c <= 127 then WriteColumn(cv[c], Glyph(f, code)[c - x], y)
              else cv[c]
  {
    var w := CharWidth(f, code);
    if w > 0 {
      BlitColumns(cv, x, y, Glyph(f, code), w, c);
    }
  }

  /** The canvas after `display_draw_sprite(x, y, w, h, data)`: the first w
      canvas columns take the sprite's columns under the column write rule;
      the position x and the height h play no part. */
  function SpriteDrawn(cv: seq<bv8>, y: int, sprite: seq<bv8>): (r: seq<bv8>)
    requires -8 <= y <= 8 && |sprite| <= |cv|
    ensures |r| == |cv|
  {
    seq(|sprite|, c requires 0 <= c < |sprite| => WriteColumn(cv[c], sprite[c], y)) + cv[|sprite|..]
  }

  /** Sprite column c lands on canvas column c; the columns after it are
      untouched. */
  lemma SpriteColumns(cv: seq<bv8>, y: int, sprite: seq<bv8>, c: nat)
    requires -8 <= y <= 8 && |sprite| <= |cv| && c < |cv|
    ensures SpriteDrawn(cv, y, sprite)[c] ==
              if c < |sprite| then WriteColumn(cv[c], sprite[c], y) else cv[c]
  {
  }

  /** The cursor loop of `display_draw_string` from cursor i on. */
  function StringFrom(cv: seq<bv8>, i: int8, y: int, str: seq<uint8>, f: Font): (r: seq<bv8>)
    requires ValidFont(f) && -8 <= y <= 8
    ensures |r| == |cv|
    decreases |str|
  {
    if str == [] || i >= |cv| then cv
    else
      var w := CharWidth(f, str[0]);
      StringFrom(CharDrawn(cv, i, y, str[0], f), if w > 0 then Int8(i + w + 1) else i, y, str[1..], f)
  }

  /** Drawing the character at position p and moving the cursor past it
      leaves the rest of the string to draw. */
  lemma StringFromStep(cv: seq<bv8>, i: int8, y: int, str: seq<uint8>, p: nat, f: Font, next: int8)
    requires ValidFont(f) && -8 <= y <= 8 && p < |str| && i < |cv|
    requires next == if CharWidth(f, str[p]) > 0 then Int8(i + CharWidth(f, str[p]) + 1) else i
    ensures StringFrom(cv, i, y, str[p..], f) == StringFrom(CharDrawn(cv, i, y, str[p], f), next, y, str[p + 1..], f)
  {
    assert str[p..][1..] == str[p + 1..];
  }

  /** The canvas after `display_draw_string(x, y, str)`. */
  function StringDrawn(cv: seq<bv8>, x: int8, y: int8, str: seq<uint8>, f: Font): (r: seq<bv8>)
    requires ValidFont(f)
    ensures |r| == |cv|
    ensures y < -8 || y > 8 ==> r == cv
  {
    if y < -8 || y > 8 then cv else StringFrom(cv, x, y, str, f)
  }

  /** A skipped character (code above 127 or empty glyph) neither draws nor
      moves the cursor. */
  lemma SkippedCharacter(cv: seq<bv8>, i: int8, y: int, c: uint8, rest: seq<uint8>, f: Font)
    requires ValidFont(f) && -8 <= y <= 8 && i < |cv|
    requires CharWidth(f, c) == 0
    ensures StringFrom(cv, i, y, [c] + rest, f) == StringFrom(cv, i, y, rest, f)
  {
    assert ([c] + rest)[1..] == rest;
  }

  /** The `int8_t` cursor never reaches a column past 127: those columns are
      never drawn, however wide the chain. */
  lemma {:induction false} StringKeepsHighColumns(cv: seq<bv8>, i: int8, y: int, str: seq<uint8>, f: Font, c: nat)
    requires ValidFont(f) && -8 <= y <= 8 && 127 < c < |cv|
    ensures StringFrom(cv, i, y, str, f)[c] == cv[c]
    decreases |str|
  {
    if str != [] && i < |cv| {
      var w := CharWidth(f, str[0]);
      var next := CharDrawn(cv, i, y, str[0], f);
      CharDrawnColumns(cv, i, y, str[0], f, c);
      StringKeepsHighColumns(next, if w > 0 then Int8(i + w + 1) else i, y, str[1..], f, c);
    }
  }

  /** The horizontal advance of a string: glyph width plus one spacing column
      per character, in unbounded arithmetic. */
  function TotalAdvance(f: Font, str: seq<uint8>): nat
    requires forall k :: 0 <= k < |str| ==> str[k] < |f.width|
    decreases |str|
  {
    if str == [] then 0
    else TotalAdvance(f, str[..|str| - 1]) + f.width[str[|str| - 1]] as int + 1
  }

  /** The advance of a concatenation is the sum of the advances. */
  lemma {:induction false} TotalAdvanceAppend(f: Font, a: seq<uint8>, b: seq<uint8>)
    requires forall k :: 0 <= k < |a| ==> a[k] < |f.width|
    requires forall k :: 0 <= k < |b| ==> b[k] < |f.width|
    ensures TotalAdvance(f, a + b) == TotalAdvance(f, a) + TotalAdvance(f, b)
    decreases |b|
  {
    if b == [] {
      assert a + b == a;
    } else {
      var b' := b[..|b| - 1];
      assert (a + b)[..|a + b| - 1] == a + b';
      TotalAdvanceAppend(f, a, b');
    }
  }

  /** `display_measure_string`: the 16-bit accumulated advance minus the
      trailing spacing column, 0 when the accumulator is 0. */
  function Measured(f: Font, str: seq<uint8>): (r: nat)
    requires forall k :: 0 <= k < |str| ==> str[k] < |f.width|
    ensures r < 0x1_0000
  {
    var t := TotalAdvance(f, str) % 0x1_0000;
    if t > 0 then t - 1 else 0
  }

  /** The empty string measures 0; one character measures its glyph width. */
  lemma MeasureShort(f: Font, c: uint8)
    requires c < |f.width|
    ensures Measured(f, []) == 0
    ensures Measured(f, [c]) == f.width[c] as int
  {
    assert [c][..0] == [];
  }

  /** Below 16-bit overflow, measuring a concatenation adds one spacing
      column between the parts; zero-width characters still count one. */
  lemma MeasureAppend(f: Font, a: seq<uint8>, b: seq<uint8>)
    requires forall k :: 0 <= k < |a| ==> a[k] < |f.width|
    requires forall k :: 0 <= k < |b| ==> b[k] < |f.width|
    requires a != [] && b != []
    requires TotalAdvance(f, a + b) < 0x1_0000
    ensures Measured(f, a + b) == Measured(f, a) + 1 + Measured(f, b)
  {
    TotalAdvanceAppend(f, a, b);
    TotalAdvancePositive(f, a);
    TotalAdvancePositive(f, b);
    var ta, tb := TotalAdvance(f, a), TotalAdvance(f, b);
    Below16(ta);
    Below16(tb);
    Below16(ta + tb);
  }

  /** A value below 2^16 survives the 16-bit reduction. */
  lemma Below16(t: nat)
    requires t < 0x1_0000
    ensures t % 0x1_0000 == t
  {
  }

  /** Every character advances the cursor by at least one column. */
  lemma TotalAdvancePositive(f: Font, str: seq<uint8>)
    requires forall k :: 0 <= k < |str| ==> str[k] < |f.width|
    ensures str != [] ==> TotalAdvance(f, str) >= |str|
  {
    if str != [] {
      TotalAdvancePositive(f, str[..|str| - 1]);
    }
  }
}

/** The text module of the GLCD driver: the current font and the drawing
    operations that use it.

    The display is reached only through glcd_set_pixel. Its effect is
    recorded as an append-only log of writes, one entry per call; the
    framebuffer behind it is not part of this model. */
module Text {
  import opened FontTable
  import opened GlyphSpec
  import opened StringSpec

  class Glcd {
    /** GLCD_LCD_WIDTH and GLCD_LCD_HEIGHT. */
    const lcdWidth: nat
    const lcdHeight: nat

    /** font_current; None until a font has been set. The field is public,
        as the C global is: assigning it directly is how a caller selects
        a layout other than MIKRO. */
    var fontCurrent: Option<FontConfig>

    /** Every glcd_set_pixel call made so far, oldest first. */
    var log: seq<Pixel>

    /** glcd_set_pixel takes uint8_t coordinates, so the display is at most
        256 pixels in each direction. */
    constructor (width: nat, height: nat)
      requires width <= 256 && height <= 256
      ensures lcdWidth == width && lcdHeight == height
      ensures fontCurrent == None && log == []
    {
      lcdWidth, lcdHeight := width, height;
      fontCurrent, log := None, [];
    }

    /** glcd_set_font: replaces the whole font and always selects MIKRO. */
    method SetFont(table: seq<Byte>, width: Byte, height: Byte, startChar: Char, endChar: Char)
      modifies this`fontCurrent
      ensures fontCurrent == Some(FontConfig(table, width, height, startChar, endChar, Mikro))
    {
      fontCurrent := Some(FontConfig(table, width, height, startChar, endChar, Mikro));
    }

    /** glcd_draw_char_xy: draws c (or '.' when the font does not cover c)
        with its top-left corner at (x, y) and returns the width drawn, 0
        when the glyph ran off the display or the layout is not drawable. */
    method DrawCharXY(x: Byte, y: Byte, c: Char) returns (r: Byte)
      requires fontCurrent.Some? && Readable(fontCurrent.value, c)
      modifies this`log
      ensures var g := Glyph(fontCurrent.value, lcdWidth, lcdHeight, old(log), x, y, c);
        r == g.width && log == g.log
    {
      var f := fontCurrent.value;
      var ch := c;
      if ch < f.startChar || ch > f.endChar {
        ch := Dot;
      }
      match f.tableType
      case Stang =>
        r := DrawStang(f, x, y, ch);
      case Mikro =>
        r := DrawMikro(f, x, y, ch);
      case GlcdUtils =>
        r := 0;
      case Unrecognised(_) =>
        r := 0;
    }

    /** glcd_draw_string_xy: unless the row is too low for the font, draws
        the characters of str up to its NUL, moving the uint8_t cursor on by
        each returned width plus one. */
    method DrawStringXY(x: Byte, y: Byte, str: seq<Char>)
      requires fontCurrent.Some? && Drawable(fontCurrent.value, lcdHeight, y, str)
      modifies this`log
      ensures log == DrawString(fontCurrent.value, lcdWidth, lcdHeight, old(log), x, y, str)
    {
      var f := fontCurrent.value;
      if y > lcdHeight - f.height - 1 {
        return;
      }
      ghost var t := CString(str);
      var cx: Byte := x;
      var n := 0;
      while str[n] != Nul
        invariant 0 <= n <= |t|
        invariant DrawChars(f, lcdWidth, lcdHeight, Pen(old(log), x), y, t) == DrawChars(f, lcdWidth, lcdHeight, Pen(log, cx), y, t[n..])
        decreases |t| - n
      {
        DrawCharsStep(f, lcdWidth, lcdHeight, Pen(log, cx), y, t, n);
        var width := DrawCharXY(cx, y, str[n]);
        cx := Advance(cx, width);
        n := n + 1;
      }
    }

    /** glcd_draw_string_xy_P: the same walk, reading each character before
        testing it. */
    method DrawStringXYP(x: Byte, y: Byte, str: seq<Char>)
      requires fontCurrent.Some? && Drawable(fontCurrent.value, lcdHeight, y, str)
      modifies this`log
      ensures log == DrawString(fontCurrent.value, lcdWidth, lcdHeight, old(log), x, y, str)
    {
      var f := fontCurrent.value;
      if y > lcdHeight - f.height - 1 {
        return;
      }
      ghost var t := CString(str);
      var cx: Byte := x;
      var n := 0;
      while true
        invariant 0 <= n <= |t|
        invariant DrawChars(f, lcdWidth, lcdHeight, Pen(old(log), x), y, t) == DrawChars(f, lcdWidth, lcdHeight, Pen(log, cx), y, t[n..])
        decreases |t| - n
      {
        var c := str[n];
        n := n + 1;
        if c == Nul {
          return;
        }
        DrawCharsStep(f, lcdWidth, lcdHeight, Pen(log, cx), y, t, n - 1);
        var width := DrawCharXY(cx, y, c);
        cx := Advance(cx, width);
      }
    }

    /** The STANG branch: `width` columns, one byte each, 8 rows. */
    method DrawStang(f: FontConfig, x: Byte, y: Byte, c: Char) returns (r: Byte)
      requires StangReadable(f, c)
      modifies this`log
      ensures var run := StangCols(old(log), f.table, StangOffset(f, c), f.width, x, y, 0, lcdWidth, lcdHeight);
        log == run.log && r == Returned(run, f.width)
    {
      var offset := (c - f.startChar) * f.width;
      assert offset == StangOffset(f, c);
      var i := 0;
      while i < f.width
        invariant 0 <= i <= f.width
        invariant StangCols(old(log), f.table, offset, f.width, x, y, 0, lcdWidth, lcdHeight)
          == StangCols(log, f.table, offset, f.width, x, y, i, lcdWidth, lcdHeight)
      {
        var dat := f.table[offset + i];
        ghost var colStart := log;
        var j := 0;
        while j < 8
          invariant 0 <= j <= 8
          invariant StangRows(colStart, dat, x + i, y, 0, lcdWidth, lcdHeight)
            == StangRows(log, dat, x + i, y, j, lcdWidth, lcdHeight)
        {
          if x + i >= lcdWidth || y + j >= lcdHeight {
            assert StangCols(colStart, f.table, offset, f.width, x, y, i, lcdWidth, lcdHeight) == Run(log, true);
            return 0;
          }
          assert StangRows(log, dat, x + i, y, j, lcdWidth, lcdHeight)
            == StangRows(log + [Pixel(x + i, y + j, ColourOf(dat, j))], dat, x + i, y, j + 1, lcdWidth, lcdHeight);
          // glcd_set_pixel
          if BitSet(dat, j) {
            log := log + [Pixel(x + i, y + j, Black)];
          } else {
            log := log + [Pixel(x + i, y + j, White)];
          }
          j := j + 1;
        }
        assert StangCols(colStart, f.table, offset, f.width, x, y, i, lcdWidth, lcdHeight)
          == StangCols(log, f.table, offset, f.width, x, y, i + 1, lcdWidth, lcdHeight);
        i := i + 1;
      }
      return f.width;
    }

    /** The MIKRO branch: a width byte, then var_width columns of
        bytes_high bytes. The column loop is here; the band and bit loops
        of each column are in DrawMikroColumn. */
    method DrawMikro(f: FontConfig, x: Byte, y: Byte, c: Char) returns (r: Byte)
      requires MikroReadable(f, c)
      modifies this`log
      ensures var off := MikroOffset(f, c);
        var run := MikroCols(old(log), f.table, off + 1, f.table[off], BytesHigh(f), x, y, 0, f.height, lcdWidth, lcdHeight);
        log == run.log && r == Returned(run, f.table[off])
    {
      var bytesHigh := f.height / 8 + 1;
      var bytesPerChar: Byte := (f.width * bytesHigh + 1) % 256;
      var p := (c - f.startChar) * bytesPerChar;
      assert bytesHigh == BytesHigh(f) && p == MikroOffset(f, c);
      var varWidth := f.table[p];
      p := p + 1;
      var offScreen := DrawMikroColumns(f.table, p, varWidth, bytesHigh, f.height, x, y);
      if offScreen {
        return 0;
      }
      return varWidth;
    }

    /** The column loop of the MIKRO branch: varWidth columns of bytesHigh
        bytes from table[start]. Returns true where glcd_draw_char_xy
        returns 0. */
    method DrawMikroColumns(table: seq<Byte>, start: nat, varWidth: Byte, bytesHigh: nat, height: Byte, x: Byte, y: Byte)
      returns (offScreen: bool)
      requires start + varWidth * bytesHigh <= |table|
      modifies this`log
      ensures MikroCols(old(log), table, start, varWidth, bytesHigh, x, y, 0, height, lcdWidth, lcdHeight) == Run(log, offScreen)
    {
      var i := 0;
      while i < varWidth
        invariant 0 <= i <= varWidth
        invariant MikroCols(old(log), table, start, varWidth, bytesHigh, x, y, 0, height, lcdWidth, lcdHeight)
          == MikroCols(log, table, start, varWidth, bytesHigh, x, y, i, height, lcdWidth, lcdHeight)
      {
        ColumnInRecord(i, varWidth, bytesHigh);
        offScreen := DrawMikroColumn(table, start + i * bytesHigh, bytesHigh, height, x + i, y);
        if offScreen {
          return;
        }
        i := i + 1;
      }
      return false;
    }

    /** One MIKRO column at display column x, its bytes_high bytes starting
        at table[column]: for each band j, the 8 bits of byte j. Returns
        true where glcd_draw_char_xy returns 0 from inside these loops. */
    method DrawMikroColumn(table: seq<Byte>, column: nat, bytesHigh: nat, height: Byte, x: int, y: Byte) returns (offScreen: bool)
      requires column + bytesHigh <= |table|
      modifies this`log
      ensures MikroBands(old(log), table, column, bytesHigh, x, y, 0, height, lcdWidth, lcdHeight) == Run(log, offScreen)
    {
      var j := 0;
      while j < bytesHigh
        invariant 0 <= j <= bytesHigh
        invariant MikroBands(old(log), table, column, bytesHigh, x, y, 0, height, lcdWidth, lcdHeight)
          == MikroBands(log, table, column, bytesHigh, x, y, j, height, lcdWidth, lcdHeight)
      {
        var dat := table[column + j];
        ghost var bandStart := log;
        var bit := 0;
        while bit < 8
          invariant 0 <= bit <= 8
          invariant MikroBits(bandStart, dat, x, y, j, 0, height, lcdWidth, lcdHeight)
            == MikroBits(log, dat, x, y, j, bit, height, lcdWidth, lcdHeight)
        {
          if x >= lcdWidth || y + j * 8 + bit >= lcdHeight {
            assert MikroBands(bandStart, table, column, bytesHigh, x, y, j, height, lcdWidth, lcdHeight) == Run(log, true);
            return true;
          }
          if j * 8 + bit >= height {
            assert MikroBits(log, dat, x, y, j, bit, height, lcdWidth, lcdHeight)
              == MikroBits(log, dat, x, y, j, bit + 1, height, lcdWidth, lcdHeight);
            bit := bit + 1;
            continue;
          }
          assert MikroBits(log, dat, x, y, j, bit, height, lcdWidth, lcdHeight)
            == MikroBits(log + [Pixel(x, y + j * 8 + bit, ColourOf(dat, bit))], dat, x, y, j, bit + 1, height, lcdWidth, lcdHeight);
          // glcd_set_pixel
          if BitSet(dat, bit) {
            log := log + [Pixel(x, y + j * 8 + bit, Black)];
          } else {
            log := log + [Pixel(x, y + j * 8 + bit, White)];
          }
          bit := bit + 1;
        }
        assert MikroBands(bandStart, table, column, bytesHigh, x, y, j, height, lcdWidth, lcdHeight)
          == MikroBands(log, table, column, bytesHigh, x, y, j + 1, height, lcdWidth, lcdHeight);
        j := j + 1;
      }
      return false;
    }
  }

  /** Column i < vw of a record of vw columns of bh bytes lies inside it. */
  lemma ColumnInRecord(i: nat, vw: nat, bh: nat)
    requires i < vw
    ensures 0 <= i * bh && i * bh + bh <= vw * bh
  {
    assert i * bh + bh == (i + 1) * bh;
  }
}

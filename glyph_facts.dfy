/** What glcd_draw_char_xy draws, stated without its loops.

    Both table layouts walk a glyph column by column and, inside a column,
    row by row from the top; the walk checks every row position against the
    display and gives up at the first one off screen, and it writes a pixel
    for each row above the font height. ColumnWalk and GlyphWalk are that
    walk with the layout's geometry as parameters; the STANG and MIKRO walks
    of GlyphSpec are shown to be instances of it. Image is the picture a
    complete walk writes, in writing order, and the theorems at the end say
    that a call writes the whole Image when the glyph's checked area fits on
    the display and otherwise a prefix of it whose length is given in closed
    form, returning 0. */
module GlyphFacts {
  import opened FontTable
  import opened GlyphSpec

  function Min(a: int, b: int): int { if a <= b then a else b }
  function Max(a: int, b: int): int { if a >= b then a else b }

  // ------------------------------------------------------- the generic walk

  /** The band (byte of the column) that row r lies in: r / 8. */
  function Band(r: nat): nat
  {
    if r < 8 then 0 else Band(r - 8) + 1
  }

  /** The bit of its band that row r is: r % 8. */
  function Bit(r: nat): nat
  {
    if r < 8 then r else Bit(r - 8)
  }

  lemma {:induction false} BandBitIsDivMod(r: nat)
    ensures Band(r) == r / 8 && Bit(r) == r % 8
  {
    if r >= 8 {
      BandBitIsDivMod(r - 8);
      DivModUnique(Band(r - 8) + 1, 8, Bit(r - 8));
    } else {
      DivModUnique(0, 8, r);
    }
  }

  /** Bit b of band j is row 8 * j + b. */
  lemma {:induction false} BandBitOf(j: nat, b: nat)
    requires b < 8
    ensures Band(j * 8 + b) == j && Bit(j * 8 + b) == b
  {
    if j > 0 {
      BandBitOf(j - 1, b);
      assert j * 8 + b - 8 == (j - 1) * 8 + b;
    }
  }

  /** Row r of a column whose bytes start at table[base]: bit Bit(r) of
      byte Band(r). */
  function RowPixel(table: seq<Byte>, base: int, x: int, y: int, r: nat): Pixel
  {
    Pixel(x, y + r, ColourOf(TableByte(table, base + Band(r)), Bit(r)))
  }

  /** Rows r..rows-1 of one column: every row is checked against the display,
      rows from `height` on are written nowhere. */
  function ColumnWalk(s: seq<Pixel>, table: seq<Byte>, base: int, x: int, y: int, r: nat, rows: nat, height: nat, w: nat, h: nat): Run
    decreases rows - r
  {
    if r >= rows then Run(s, false)
    else if x >= w || y + r >= h then Run(s, true)
    else if r >= height then ColumnWalk(s, table, base, x, y, r + 1, rows, height, w, h)
    else ColumnWalk(s + [RowPixel(table, base, x, y, r)], table, base, x, y, r + 1, rows, height, w, h)
  }

  /** The last n columns of a glyph: the next one is at display column x
      with its bytes from table[base], each further one a column to the
      right and stride bytes on. */
  function GlyphWalk(s: seq<Pixel>, table: seq<Byte>, base: int, stride: nat, n: nat, rows: nat, height: nat, x: int, y: int, w: nat, h: nat): Run
    decreases n
  {
    if n == 0 then Run(s, false)
    else
      var col := ColumnWalk(s, table, base, x, y, 0, rows, height, w, h);
      if col.aborted then col
      else GlyphWalk(col.log, table, base + stride, stride, n - 1, rows, height, x + 1, y, w, h)
  }

  // ---------------------------------------------------------- the picture

  /** The pixels of one complete column, top to bottom. */
  function ColumnImage(table: seq<Byte>, base: int, x: int, y: int, height: nat): (img: seq<Pixel>)
    ensures |img| == height
    ensures forall r :: 0 <= r < height ==> img[r] == RowPixel(table, base, x, y, r)
  {
    seq(height, r requires 0 <= r < height => RowPixel(table, base, x, y, r))
  }

  /** The pixels of n complete columns laid out as GlyphWalk visits them,
      column after column. */
  function Image(table: seq<Byte>, base: int, stride: nat, n: nat, height: nat, x: int, y: int): seq<Pixel>
    decreases n
  {
    if n == 0 then []
    else ColumnImage(table, base, x, y, height) + Image(table, base + stride, stride, n - 1, height, x + 1, y)
  }

  lemma {:induction false} ImageLength(table: seq<Byte>, base: int, stride: nat, n: nat, height: nat, x: int, y: int)
    ensures |Image(table, base, stride, n, height, x, y)| == n * height
    decreases n
  {
    if n > 0 {
      ImageLength(table, base + stride, stride, n - 1, height, x + 1, y);
      assert n * height == (n - 1) * height + height;
    }
  }

  /** Row r of column q of the picture, without reference to how the
      picture is assembled: the pixel at (x + q, y + r) coloured by bit
      Bit(r) of byte Band(r) of that column's bytes. */
  lemma {:induction false} ImageAt(table: seq<Byte>, base: int, stride: nat, n: nat, height: nat, x: int, y: int, q: nat, r: nat)
    requires q < n && r < height
    ensures 0 <= q * height + r < |Image(table, base, stride, n, height, x, y)|
    ensures Image(table, base, stride, n, height, x, y)[q * height + r]
      == RowPixel(table, base + q * stride, x + q, y, r)
    decreases n
  {
    if q == 0 {
      var img := ColumnImage(table, base, x, y, height);
      var rest := Image(table, base + stride, stride, n - 1, height, x + 1, y);
      assert Image(table, base, stride, n, height, x, y) == img + rest;
      assert (img + rest)[r] == img[r];
    } else {
      ImageAt(table, base + stride, stride, n - 1, height, x + 1, y, q - 1, r);
      ImageAtStep(table, base, stride, n, height, x, y, q, r);
    }
  }

  /** The inductive step of ImageAt: entry (q, r) of the picture is entry
      (q - 1, r) of the columns after the first. */
  lemma ImageAtStep(table: seq<Byte>, base: int, stride: nat, n: nat, height: nat, x: int, y: int, q: nat, r: nat)
    requires 0 < q < n && r < height
    requires 0 <= (q - 1) * height + r < |Image(table, base + stride, stride, n - 1, height, x + 1, y)|
    requires Image(table, base + stride, stride, n - 1, height, x + 1, y)[(q - 1) * height + r]
      == RowPixel(table, base + stride + (q - 1) * stride, x + 1 + (q - 1), y, r)
    ensures 0 <= q * height + r < |Image(table, base, stride, n, height, x, y)|
    ensures Image(table, base, stride, n, height, x, y)[q * height + r]
      == RowPixel(table, base + q * stride, x + q, y, r)
  {
    var img := ColumnImage(table, base, x, y, height);
    var rest := Image(table, base + stride, stride, n - 1, height, x + 1, y);
    assert Image(table, base, stride, n, height, x, y) == img + rest;
    ImageIndex(q, n, height, r, base, stride);
    var m := (q - 1) * height + r;
    assert (img + rest)[height + m] == rest[m];
  }

  /** The index arithmetic of ImageAt: entry (q, r) is inside the picture,
      and for q > 0 it is entry (q - 1, r) of the columns after the first. */
  lemma ImageIndex(q: nat, n: nat, height: nat, r: nat, base: int, stride: nat)
    requires q < n && r < height
    ensures 0 <= q * height + r < n * height
    ensures q > 0 ==> q * height + r == height + ((q - 1) * height + r)
    ensures q > 0 ==> base + stride + (q - 1) * stride == base + q * stride
  {
    assert q * height + r < q * height + height == (q + 1) * height;
    assert (q + 1) * height <= n * height;
  }

  // ------------------------------------------------------- column results

  /** A column whose checked rows are all on screen writes the rest of its
      picture. */
  lemma {:induction false} ColumnFits(s: seq<Pixel>, table: seq<Byte>, base: int, x: int, y: int, r: nat, rows: nat, height: nat, w: nat, h: nat)
    requires r <= rows && height <= rows && x < w && y + rows <= h
    ensures ColumnWalk(s, table, base, x, y, r, rows, height, w, h)
      == Run(s + ColumnImage(table, base, x, y, height)[Min(r, height)..], false)
    decreases rows - r
  {
    var img := ColumnImage(table, base, x, y, height);
    if r == rows {
      assert img[Min(r, height)..] == [];
      assert s + [] == s;
    } else if r >= height {
      assert ColumnWalk(s, table, base, x, y, r, rows, height, w, h)
        == ColumnWalk(s, table, base, x, y, r + 1, rows, height, w, h);
      assert Min(r, height) == Min(r + 1, height);
      ColumnFits(s, table, base, x, y, r + 1, rows, height, w, h);
    } else {
      assert ColumnWalk(s, table, base, x, y, r, rows, height, w, h)
        == ColumnWalk(s + [img[r]], table, base, x, y, r + 1, rows, height, w, h);
      assert Min(r, height) == r && Min(r + 1, height) == r + 1;
      ColumnFits(s + [img[r]], table, base, x, y, r + 1, rows, height, w, h);
      assert s + [img[r]] + img[r + 1..] == s + img[r..];
    }
  }

  /** The row index in the column picture at which a walk from row r stops
      when the column does not fit. */
  function ColumnStop(x: int, y: int, r: nat, height: nat, w: nat, h: nat): int
  {
    if x >= w then Min(r, height) else Max(Min(r, height), Min(height, h - y))
  }

  /** A column with a checked row off screen gives up, having written the
      rows of its picture above the display's bottom edge (none when its x is
      off screen). */
  lemma {:induction false} ColumnOff(s: seq<Pixel>, table: seq<Byte>, base: int, x: int, y: int, r: nat, rows: nat, height: nat, w: nat, h: nat)
    requires r < rows && height <= rows && !(x < w && y + rows <= h)
    ensures Min(r, height) <= ColumnStop(x, y, r, height, w, h) <= height
    ensures ColumnWalk(s, table, base, x, y, r, rows, height, w, h)
      == Run(s + ColumnImage(table, base, x, y, height)[Min(r, height)..ColumnStop(x, y, r, height, w, h)], true)
    decreases rows - r
  {
    var img := ColumnImage(table, base, x, y, height);
    if x >= w || y + r >= h {
      assert img[Min(r, height)..ColumnStop(x, y, r, height, w, h)] == [];
    } else if r >= height {
      ColumnOff(s, table, base, x, y, r + 1, rows, height, w, h);
    } else {
      ColumnOff(s + [img[r]], table, base, x, y, r + 1, rows, height, w, h);
      var stop := ColumnStop(x, y, r, height, w, h);
      assert stop == ColumnStop(x, y, r + 1, height, w, h);
      assert img[r..stop] == [img[r]] + img[r + 1..stop];
    }
  }

  // -------------------------------------------------------- glyph results

  /** The checked area (n columns of rows rows at (x, y)) lies on the
      display. */
  predicate Fits(n: nat, rows: nat, x: int, y: int, w: nat, h: nat)
  {
    x + n <= w && y + rows <= h
  }

  /** A glyph that fits writes its whole picture. */
  lemma {:induction false} GlyphFits(s: seq<Pixel>, table: seq<Byte>, base: int, stride: nat, n: nat, rows: nat, height: nat, x: int, y: int, w: nat, h: nat)
    requires height <= rows && Fits(n, rows, x, y, w, h)
    ensures GlyphWalk(s, table, base, stride, n, rows, height, x, y, w, h)
      == Run(s + Image(table, base, stride, n, height, x, y), false)
    decreases n
  {
    if n > 0 {
      var img := ColumnImage(table, base, x, y, height);
      ColumnFits(s, table, base, x, y, 0, rows, height, w, h);
      assert img[Min(0, height)..] == img;
      GlyphFits(s + img, table, base + stride, stride, n - 1, rows, height, x + 1, y, w, h);
      assert s + img + Image(table, base + stride, stride, n - 1, height, x + 1, y)
        == s + Image(table, base, stride, n, height, x, y);
    }
  }

  /** How many pixels of its picture a glyph that does not fit writes when
      its next column is at display column x: none if that column is off the
      right edge; the rows above the bottom edge if the rows do not fit;
      otherwise the whole columns up to the right edge. */
  function GlyphStop(x: int, y: int, rows: nat, height: nat, w: nat, h: nat): nat
  {
    if x >= w then 0
    else if y + rows > h then Max(0, Min(height, h - y))
    else (w - x) * height
  }

  /** A column that fits, with more columns still to come, contributes its
      whole height to the count. */
  lemma GlyphStopStep(x: int, y: int, rows: nat, height: nat, w: nat, h: nat)
    requires x < w && y + rows <= h
    ensures GlyphStop(x, y, rows, height, w, h) == height + GlyphStop(x + 1, y, rows, height, w, h)
  {
    var d: nat := w - x;
    assert d * height == (d - 1) * height + height;
  }

  /** A glyph whose next column does not fit gives up inside that column. */
  lemma GlyphOffHere(s: seq<Pixel>, table: seq<Byte>, base: int, stride: nat, n: nat, rows: nat, height: nat, x: int, y: int, w: nat, h: nat)
    requires 0 < n && 0 < rows && height <= rows && !(x < w && y + rows <= h)
    ensures 0 <= GlyphStop(x, y, rows, height, w, h) <= |Image(table, base, stride, n, height, x, y)|
    ensures GlyphWalk(s, table, base, stride, n, rows, height, x, y, w, h)
      == Run(s + Image(table, base, stride, n, height, x, y)[..GlyphStop(x, y, rows, height, w, h)], true)
  {
    var img := ColumnImage(table, base, x, y, height);
    var rest := Image(table, base + stride, stride, n - 1, height, x + 1, y);
    assert Image(table, base, stride, n, height, x, y) == img + rest;
    var stop := GlyphStop(x, y, rows, height, w, h);
    ColumnOff(s, table, base, x, y, 0, rows, height, w, h);
    assert stop == ColumnStop(x, y, 0, height, w, h);
    assert (img + rest)[..stop] == img[Min(0, height)..stop];
  }

  /** A glyph that does not fit gives up, having written a prefix of its
      picture. */
  lemma {:induction false} GlyphOff(s: seq<Pixel>, table: seq<Byte>, base: int, stride: nat, n: nat, rows: nat, height: nat, x: int, y: int, w: nat, h: nat)
    requires 0 < n && 0 < rows && height <= rows && !Fits(n, rows, x, y, w, h)
    ensures 0 <= GlyphStop(x, y, rows, height, w, h) <= |Image(table, base, stride, n, height, x, y)|
    ensures GlyphWalk(s, table, base, stride, n, rows, height, x, y, w, h)
      == Run(s + Image(table, base, stride, n, height, x, y)[..GlyphStop(x, y, rows, height, w, h)], true)
    decreases n
  {
    if !(x < w && y + rows <= h) {
      GlyphOffHere(s, table, base, stride, n, rows, height, x, y, w, h);
    } else {
      var img := ColumnImage(table, base, x, y, height);
      var rest := Image(table, base + stride, stride, n - 1, height, x + 1, y);
      assert Image(table, base, stride, n, height, x, y) == img + rest;
      ImageLength(table, base + stride, stride, n - 1, height, x + 1, y);
      ColumnFits(s, table, base, x, y, 0, rows, height, w, h);
      assert img[Min(0, height)..] == img;
      assert GlyphWalk(s, table, base, stride, n, rows, height, x, y, w, h)
        == GlyphWalk(s + img, table, base + stride, stride, n - 1, rows, height, x + 1, y, w, h);
      GlyphOff(s + img, table, base + stride, stride, n - 1, rows, height, x + 1, y, w, h);
      var stop := GlyphStop(x, y, rows, height, w, h);
      var stop' := GlyphStop(x + 1, y, rows, height, w, h);
      GlyphStopStep(x, y, rows, height, w, h);
      assert (img + rest)[..stop] == img + rest[..stop'];
    }
  }

  // ----------------------------------------------- the layouts as instances

  lemma {:induction false} StangRowsIsWalk(s: seq<Pixel>, table: seq<Byte>, k: int, x: int, y: int, j: nat, w: nat, h: nat)
    requires j <= 8
    ensures StangRows(s, TableByte(table, k), x, y, j, w, h) == ColumnWalk(s, table, k, x, y, j, 8, 8, w, h)
    decreases 8 - j
  {
    if j < 8 {
      assert RowPixel(table, k, x, y, j) == Pixel(x, y + j, ColourOf(TableByte(table, k), j));
      StangRowsIsWalk(s + [RowPixel(table, k, x, y, j)], table, k, x, y, j + 1, w, h);
    }
  }

  /** A STANG glyph is the walk with one byte per column and 8 rows. */
  lemma {:induction false} StangColsIsWalk(s: seq<Pixel>, table: seq<Byte>, off: int, width: nat, x: int, y: int, i: nat, w: nat, h: nat)
    requires i <= width
    ensures StangCols(s, table, off, width, x, y, i, w, h) == GlyphWalk(s, table, off + i, 1, width - i, 8, 8, x + i, y, w, h)
    decreases width - i
  {
    if i < width {
      StangRowsIsWalk(s, table, off + i, x + i, y, 0, w, h);
      var col := StangRows(s, TableByte(table, off + i), x + i, y, 0, w, h);
      if !col.aborted {
        StangColsIsWalk(col.log, table, off, width, x, y, i + 1, w, h);
      }
    }
  }

  /** The bits of band j followed by the rows after the band are the walk
      from row 8j + bit. */
  lemma {:induction false} MikroBitsThenWalk(s: seq<Pixel>, table: seq<Byte>, base: int, x: int, y: int, j: nat, bit: nat, rows: nat, height: nat, w: nat, h: nat)
    requires bit <= 8 && j * 8 + 8 <= rows
    ensures var band := MikroBits(s, TableByte(table, base + j), x, y, j, bit, height, w, h);
      (if band.aborted then band else ColumnWalk(band.log, table, base, x, y, j * 8 + 8, rows, height, w, h))
        == ColumnWalk(s, table, base, x, y, j * 8 + bit, rows, height, w, h)
    decreases 8 - bit
  {
    if bit < 8 {
      var r := j * 8 + bit;
      assert RowPixel(table, base, x, y, r) == Pixel(x, y + r, ColourOf(TableByte(table, base + j), bit)) by {
        BandBitOf(j, bit);
      }
      if r < height {
        MikroBitsThenWalk(s + [RowPixel(table, base, x, y, r)], table, base, x, y, j, bit + 1, rows, height, w, h);
      } else {
        MikroBitsThenWalk(s, table, base, x, y, j, bit + 1, rows, height, w, h);
      }
    }
  }

  lemma {:induction false} MikroBandsIsWalk(s: seq<Pixel>, table: seq<Byte>, base: int, bh: nat, x: int, y: int, j: nat, height: nat, w: nat, h: nat)
    requires j <= bh
    ensures MikroBands(s, table, base, bh, x, y, j, height, w, h) == ColumnWalk(s, table, base, x, y, j * 8, bh * 8, height, w, h)
    decreases bh - j
  {
    if j < bh {
      MikroBitsThenWalk(s, table, base, x, y, j, 0, bh * 8, height, w, h);
      var band := MikroBits(s, TableByte(table, base + j), x, y, j, 0, height, w, h);
      if !band.aborted {
        MikroBandsIsWalk(band.log, table, base, bh, x, y, j + 1, height, w, h);
      }
    }
  }

  /** A MIKRO glyph is the walk with bh bytes per column and 8 * bh rows. */
  lemma {:induction false} MikroColsIsWalk(s: seq<Pixel>, table: seq<Byte>, start: int, vw: nat, bh: nat, x: int, y: int, i: nat, height: nat, w: nat, h: nat)
    requires i <= vw
    ensures MikroCols(s, table, start, vw, bh, x, y, i, height, w, h) == GlyphWalk(s, table, start + i * bh, bh, vw - i, bh * 8, height, x + i, y, w, h)
    decreases vw - i
  {
    if i < vw {
      var base, next := start + i * bh, start + (i + 1) * bh;
      assert next == base + bh;
      MikroBandsIsWalk(s, table, base, bh, x + i, y, 0, height, w, h);
      var col := MikroBands(s, table, base, bh, x + i, y, 0, height, w, h);
      assert MikroCols(s, table, start, vw, bh, x, y, i, height, w, h)
        == if col.aborted then col
           else MikroCols(col.log, table, start, vw, bh, x, y, i + 1, height, w, h);
      assert GlyphWalk(s, table, base, bh, vw - i, bh * 8, height, x + i, y, w, h)
        == if col.aborted then col
           else GlyphWalk(col.log, table, next, bh, vw - (i + 1), bh * 8, height, x + (i + 1), y, w, h);
      if !col.aborted {
        MikroColsIsWalk(col.log, table, start, vw, bh, x, y, i + 1, height, w, h);
      }
    }
  }

  // ----------------------------------------------------- glcd_draw_char_xy

  /** Where a drawable layout keeps the columns of a glyph and how many rows
      it checks and draws. */
  datatype Geometry = Geometry(base: int, stride: nat, cols: Byte, rows: nat, height: nat)

  /** STANG: `width` columns of one byte, 8 rows checked and drawn. MIKRO:
      var_width columns of bytes_high bytes after the width byte, 8 *
      bytes_high rows checked of which `height` are drawn. The other layouts
      draw nothing. */
  function GeometryOf(f: FontConfig, c: Char): (g: Option<Geometry>)
    requires Readable(f, c)
    ensures g.Some? <==> f.tableType.Stang? || f.tableType.Mikro?
    ensures g.Some? ==> 0 < g.value.rows && g.value.height <= g.value.rows
    ensures g.Some? && f.tableType.Mikro? ==> g.value.height < g.value.rows
  {
    var e := EffectiveChar(f, c);
    match f.tableType
    case Stang => Some(Geometry(StangOffset(f, e), 1, f.width, 8, 8))
    case Mikro =>
      var off := MikroOffset(f, e);
      Some(Geometry(off + 1, BytesHigh(f), f.table[off], BytesHigh(f) * 8, f.height))
    case _ => None
  }

  /** The picture of glyph c at (x, y). */
  function GlyphImage(g: Geometry, table: seq<Byte>, x: int, y: int): seq<Pixel>
  {
    Image(table, g.base, g.stride, g.cols, g.height, x, y)
  }

  /** glcd_draw_char_xy in closed form: a glyph whose checked area fits (or
      that has no columns) is drawn whole and its width returned; any other
      is cut at the first checked position off the display, after
      GlyphStop of its pixels, and 0 is returned. */
  function Drawn(f: FontConfig, w: nat, h: nat, s: seq<Pixel>, x: Byte, y: Byte, c: Char): Outcome
    requires Readable(f, c)
  {
    match GeometryOf(f, c)
    case None => Outcome(s, 0)
    case Some(g) =>
      var img := GlyphImage(g, f.table, x, y);
      if g.cols == 0 || Fits(g.cols, g.rows, x, y, w, h) then Outcome(s + img, g.cols)
      else Outcome(s + img[..Min(GlyphStop(x, y, g.rows, g.height, w, h), |img|)], 0)
  }

  /** The walks of GlyphSpec and the closed form agree on every input. */
  lemma GlyphIsDrawn(f: FontConfig, w: nat, h: nat, s: seq<Pixel>, x: Byte, y: Byte, c: Char)
    requires Readable(f, c)
    ensures Glyph(f, w, h, s, x, y, c) == Drawn(f, w, h, s, x, y, c)
  {
    var e := EffectiveChar(f, c);
    match GeometryOf(f, c)
    case None =>
    case Some(g) =>
      if f.tableType.Stang? {
        StangColsIsWalk(s, f.table, StangOffset(f, e), f.width, x, y, 0, w, h);
      } else {
        var off := MikroOffset(f, e);
        MikroColsIsWalk(s, f.table, off + 1, f.table[off], BytesHigh(f), x, y, 0, f.height, w, h);
      }
      if g.cols == 0 {
        assert GlyphImage(g, f.table, x, y) == [];
      } else if Fits(g.cols, g.rows, x, y, w, h) {
        GlyphFits(s, f.table, g.base, g.stride, g.cols, g.rows, g.height, x, y, w, h);
      } else {
        GlyphOff(s, f.table, g.base, g.stride, g.cols, g.rows, g.height, x, y, w, h);
      }
  }

  /** A call only appends to the display log, and what it appends and
      returns does not depend on what was drawn before. */
  lemma GlyphAppends(f: FontConfig, w: nat, h: nat, s: seq<Pixel>, x: Byte, y: Byte, c: Char)
    requires Readable(f, c)
    ensures Glyph(f, w, h, s, x, y, c).log == s + Glyph(f, w, h, [], x, y, c).log
    ensures Glyph(f, w, h, s, x, y, c).width == Glyph(f, w, h, [], x, y, c).width
  {
    GlyphIsDrawn(f, w, h, s, x, y, c);
    GlyphIsDrawn(f, w, h, [], x, y, c);
    match GeometryOf(f, c)
    case None =>
    case Some(g) =>
      var img := GlyphImage(g, f.table, x, y);
      var cut := img[..Min(GlyphStop(x, y, g.rows, g.height, w, h), |img|)];
      assert [] + img == img && [] + cut == cut;
  }

  /** The returned width is non-zero exactly when a drawable glyph with
      columns was drawn whole, on screen. */
  lemma GlyphWidthReturned(f: FontConfig, w: nat, h: nat, s: seq<Pixel>, x: Byte, y: Byte, c: Char)
    requires Readable(f, c)
    ensures Glyph(f, w, h, s, x, y, c).width != 0 <==>
      GeometryOf(f, c).Some? && GeometryOf(f, c).value.cols != 0
      && Fits(GeometryOf(f, c).value.cols, GeometryOf(f, c).value.rows, x, y, w, h)
  {
    GlyphIsDrawn(f, w, h, s, x, y, c);
  }

  /** STANG: pixel j of column i of the picture is (x + i, y + j), black
      exactly when bit j of byte i of the glyph's record is set. */
  lemma StangPixel(f: FontConfig, c: Char, x: Byte, y: Byte, i: nat, j: nat)
    requires Readable(f, c) && f.tableType.Stang? && i < f.width && j < 8
    ensures var g := GeometryOf(f, c).value;
      var off := StangOffset(f, EffectiveChar(f, c));
      var img := GlyphImage(g, f.table, x, y);
      i * 8 + j < |img| && 0 <= off + i < |f.table|
      && img[i * 8 + j] == Pixel(x + i, y + j, ColourOf(f.table[off + i], j))
  {
    var g := GeometryOf(f, c).value;
    ImageAt(f.table, g.base, g.stride, g.cols, g.height, x, y, i, j);
  }

  /** MIKRO: row `row` of column i of the picture is (x + i, y + row),
      coloured by bit row % 8 of byte 1 + i * bytes_high + row / 8 of the
      glyph's record (band row / 8 of column i). */
  lemma MikroPixel(f: FontConfig, c: Char, x: Byte, y: Byte, i: nat, row: nat)
    requires Readable(f, c) && f.tableType.Mikro?
    requires i < f.table[MikroOffset(f, EffectiveChar(f, c))] && row < f.height
    ensures var g := GeometryOf(f, c).value;
      var off := MikroOffset(f, EffectiveChar(f, c));
      var img := GlyphImage(g, f.table, x, y);
      var k := off + 1 + i * BytesHigh(f) + row / 8;
      0 <= i * f.height + row < |img| && 0 <= k < |f.table|
      && img[i * f.height + row] == Pixel(x + i, y + row, ColourOf(f.table[k], row % 8))
  {
    var g := GeometryOf(f, c).value;
    var off := MikroOffset(f, EffectiveChar(f, c));
    ImageAt(f.table, g.base, g.stride, g.cols, g.height, x, y, i, row);
    BandBitIsDivMod(row);
    ByteInRecord(i, f.table[off], BytesHigh(f), row / 8);
  }

  /** Band b < bh of column i < vw lies among the vw * bh column bytes. */
  lemma ByteInRecord(i: nat, vw: nat, bh: nat, b: nat)
    requires i < vw && b < bh
    ensures i * bh + b < vw * bh
  {
    assert i * bh + bh == (i + 1) * bh;
    assert (i + 1) * bh <= vw * bh;
  }

  /** A character the font does not cover is drawn exactly as '.'. */
  lemma FallbackIsDot(f: FontConfig, w: nat, h: nat, s: seq<Pixel>, x: Byte, y: Byte, c: Char)
    requires Readable(f, c) && (c < f.startChar || c > f.endChar)
    ensures Readable(f, Dot)
    ensures Glyph(f, w, h, s, x, y, c) == Glyph(f, w, h, s, x, y, Dot)
  {
  }

  // ------------------------------------------------- nothing off the display

  /** log is s followed by pixels that all lie on a w by h display. */
  predicate AppendsOnScreen(s: seq<Pixel>, log: seq<Pixel>, w: nat, h: nat)
  {
    |s| <= |log| && log[..|s|] == s
    && forall k :: |s| <= k < |log| ==> 0 <= log[k].x < w && 0 <= log[k].y < h
  }

  lemma AppendsOnScreenTrans(a: seq<Pixel>, b: seq<Pixel>, c: seq<Pixel>, w: nat, h: nat)
    requires AppendsOnScreen(a, b, w, h) && AppendsOnScreen(b, c, w, h)
    ensures AppendsOnScreen(a, c, w, h)
  {
    assert c[..|a|] == c[..|b|][..|a|];
    forall k | |a| <= k < |c|
      ensures 0 <= c[k].x < w && 0 <= c[k].y < h
    {
      if k < |b| {
        assert c[k] == c[..|b|][k];
      }
    }
  }

  /** A column walk writes only pixels on the display: it checks each row
      position before it writes there. */
  lemma {:induction false} ColumnOnScreen(s: seq<Pixel>, table: seq<Byte>, base: int, x: int, y: int, r: nat, rows: nat, height: nat, w: nat, h: nat)
    requires 0 <= x && 0 <= y
    ensures AppendsOnScreen(s, ColumnWalk(s, table, base, x, y, r, rows, height, w, h).log, w, h)
    decreases rows - r
  {
    if r >= rows || x >= w || y + r >= h {
      assert s[..|s|] == s;
    } else if r >= height {
      ColumnOnScreen(s, table, base, x, y, r + 1, rows, height, w, h);
    } else {
      var s' := s + [RowPixel(table, base, x, y, r)];
      assert s'[..|s|] == s;
      ColumnOnScreen(s', table, base, x, y, r + 1, rows, height, w, h);
      AppendsOnScreenTrans(s, s', ColumnWalk(s', table, base, x, y, r + 1, rows, height, w, h).log, w, h);
    }
  }

  lemma {:induction false} GlyphWalkOnScreen(s: seq<Pixel>, table: seq<Byte>, base: int, stride: nat, n: nat, rows: nat, height: nat, x: int, y: int, w: nat, h: nat)
    requires 0 <= x && 0 <= y
    ensures AppendsOnScreen(s, GlyphWalk(s, table, base, stride, n, rows, height, x, y, w, h).log, w, h)
    decreases n
  {
    if n == 0 {
      assert s[..|s|] == s;
    } else {
      var col := ColumnWalk(s, table, base, x, y, 0, rows, height, w, h);
      ColumnOnScreen(s, table, base, x, y, 0, rows, height, w, h);
      if !col.aborted {
        GlyphWalkOnScreen(col.log, table, base + stride, stride, n - 1, rows, height, x + 1, y, w, h);
        AppendsOnScreenTrans(s, col.log, GlyphWalk(col.log, table, base + stride, stride, n - 1, rows, height, x + 1, y, w, h).log, w, h);
      }
    }
  }

  /** glcd_draw_char_xy never writes past the dimensions of the display: the
      log after the call is the log before it followed only by pixels on
      the display. */
  lemma GlyphOnScreen(f: FontConfig, w: nat, h: nat, s: seq<Pixel>, x: Byte, y: Byte, c: Char)
    requires Readable(f, c)
    ensures AppendsOnScreen(s, Glyph(f, w, h, s, x, y, c).log, w, h)
  {
    var e := EffectiveChar(f, c);
    match f.tableType
    case Stang =>
      StangColsIsWalk(s, f.table, StangOffset(f, e), f.width, x, y, 0, w, h);
      GlyphWalkOnScreen(s, f.table, StangOffset(f, e), 1, f.width, 8, 8, x, y, w, h);
    case Mikro =>
      var off := MikroOffset(f, e);
      MikroColsIsWalk(s, f.table, off + 1, f.table[off], BytesHigh(f), x, y, 0, f.height, w, h);
      GlyphWalkOnScreen(s, f.table, off + 1, BytesHigh(f), f.table[off], BytesHigh(f) * 8, f.height, x, y, w, h);
    case _ =>
      assert s[..|s|] == s;
  }
}

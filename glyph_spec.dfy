/** What glcd_draw_char_xy does, as functions of the display log before the
    call: each layout is described loop level by loop level, the way the
    decoder walks its table, and returns the log after the walk together with
    whether the walk stopped at the display edge.

    A walk visits positions in loop order. At each position it first checks
    the position against the display and, if it is off screen, gives up on
    the whole glyph; otherwise it writes the pixel (a MIKRO padding row is
    skipped instead). Reference images in GlyphFacts say, independently of
    the loop structure, which pixels a complete walk writes. */
module GlyphSpec {
  import opened FontTable

  /** The log after a walk, and whether it stopped at the display edge. */
  datatype Run = Run(log: seq<Pixel>, aborted: bool)

  /** The log after glcd_draw_char_xy, and the value it returns. */
  datatype Outcome = Outcome(log: seq<Pixel>, width: Byte)

  /** The character actually drawn: one outside [startChar, endChar] falls
      back to '.'. */
  function EffectiveChar(f: FontConfig, c: Char): (e: Char)
    ensures f.startChar <= c <= f.endChar ==> e == c
    ensures e == c || e == Dot
    ensures f.startChar <= e <= f.endChar || e == Dot
  {
    if c < f.startChar || c > f.endChar then Dot else c
  }

  /** Byte k of the font table. Reads outside the table do not happen under
      the preconditions the drawing operations carry (see Readable); the
      value 0 there only makes the walk functions total. */
  function TableByte(table: seq<Byte>, k: int): Byte
  {
    if 0 <= k < |table| then table[k] else 0
  }

  // ---------------------------------------------------------------- STANG

  /** Offset of the glyph in a STANG table: fixed records of `width` bytes.
      The layout functions take the character already passed through
      EffectiveChar, as glcd_draw_char_xy substitutes '.' before it
      dispatches. */
  function StangOffset(f: FontConfig, c: Char): int
  {
    (c - f.startChar) * f.width
  }

  predicate StangReadable(f: FontConfig, c: Char)
  {
    0 <= StangOffset(f, c) && StangOffset(f, c) + f.width <= |f.table|
  }

  /** Rows j..7 of one STANG column at display column x, coloured by the
      bits of dat, least significant bit at the top. */
  function StangRows(s: seq<Pixel>, dat: Byte, x: int, y: int, j: nat, w: nat, h: nat): Run
    decreases 8 - j
  {
    if j >= 8 then Run(s, false)
    else if x >= w || y + j >= h then Run(s, true)
    else StangRows(s + [Pixel(x, y + j, ColourOf(dat, j))], dat, x, y, j + 1, w, h)
  }

  /** Columns i..width-1 of a STANG glyph whose bytes start at table[off]. */
  function StangCols(s: seq<Pixel>, table: seq<Byte>, off: int, width: nat, x: int, y: int, i: nat, w: nat, h: nat): Run
    decreases width - i
  {
    if i >= width then Run(s, false)
    else
      var col := StangRows(s, TableByte(table, off + i), x + i, y, 0, w, h);
      if col.aborted then col
      else StangCols(col.log, table, off, width, x, y, i + 1, w, h)
  }

  // ---------------------------------------------------------------- MIKRO

  /** `height / 8 + 1`: one byte more than needed when height is a multiple
      of 8. */
  function BytesHigh(f: FontConfig): (bh: nat)
    ensures (bh - 1) * 8 <= f.height < bh * 8
  {
    f.height / 8 + 1
  }

  /** `width * bytes_high + 1` (the leading width byte), stored in a uint8_t. */
  function BytesPerChar(f: FontConfig): (r: Byte)
    ensures r <= f.width * BytesHigh(f) + 1
    ensures r == f.width * BytesHigh(f) + 1 <==> f.width * BytesHigh(f) + 1 < 256
  {
    (f.width * BytesHigh(f) + 1) % 256
  }

  /** Offset of the glyph's record in a MIKRO table. */
  function MikroOffset(f: FontConfig, c: Char): int
  {
    (c - f.startChar) * BytesPerChar(f)
  }

  /** Records follow one another from start_char on: the first character's
      at offset 0, each next one `width` bytes on in a STANG table and
      bytes_per_char bytes on in a MIKRO table. */
  lemma RecordLayout(f: FontConfig, c: Char)
    requires c < 127
    ensures StangOffset(f, f.startChar) == 0 && MikroOffset(f, f.startChar) == 0
    ensures StangOffset(f, c + 1) == StangOffset(f, c) + f.width
    ensures MikroOffset(f, c + 1) == MikroOffset(f, c) + BytesPerChar(f)
  {
  }

  /** The record's first byte, var_width, lies in the table, and so do the
      var_width columns of bytes_high bytes that follow it. */
  predicate MikroReadable(f: FontConfig, c: Char)
  {
    var off := MikroOffset(f, c);
    0 <= off < |f.table| && off + 1 + f.table[off] * BytesHigh(f) <= |f.table|
  }

  /** Bits bit..7 of band j (rows 8*j .. 8*j + 7) of one MIKRO column at
      display column x. Every row is checked against the display; rows at or
      below the font height are then skipped. */
  function MikroBits(s: seq<Pixel>, dat: Byte, x: int, y: int, j: nat, bit: nat, height: nat, w: nat, h: nat): Run
    decreases 8 - bit
  {
    if bit >= 8 then Run(s, false)
    else if x >= w || y + j * 8 + bit >= h then Run(s, true)
    else if j * 8 + bit >= height then MikroBits(s, dat, x, y, j, bit + 1, height, w, h)
    else MikroBits(s + [Pixel(x, y + j * 8 + bit, ColourOf(dat, bit))], dat, x, y, j, bit + 1, height, w, h)
  }

  /** Bands j..bh-1 of one MIKRO column whose bh bytes start at table[base]. */
  function MikroBands(s: seq<Pixel>, table: seq<Byte>, base: int, bh: nat, x: int, y: int, j: nat, height: nat, w: nat, h: nat): Run
    decreases bh - j
  {
    if j >= bh then Run(s, false)
    else
      var band := MikroBits(s, TableByte(table, base + j), x, y, j, 0, height, w, h);
      if band.aborted then band
      else MikroBands(band.log, table, base, bh, x, y, j + 1, height, w, h)
  }

  /** Columns i..vw-1 of a MIKRO glyph whose column data starts at
      table[start]; column i is bytes start + i*bh .. start + i*bh + bh - 1. */
  function MikroCols(s: seq<Pixel>, table: seq<Byte>, start: int, vw: nat, bh: nat, x: int, y: int, i: nat, height: nat, w: nat, h: nat): Run
    decreases vw - i
  {
    if i >= vw then Run(s, false)
    else
      var col := MikroBands(s, table, start + i * bh, bh, x + i, y, 0, height, w, h);
      if col.aborted then col
      else MikroCols(col.log, table, start, vw, bh, x, y, i + 1, height, w, h)
  }

  // -------------------------------------------------------------- dispatch

  /** What glcd_draw_char_xy needs to read the glyph without leaving the
      table: STANG reads `width` bytes, MIKRO its record; the other layouts
      read nothing. */
  predicate Readable(f: FontConfig, c: Char)
  {
    var e := EffectiveChar(f, c);
    match f.tableType
    case Stang => StangReadable(f, e)
    case Mikro => MikroReadable(f, e)
    case _ => true
  }

  /** The width a walk returns: the glyph's width, or 0 when it stopped at
      the display edge. */
  function Returned(run: Run, width: Byte): Byte
  {
    if run.aborted then 0 else width
  }

  /** glcd_draw_char_xy on a display w pixels wide and h pixels high, when
      the display log is s. */
  function Glyph(f: FontConfig, w: nat, h: nat, s: seq<Pixel>, x: Byte, y: Byte, c: Char): Outcome
    requires Readable(f, c)
  {
    var e := EffectiveChar(f, c);
    match f.tableType
    case Stang =>
      var run := StangCols(s, f.table, StangOffset(f, e), f.width, x, y, 0, w, h);
      Outcome(run.log, Returned(run, f.width))
    case Mikro =>
      var off := MikroOffset(f, e);
      var run := MikroCols(s, f.table, off + 1, f.table[off], BytesHigh(f), x, y, 0, f.height, w, h);
      Outcome(run.log, Returned(run, f.table[off]))
    case _ => Outcome(s, 0)
  }
}

# GLCD text renderer

A Dafny model of the text module of the glcd graphic-LCD driver (`text.c`).
The module keeps the current font and draws characters and strings with it.

- The current font is `font_current`. `glcd_set_font` replaces it whole and always selects the MIKRO layout.
- `glcd_draw_char_xy` decodes one glyph from a read-only byte table. It reads one of two layouts:
  - STANG: fixed-width columns of one byte each, 8 rows high;
  - MIKRO: a record that starts with a width byte, followed by `bytes_high` bytes per column.
- Each bit of the glyph becomes one `glcd_set_pixel` call, least significant bit at the top.
- The glyph is abandoned, and 0 is returned, at the first position that falls off the display. Pixels written before that stay written.
- The GLCD_UTILS layout and unknown layout tags draw nothing and return 0.
- `glcd_draw_string_xy` and `glcd_draw_string_xy_P` draw a NUL-terminated string one character at a time. After each character they move a `uint8_t` cursor on by the returned width plus one.

How the model is laid out:

- `FontTable` holds the values: `uint8_t` bytes, signed C `char`, the font configuration, colours and pixel writes, and the bit test `dat & (1 << k)`.
- `Text.Glcd` is a class that stands for the driver's global state.
  - Its fields are the current font and a log of every `glcd_set_pixel` call, in order. The framebuffer behind `glcd_set_pixel` is not modelled; the log is what the renderer hands to it.
  - Its methods carry the same loops as the C functions. Each method is proved equal to a specification function of the log before the call.
- `GlyphSpec` gives those specification functions for `glcd_draw_char_xy`. They follow the loops level by level.
- `GlyphFacts` proves, independently of the loop structure, what a call draws:
  - a glyph whose checked area fits on the display is drawn whole, as a picture (`Image`) whose every pixel is given in closed form;
  - any other glyph is drawn up to the first checked position off the display, and nothing is drawn after it.
  - whichever happens, every pixel a call writes lies on the display, and so does every pixel a string call writes.
- `StringSpec` specifies the string renderers in terms of `Glyph`, and proves how the log and the cursor evolve.

Two behaviours of the code are worth knowing:

- A MIKRO glyph checks all `8 * bytes_high` rows against the display, padding rows included, before it skips the ones at or below the font height. So on the lowest rows the string guard accepts, every MIKRO glyph returns 0, unless the height is 7 more than a multiple of 8. The cursor then moves on by one pixel per character (`MikroPaddingClipsText`, `BottomRowIsClipped`).
- The string guard rejects `y > GLCD_LCD_HEIGHT - height - 1`, so the lowest row it accepts is `GLCD_LCD_HEIGHT - height - 1`, one above the lowest row where a glyph `height` pixels high fits.

## Model

| member | source | states |
|---|---|---|
| Text.Glcd.constructor | text.c:40 | the driver starts with no font selected and nothing drawn, on a display of the given size |
| Text.Glcd.SetFont | text.c:43-55 | the current font becomes exactly the given table, width, height and character range, with the MIKRO layout, whatever it was before; nothing else changes |
| Text.Glcd.DrawCharXY | text.c:57-187 | the log after the call and the returned width are those of `GlyphSpec.Glyph` for the character; a character outside the font's range is handled as '.'; GLCD_UTILS and unknown layouts draw nothing and return 0 |
| Text.Glcd.DrawStang | text.c:63-91 | the STANG loops write, column by column, the pixels of `width` one-byte columns read from offset `(c - start_char) * width`, stopping at the first position off the display; the width is returned only when no position was off the display |
| Text.Glcd.DrawMikro | text.c:93-152 | the MIKRO record is found at `(c - start_char) * bytes_per_char`, with `bytes_per_char` truncated to 8 bits; its first byte is the number of columns drawn and is returned when no position was off the display, 0 otherwise |
| Text.Glcd.DrawMikroColumns | text.c:122-151 | the column loop draws `var_width` columns of `bytes_high` bytes each and reports whether it stopped at the display edge |
| Text.Glcd.DrawMikroColumn | text.c:123-150 | one column checks every row of every band against the display before it skips rows at or below the font height, and writes the rest, coloured by bit `bit` of band `j` |
| Text.Glcd.DrawStringXY | text.c:189-207 | the log after the call is `StringSpec.DrawString`: nothing when the row is too low for the font, otherwise the characters before the first NUL, each drawn at the cursor the previous one left |
| Text.Glcd.DrawStringXYP | text.c:209-235 | reading each character before testing it draws exactly what `glcd_draw_string_xy` draws on the same string |
| GlyphSpec.EffectiveChar | text.c:59-61 | the character drawn is the given one when it lies in `[start_char, end_char]`, and '.' otherwise; it is always in that range or '.' |
| GlyphSpec.StangOffset | text.c:72 | a STANG glyph starts `(c - start_char) * width` bytes into the table |
| GlyphSpec.BytesHigh | text.c:102 | `height / 8 + 1` is the fewest 8-row bands that cover `height + 1` rows, so a height that is a multiple of 8 gets one band more than it needs |
| GlyphSpec.BytesPerChar | text.c:103 | the MIKRO record length `width * bytes_high + 1`, stored in a `uint8_t`: it is exact precisely when it is below 256, and is otherwise reduced modulo 256 |
| GlyphSpec.MikroOffset | text.c:106 | a MIKRO record starts `(c - start_char) * bytes_per_char` bytes into the table |
| GlyphSpec.RecordLayout | text.c:103-106 | the record of `start_char` is at offset 0, and each next character's record is `width` bytes on in a STANG table and `bytes_per_char` bytes on in a MIKRO table |
| GlyphSpec.StangRows | text.c:75-86 | rows `j` to 7 of a STANG column: each row is checked against the display, and the walk stops at the first row off it; otherwise the pixel is written, black exactly when bit `j` of the byte is set |
| GlyphSpec.StangCols | text.c:68-87 | columns `i` to `width - 1` of a STANG glyph, column `i` coloured by table byte `off + i`; the walk stops with the first column that stops |
| GlyphSpec.MikroBits | text.c:131-149 | bits `bit` to 7 of band `j`: the row `8 * j + bit` is checked against the display first, then skipped when it is at or below the height, and otherwise written, coloured by that bit |
| GlyphSpec.MikroBands | text.c:124-150 | bands `j` to `bytes_high - 1` of a MIKRO column, band `j` read from byte `base + j` |
| GlyphSpec.MikroCols | text.c:122-151 | columns `i` to `var_width - 1` of a MIKRO glyph, column `i` read from bytes `start + i * bytes_high` on |
| GlyphSpec.Readable | text.c:63-152 | every byte the drawn character's layout reads lies in the table: `width` bytes for STANG, the width byte and `var_width * bytes_high` column bytes for MIKRO, none for the others |
| GlyphSpec.Glyph | text.c:57-187 | the log after a call and its return value: '.' substitution, then the STANG or MIKRO walk returning the glyph's width or 0 if it stopped, or no writes and 0 for the other layouts |
| GlyphFacts.GlyphOnScreen | text.c:77-80 | a call never writes past the dimensions of the display: the log after it is the log before it followed only by pixels with `0 <= x < W` and `0 <= y < H` |
| GlyphFacts.GlyphWalkOnScreen | text.c:68-87 | a glyph walk appends only pixels on the display |
| GlyphFacts.ColumnOnScreen | text.c:131-148 | a column walk appends only pixels on the display, because each row is checked before it is written |
| GlyphFacts.GlyphIsDrawn | text.c:57-187 | for every font, display, log and character, the loop-by-loop specification equals the closed form `Drawn`: a drawable glyph with no columns, or whose checked area fits, is drawn whole and returns its width; any other is cut after `GlyphStop` pixels and returns 0; other layouts draw nothing and return 0 |
| GlyphFacts.GlyphAppends | text.c:82-84 | a call only appends to the display log, and what it appends and returns does not depend on earlier writes |
| GlyphFacts.GlyphWidthReturned | text.c:79-91 | the returned width is non-zero exactly when the layout is drawable, the glyph has columns and its checked area lies on the display |
| GlyphFacts.StangPixel | text.c:63-91 | pixel `i * 8 + j` of a STANG picture is at `(x + i, y + j)`, black exactly when bit `j` of table byte `(c - start_char) * width + i` is set |
| GlyphFacts.MikroPixel | text.c:102-148 | pixel `i * height + row` of a MIKRO picture is at `(x + i, y + row)`, coloured by bit `row % 8` of record byte `1 + i * bytes_high + row / 8`, which lies in the table |
| GlyphFacts.FallbackIsDot | text.c:59-61 | a character outside `[start_char, end_char]` gives the same writes and return value as '.' |
| GlyphFacts.GeometryOf | text.c:63-185 | only STANG and MIKRO fonts are drawable; both check at least one row per column and draw no more rows than they check, and MIKRO checks strictly more rows than it draws |
| GlyphFacts.ImageLength | text.c:68-75 | a picture of `n` columns of `height` drawn rows holds `n * height` pixels |
| GlyphFacts.ImageAt | text.c:68-86 | pixel `q * height + r` of a picture is row `r` of column `q`: at `(x + q, y + r)`, read from the column's bytes |
| GlyphFacts.ColumnFits | text.c:131-148 | a column whose checked rows all lie on the display writes its whole picture and does not stop |
| GlyphFacts.ColumnOff | text.c:133-136 | a column with a checked row off the display stops there, having written its picture only up to that row |
| GlyphFacts.GlyphFits | text.c:68-87 | a glyph whose checked area lies on the display writes its whole picture, column after column, and does not stop |
| GlyphFacts.GlyphOff | text.c:77-80 | a glyph with a checked position off the display writes exactly the first `GlyphStop` pixels of its picture, then stops and writes nothing more |
| GlyphFacts.GlyphStopStep | text.c:77-80 | a column fully on the display adds its whole height to the number of pixels written before the stop |
| GlyphFacts.StangRowsIsWalk | text.c:75-86 | the STANG row loop is a column walk over 8 checked and 8 drawn rows of one byte |
| GlyphFacts.StangColsIsWalk | text.c:68-87 | the STANG column loop is a glyph walk with a stride of one byte per column |
| GlyphFacts.MikroBitsThenWalk | text.c:131-149 | the bit loop of band `j` is the walk over rows `8 * j` to `8 * j + 7`, the band's byte read for each row |
| GlyphFacts.MikroBandsIsWalk | text.c:124-150 | the band loop is a column walk over `8 * bytes_high` checked rows of which `height` are drawn |
| GlyphFacts.MikroColsIsWalk | text.c:122-151 | the MIKRO column loop is a glyph walk with a stride of `bytes_high` bytes per column |
| GlyphFacts.BandBitIsDivMod | text.c:133-139 | the band and bit of a row are `row / 8` and `row % 8` |
| GlyphFacts.BandBitOf | text.c:133-139 | row `j * 8 + bit` belongs to band `j` at bit `bit` |
| StringSpec.TooLow | text.c:193 | the guard compares in C `int` arithmetic, so a font taller than the display rejects every row |
| StringSpec.Drawable | text.c:198-199 | what the walk needs when the row is accepted: a NUL terminator, and every character before it readable |
| StringSpec.DrawChars | text.c:198-206 | each character is drawn at the cursor, which then moves on by the returned width plus one, modulo 256, whether or not the glyph stopped |
| StringSpec.DrawString | text.c:189-207 | a rejected row leaves the log as it was; otherwise the characters before the first NUL are drawn from `x` |
| StringSpec.DrawCharsOnScreen | text.c:198-206 | drawing characters appends only pixels on the display |
| StringSpec.DrawStringOnScreen | text.c:189-207 | a string call never writes past the dimensions of the display: the log after it is the log before it followed only by pixels on the display |
| StringSpec.CString | text.c:198 | the characters walked are the prefix of the string before its first NUL, and none of them is NUL |
| StringSpec.Advance | text.c:200 | `x += width + 1` on a `uint8_t` gives either the sum or the sum less 256 |
| StringSpec.DrawCharsStep | text.c:198-206 | drawing the rest of the string from character `n` is drawing character `n` at the cursor, then the rest from the advanced cursor |
| StringSpec.DrawCharsSplit | text.c:198-206 | drawing `a + b` is drawing `a`, then `b` from where `a` left the log and the cursor |
| StringSpec.CStringOf | text.c:198 | for `a` without NUL, the string `a`, NUL, `b` walks exactly `a` |
| StringSpec.StopsAtNul | text.c:198 | nothing after the first NUL is drawn: the strings `a`, NUL, `b` and `a`, NUL draw the same |
| StringSpec.DrawCharsAppends | text.c:198-206 | drawing a string only appends to the log; what it appends and the cursor it ends at do not depend on earlier writes |
| StringSpec.RejectedDrawsNothing | text.c:193-196 | a row the guard rejects leaves the log unchanged |
| StringSpec.MikroPaddingClipsText | text.c:131-136 | on a row where MIKRO padding rows fall off the display, the cursor ends exactly one pixel per character further on, modulo 256 |
| StringSpec.PaddingClipsGlyph | text.c:131-136 | on such a row every MIKRO glyph returns 0 |
| StringSpec.WrapStep | text.c:200 | moving the 8-bit cursor on by one and then by `m` is moving it on by `m + 1`, modulo 256 |
| StringSpec.BottomRowIsClipped | text.c:193 | the guard accepts row `H - height - 1` and rejects the row below it; there, MIKRO padding rows fall off the display exactly when the height is not 7 more than a multiple of 8 |
| FontTable.BitSet | text.c:81 | the test `dat & (1 << k)`: bit `k` of the byte, counting from the least significant one |
| FontTable.ColourOf | text.c:81-85 | a set bit is written BLACK, a clear one WHITE |
| FontTable.BitSetIsDigit | text.c:81 | the bit test `dat & (1 << k)` is digit `k` of `dat` in base 2 |
| FontTable.BitsDetermineValue | text.c:81-85 | two values below `2^n` whose `n` low bits all agree are equal |
| FontTable.ColumnDeterminesByte | text.c:75-86 | the eight pixels a STANG column draws determine its byte, so decoding loses nothing |

## Left out

- devices/PIC24F.h is not part of this model. It holds only pin and register bindings and holds no logic of the renderer.
- `glcd_set_pixel` and the framebuffer (`glcd_buffer_selected`, `glcd_bbox_selected`) are not part of this model. Each call is recorded as one entry of the log, and nothing is said about what the framebuffer holds afterwards.
- The split between AVR program-memory reads (`pgm_read_byte`) and plain reads is collapsed into one indexed read of the table.
- The local variables of the GLCD_UTILS branch (text.c:160-177) have no observable effect. Only its `return 0` is modelled.
- The commented-out overflow checks (text.c:116-120, 201-204, 229-232) are not modelled, because they are not compiled.
- The `c++` on the local character in `glcd_draw_string_xy_P` (text.c:233) changes nothing that is read again and is left out.
- Text.Glcd.DrawCharXY: reads past the end of the table are undefined in C, so the method requires that the glyph lies in the table (`Readable`). This also covers a '.' outside `[start_char, end_char]`, which gives a negative offset.
- Text.Glcd.DrawStringXY: requires, when the row is not rejected, a NUL terminator and every character before it readable (`Drawable`); the same holds for Text.Glcd.DrawStringXYP.
- Text.Glcd.DrawCharXY: drawing before any `glcd_set_font` reads a zero-initialised `font_current` (STANG, width 0, an absent table). The model instead requires that a font has been set.
- Text.Glcd.constructor: `GLCD_LCD_WIDTH` and `GLCD_LCD_HEIGHT` are taken to be at most 256, since `glcd_set_pixel` takes `uint8_t` coordinates.
- Text.Glcd.DrawMikro: the band and bit loops are in their own methods, `DrawMikroColumns` and `DrawMikroColumn`. These return an off-screen flag where `glcd_draw_char_xy` returns 0 from inside the loops. The order of reads and writes is the same.
- GlyphSpec.TableByte returns 0 outside the table only to make the specification functions total. Under the preconditions above, no read falls outside the table.
- C `char` is taken to be signed (-128 to 127), as on the avr-gcc and xc16 toolchains.

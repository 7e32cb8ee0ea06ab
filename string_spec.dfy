/** glcd_draw_string_xy and glcd_draw_string_xy_P as functions of the
    display log before the call: the characters up to the first NUL are
    drawn one after another, each at the cursor the previous one left. */
module StringSpec {
  import opened FontTable
  import opened GlyphSpec
  import opened GlyphFacts

  /** The characters of a NUL-terminated string, up to the terminator. */
  function CString(str: seq<Char>): (t: seq<Char>)
    requires Nul in str
    ensures |t| < |str| && str[|t|] == Nul && t == str[..|t|]
    ensures Nul !in t
  {
    if str[0] == Nul then [] else [str[0]] + CString(str[1..])
  }

  /** The display log and the uint8_t cursor x between two characters. */
  datatype Pen = Pen(log: seq<Pixel>, x: Byte)

  /** `x += width + 1` on a uint8_t: the cursor wraps at 256. */
  function Advance(x: Byte, width: Byte): (r: Byte)
    ensures r == x + width + 1 || r == x + width + 1 - 256
  {
    (x + width + 1) % 256
  }

  predicate AllReadable(f: FontConfig, t: seq<Char>)
  {
    forall k :: 0 <= k < |t| ==> Readable(f, t[k])
  }

  /** Draws the characters of t in order on row y, starting from pen. */
  function DrawChars(f: FontConfig, w: nat, h: nat, pen: Pen, y: Byte, t: seq<Char>): Pen
    requires AllReadable(f, t)
    decreases |t|
  {
    if t == [] then pen
    else
      var g := Glyph(f, w, h, pen.log, pen.x, y, t[0]);
      DrawChars(f, w, h, Pen(g.log, Advance(pen.x, g.width)), y, t[1..])
  }

  /** The up-front test of glcd_draw_string_xy, in C int arithmetic: a row
      too low for the font's declared height rejects the whole string. */
  predicate TooLow(f: FontConfig, h: nat, y: Byte)
  {
    y > h - f.height - 1
  }

  /** What glcd_draw_string_xy needs when the string is not rejected: a
      terminator, and every character before it readable from the table. */
  predicate Drawable(f: FontConfig, h: nat, y: Byte, str: seq<Char>)
  {
    !TooLow(f, h, y) ==> Nul in str && AllReadable(f, CString(str))
  }

  /** The display log after glcd_draw_string_xy(x, y, str). */
  function DrawString(f: FontConfig, w: nat, h: nat, s: seq<Pixel>, x: Byte, y: Byte, str: seq<Char>): seq<Pixel>
    requires Drawable(f, h, y, str)
  {
    if TooLow(f, h, y) then s else DrawChars(f, w, h, Pen(s, x), y, CString(str)).log
  }

  /** Drawing t[n..] is drawing t[n] and then the rest from where it left
      the pen. */
  lemma DrawCharsStep(f: FontConfig, w: nat, h: nat, pen: Pen, y: Byte, t: seq<Char>, n: nat)
    requires AllReadable(f, t) && n < |t|
    ensures Readable(f, t[n])
    ensures var g := Glyph(f, w, h, pen.log, pen.x, y, t[n]);
      DrawChars(f, w, h, pen, y, t[n..]) == DrawChars(f, w, h, Pen(g.log, Advance(pen.x, g.width)), y, t[n + 1..])
  {
    assert t[n..][0] == t[n] && t[n..][1..] == t[n + 1..];
  }

  /** Drawing a + b is drawing a, then b from where a left the pen. */
  lemma {:induction false} DrawCharsSplit(f: FontConfig, w: nat, h: nat, pen: Pen, y: Byte, a: seq<Char>, b: seq<Char>)
    requires AllReadable(f, a) && AllReadable(f, b)
    ensures AllReadable(f, a + b)
    ensures DrawChars(f, w, h, pen, y, a + b) == DrawChars(f, w, h, DrawChars(f, w, h, pen, y, a), y, b)
    decreases |a|
  {
    assert forall k :: 0 <= k < |a + b| ==> (a + b)[k] == if k < |a| then a[k] else b[k - |a|];
    if a == [] {
      assert a + b == b;
    } else {
      var g := Glyph(f, w, h, pen.log, pen.x, y, a[0]);
      assert (a + b)[0] == a[0];
      assert (a + b)[1..] == a[1..] + b;
      DrawCharsSplit(f, w, h, Pen(g.log, Advance(pen.x, g.width)), y, a[1..], b);
    }
  }

  /** Only the characters before the first NUL are drawn. */
  lemma {:induction false} CStringOf(a: seq<Char>, b: seq<Char>)
    requires Nul !in a
    ensures Nul in a + [Nul] + b
    ensures CString(a + [Nul] + b) == a
    decreases |a|
  {
    assert (a + [Nul] + b)[|a|] == Nul;
    if a != [] {
      assert (a + [Nul] + b)[1..] == a[1..] + [Nul] + b;
      CStringOf(a[1..], b);
    }
  }

  lemma StopsAtNul(f: FontConfig, w: nat, h: nat, s: seq<Pixel>, x: Byte, y: Byte, a: seq<Char>, b: seq<Char>)
    requires Nul !in a && AllReadable(f, a)
    ensures Drawable(f, h, y, a + [Nul] + b) && Drawable(f, h, y, a + [Nul])
    ensures DrawString(f, w, h, s, x, y, a + [Nul] + b) == DrawString(f, w, h, s, x, y, a + [Nul])
  {
    CStringOf(a, b);
    CStringOf(a, []);
    assert a + [Nul] + [] == a + [Nul];
  }

  /** Drawing a string only appends to the display log, and what it appends
      does not depend on what was drawn before; the cursor it ends at does
      not either. */
  lemma {:induction false} DrawCharsAppends(f: FontConfig, w: nat, h: nat, s: seq<Pixel>, x: Byte, y: Byte, t: seq<Char>)
    requires AllReadable(f, t)
    ensures DrawChars(f, w, h, Pen(s, x), y, t).log == s + DrawChars(f, w, h, Pen([], x), y, t).log
    ensures DrawChars(f, w, h, Pen(s, x), y, t).x == DrawChars(f, w, h, Pen([], x), y, t).x
    decreases |t|
  {
    if t != [] {
      var g := Glyph(f, w, h, s, x, y, t[0]);
      var g0 := Glyph(f, w, h, [], x, y, t[0]);
      GlyphAppends(f, w, h, s, x, y, t[0]);
      DrawCharsAppends(f, w, h, g.log, Advance(x, g.width), y, t[1..]);
      DrawCharsAppends(f, w, h, g0.log, Advance(x, g.width), y, t[1..]);
      assert g.log == s + g0.log;
    }
  }

  /** Drawing characters writes only pixels on the display. */
  lemma {:induction false} DrawCharsOnScreen(f: FontConfig, w: nat, h: nat, pen: Pen, y: Byte, t: seq<Char>)
    requires AllReadable(f, t)
    ensures AppendsOnScreen(pen.log, DrawChars(f, w, h, pen, y, t).log, w, h)
    decreases |t|
  {
    if t == [] {
      assert pen.log[..|pen.log|] == pen.log;
    } else {
      var g := Glyph(f, w, h, pen.log, pen.x, y, t[0]);
      var next := Pen(g.log, Advance(pen.x, g.width));
      GlyphOnScreen(f, w, h, pen.log, pen.x, y, t[0]);
      DrawCharsOnScreen(f, w, h, next, y, t[1..]);
      AppendsOnScreenTrans(pen.log, g.log, DrawChars(f, w, h, next, y, t[1..]).log, w, h);
    }
  }

  /** glcd_draw_string_xy never writes past the dimensions of the display:
      the log after the call is the log before it followed only by pixels
      on the display. */
  lemma DrawStringOnScreen(f: FontConfig, w: nat, h: nat, s: seq<Pixel>, x: Byte, y: Byte, str: seq<Char>)
    requires Drawable(f, h, y, str)
    ensures AppendsOnScreen(s, DrawString(f, w, h, s, x, y, str), w, h)
  {
    if TooLow(f, h, y) {
      assert s[..|s|] == s;
    } else {
      DrawCharsOnScreen(f, w, h, Pen(s, x), y, CString(str));
    }
  }

  /** A rejected row draws nothing. */
  lemma RejectedDrawsNothing(f: FontConfig, w: nat, h: nat, s: seq<Pixel>, x: Byte, y: Byte, str: seq<Char>)
    requires TooLow(f, h, y)
    ensures Drawable(f, h, y, str)
    ensures DrawString(f, w, h, s, x, y, str) == s
  {
  }

  /** A MIKRO glyph checks 8 * bytes_high rows against the display, more
      than its height. On a row where those padding rows are off screen
      every glyph with columns is cut short and returns 0, and the cursor
      moves on by exactly one per character, wrapping at 256. */
  lemma {:induction false} MikroPaddingClipsText(f: FontConfig, w: nat, h: nat, pen: Pen, y: Byte, t: seq<Char>)
    requires f.tableType.Mikro? && AllReadable(f, t)
    requires h < y + BytesHigh(f) * 8
    ensures DrawChars(f, w, h, pen, y, t).x == (pen.x + |t|) % 256
    decreases |t|
  {
    if t != [] {
      var g := Glyph(f, w, h, pen.log, pen.x, y, t[0]);
      PaddingClipsGlyph(f, w, h, pen.log, pen.x, y, t[0]);
      MikroPaddingClipsText(f, w, h, Pen(g.log, Advance(pen.x, 0)), y, t[1..]);
      WrapStep(pen.x, |t[1..]|);
    }
  }

  /** A MIKRO glyph whose padding rows are off screen returns 0. */
  lemma PaddingClipsGlyph(f: FontConfig, w: nat, h: nat, s: seq<Pixel>, x: Byte, y: Byte, c: Char)
    requires f.tableType.Mikro? && Readable(f, c)
    requires h < y + BytesHigh(f) * 8
    ensures Glyph(f, w, h, s, x, y, c).width == 0
  {
    GlyphWidthReturned(f, w, h, s, x, y, c);
  }

  /** Moving on by one and then by m, each time modulo 256, is moving on by
      m + 1 modulo 256. */
  lemma WrapStep(a: nat, m: nat)
    ensures ((a + 1) % 256 + m) % 256 == (a + 1 + m) % 256
  {
    var q := (a + 1) / 256;
    var v := (a + 1) % 256 + m;
    assert a + 1 + m == q * 256 + v;
    DivModUnique(q + v / 256, 256, v % 256);
  }

  /** The lowest row the test accepts is y = h - height - 1. From there a
      MIKRO font's padding rows reach past the display unless its height is
      7 more than a multiple of 8, so MikroPaddingClipsText applies. */
  lemma BottomRowIsClipped(f: FontConfig, h: nat)
    requires f.tableType.Mikro? && f.height < h < f.height + 256
    ensures var y := h - f.height - 1;
      !TooLow(f, h, y) && TooLow(f, h, y + 1)
      && (h < y + BytesHigh(f) * 8 <==> f.height % 8 != 7)
  {
    assert f.height == f.height / 8 * 8 + f.height % 8;
    assert BytesHigh(f) * 8 == f.height / 8 * 8 + 8;
  }
}

/** Values the font renderer works on: bytes, C characters, the font
    configuration (glcd_FontConfig_t), colours and pixel writes, and the bit
    test `dat & (1 << k)` used to unpack a table byte. */
module FontTable {

  /** uint8_t */
  type Byte = b: int | 0 <= b < 256

  /** C `char`; signed on the AVR (avr-gcc) and PIC24 (xc16) toolchains. */
  type Char = c: int | -128 <= c < 128

  /** '.', the glyph drawn for a character the font does not cover. */
  const Dot: Char := 46

  /** The C string terminator. */
  const Nul: Char := 0

  datatype Option<T> = None | Some(value: T)

  /** The font table layouts. table_type in glcd_FontConfig_t is an enum
      stored in a global that callers may overwrite, so any other value is
      possible. */
  datatype TableType = Stang | Mikro | GlcdUtils | Unrecognised(tag: int)

  /** font_current: the read-only table (a view of caller-owned bytes), the
      glyph cell, the covered character range and the layout. */
  datatype FontConfig = FontConfig(
    table: seq<Byte>,
    width: Byte,
    height: Byte,
    startChar: Char,
    endChar: Char,
    tableType: TableType)

  datatype Colour = Black | White

  /** One glcd_set_pixel call. */
  datatype Pixel = Pixel(x: int, y: int, colour: Colour)

  function Pow2(k: nat): (r: nat)
    ensures r >= 1
  {
    if k == 0 then 1 else 2 * Pow2(k - 1)
  }

  /** `b & (1 << k)` is non-zero: bit k of b, counting from the least
      significant one. */
  predicate BitSet(b: nat, k: nat)
  {
    if k == 0 then b % 2 == 1 else BitSet(b / 2, k - 1)
  }

  /** The colour a font bit gives: a set bit is ink. */
  function ColourOf(b: Byte, k: nat): Colour
  {
    if BitSet(b, k) then Black else White
  }

  /** Unpacking loses nothing: two values below 2^n with the same n low
      bits are equal, so the eight pixels a byte turns into determine it. */
  lemma {:induction false} BitsDetermineValue(a: nat, b: nat, n: nat)
    requires a < Pow2(n) && b < Pow2(n)
    requires forall k :: 0 <= k < n ==> BitSet(a, k) == BitSet(b, k)
    ensures a == b
  {
    if n > 0 {
      forall k | 0 <= k < n - 1
        ensures BitSet(a / 2, k) == BitSet(b / 2, k)
      {
        assert BitSet(a, k + 1) == BitSet(b, k + 1);
      }
      BitsDetermineValue(a / 2, b / 2, n - 1);
      assert BitSet(a, 0) == BitSet(b, 0);
    }
  }

  /** Two table bytes that colour the eight rows of a column alike are the
      same byte. */
  lemma ColumnDeterminesByte(a: Byte, b: Byte)
    requires forall k :: 0 <= k < 8 ==> ColourOf(a, k) == ColourOf(b, k)
    ensures a == b
  {
    assert Pow2(8) == 256;
    forall k | 0 <= k < 8
      ensures BitSet(a, k) == BitSet(b, k)
    {
      assert ColourOf(a, k) == ColourOf(b, k);
    }
    BitsDetermineValue(a, b, 8);
  }

  /** BitSet agrees with the arithmetic reading of `b & (1 << k)`. */
  lemma {:induction false} BitSetIsDigit(b: nat, k: nat)
    ensures BitSet(b, k) <==> (b / Pow2(k)) % 2 == 1
  {
    if k > 0 {
      BitSetIsDigit(b / 2, k - 1);
      DivDiv(b, 2, Pow2(k - 1));
    }
  }

  lemma DivDiv(a: nat, m: nat, n: nat)
    requires m > 0 && n > 0
    ensures a / m / n == a / (m * n)
  {
    var q, r := a / m, a % m;
    var q2, r2 := q / n, q % n;
    assert a == q * m + r;
    assert q == q2 * n + r2;
    MulRearrange(q2, n, r2, m, r);
    RemainderBound(r2, n, m, r);
    DivModUnique(q2, m * n, r2 * m + r);
  }

  lemma MulRearrange(q2: int, n: int, r2: int, m: int, r: int)
    ensures (q2 * n + r2) * m + r == q2 * (m * n) + (r2 * m + r)
  {
    assert (q2 * n + r2) * m == q2 * n * m + r2 * m;
  }

  lemma RemainderBound(r2: int, n: int, m: int, r: int)
    requires 0 <= r2 < n && 0 <= r < m
    ensures 0 <= r2 * m + r < m * n
  {
    assert r2 * m <= (n - 1) * m;
  }

  lemma MulAtLeast(d: int, n: int)
    requires d >= 1 && n > 0
    ensures d * n >= n
  {
  }

  /** Euclidean division of q*n + r by n, for 0 <= r < n. */
  lemma DivModUnique(q: int, n: int, r: int)
    requires n > 0 && 0 <= r < n
    ensures (q * n + r) / n == q && (q * n + r) % n == r
  {
    var a := q * n + r;
    var q', r' := a / n, a % n;
    assert (q - q') * n == r' - r;
    if q' < q {
      MulAtLeast(q - q', n);
      assert false;
    } else if q < q' {
      MulAtLeast(q' - q, n);
      assert false;
    }
  }
}

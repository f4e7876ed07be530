/**
 * The emulated text terminal drawn on the boot framebuffer: an 8x8 font is
 * painted cell by cell, and the cursor walks the grid row by row, wrapping
 * back to the top-left cell (there is no scrolling).
 */
module GraphicsTerminal {
  import opened Machine
  import opened BootBoot

  datatype Color = Color(red: bv8, green: bv8, blue: bv8)

  const White: Color := Color(255, 255, 255)
  const Black: Color := Color(0, 0, 0)

  /** Number of characters in the font table. */
  const FontSize: nat := 128
  const NewLine: nat := 10

  /** The font table: 128 glyphs of 8 rows, bit j of a row is column j. */
  predicate FontShape(font: seq<seq<bv8>>)
  {
    |font| == FontSize && forall c :: 0 <= c < |font| ==> |font[c]| == 8
  }

  /** Byte offset of the first pixel of row y: y rows of `pitch` bytes. */
  function RowStart(pitch: nat, y: nat): nat
  {
    if y == 0 then 0 else RowStart(pitch, y - 1) + pitch
  }

  lemma {:induction false} RowStartProduct(pitch: nat, y: nat)
    ensures RowStart(pitch, y) == y * pitch
  {
    if y > 0 {
      RowStartProduct(pitch, y - 1);
      assert y * pitch == (y - 1) * pitch + pitch;
    }
  }

  lemma {:induction false} RowStartMonotonic(pitch: nat, a: nat, b: nat)
    requires a <= b
    ensures RowStart(pitch, a) <= RowStart(pitch, b)
    decreases b - a
  {
    if a < b {
      RowStartMonotonic(pitch, a, b - 1);
    }
  }

  /** A byte has one row and one column: rows of `pitch` bytes do not overlap. */
  lemma {:induction false} RowsDisjoint(pitch: nat, a: nat, b: nat, u: nat, v: nat)
    requires u < pitch && v < pitch && RowStart(pitch, a) + u == RowStart(pitch, b) + v
    ensures a == b && u == v
  {
    if a > 0 && b > 0 {
      RowsDisjoint(pitch, a - 1, b - 1, u, v);
    }
  }

  /** The pixel layout of a framebuffer: size in pixels, pitch in bytes and channel order. */
  datatype Geometry = Geometry(width: nat, height: nat, pitch: nat, kind: FramebufferType)
  {
    /** Every pixel's 4 bytes lie inside its row and the rows inside `length` bytes. */
    predicate FitsIn(length: nat)
    {
      4 * width <= pitch && RowStart(pitch, height) <= length
    }

    /** Cell (x, y) of the 8x8 grid lies inside the framebuffer. */
    predicate HasCell(x: nat, y: nat)
    {
      8 * x + 8 <= width && 8 * y + 8 <= height
    }
  }

  /** Byte offset of pixel (x, y). */
  function Offset(pitch: nat, x: nat, y: nat): nat
  {
    RowStart(pitch, y) + 4 * x
  }

  /** The four bytes stored for colour `c`, lowest address first. */
  function PixelBytes(kind: FramebufferType, c: Color): (r: seq<bv8>)
    ensures |r| == 4
  {
    match kind
    case RGBA => [255, c.blue, c.green, c.red]
    case BGRA => [255, c.red, c.green, c.blue]
    case ARGB => [c.blue, c.green, c.red, 255]
    case ABGR => [c.red, c.green, c.blue, 255]
  }

  /** Where each channel sits within a pixel, as the framebuffer types name it. */
  datatype Channels = Channels(red: nat, green: nat, blue: nat, pad: nat)

  /**
   * The type names list the channels from the most significant byte of a
   * little-endian 32-bit word: byte 3 holds the first letter, byte 0 the last.
   */
  function ChannelsOf(kind: FramebufferType): Channels
  {
    match kind
    case RGBA => Channels(3, 2, 1, 0)
    case BGRA => Channels(1, 2, 3, 0)
    case ARGB => Channels(2, 1, 0, 3)
    case ABGR => Channels(0, 1, 2, 3)
  }

  /** Reads a colour back out of four pixel bytes. */
  function ReadPixel(kind: FramebufferType, p: seq<bv8>): Color
    requires |p| == 4
  {
    var ch := ChannelsOf(kind);
    Color(p[ch.red], p[ch.green], p[ch.blue])
  }

  /**
   * The bytes of a pixel follow the channel order its type names: reading
   * them back gives the colour, the pad byte is 255, and the four positions
   * are distinct.
   */
  lemma PixelLayout(kind: FramebufferType, c: Color)
    ensures ReadPixel(kind, PixelBytes(kind, c)) == c
    ensures PixelBytes(kind, c)[ChannelsOf(kind).pad] == 255
    ensures var ch := ChannelsOf(kind);
      multiset{ch.red, ch.green, ch.blue, ch.pad} == multiset{0, 1, 2, 3}
  {
  }

  /**
   * Stores the bytes of `p` at offsets `at` .. `at + |p| - 1`, the highest
   * offset first; every other byte is kept. A store that would not fit is
   * dropped; for a fitting geometry every pixel fits (PixelInBounds).
   */
  function WriteBytes(fb: seq<bv8>, at: nat, p: seq<bv8>): (r: seq<bv8>)
    ensures |r| == |fb|
    decreases |p|
  {
    if |p| == 0 || at + |p| > |fb| then fb
    else WriteBytes(fb[at + |p| - 1 := p[|p| - 1]], at, p[..|p| - 1])
  }

  /** Byte k after a store: the stored byte where the store fits and covers k, else the old one. */
  lemma {:induction false} WriteBytesAt(fb: seq<bv8>, at: nat, p: seq<bv8>, k: nat)
    requires k < |fb|
    ensures WriteBytes(fb, at, p)[k]
         == if at + |p| <= |fb| && at <= k < at + |p| then p[k - at] else fb[k]
    decreases |p|
  {
    if |p| > 0 && at + |p| <= |fb| {
      WriteBytesAt(fb[at + |p| - 1 := p[|p| - 1]], at, p[..|p| - 1], k);
    }
  }

  /** A fitting four-byte store updates those four bytes, the highest first. */
  lemma WriteFour(fb: seq<bv8>, at: nat, p: seq<bv8>)
    requires |p| == 4 && at + 4 <= |fb|
    ensures WriteBytes(fb, at, p) == fb[at + 3 := p[3]][at + 2 := p[2]][at + 1 := p[1]][at := p[0]]
  {
    var f3 := fb[at + 3 := p[3]];
    var f2 := f3[at + 2 := p[2]];
    var f1 := f2[at + 1 := p[1]];
    assert p[..3][..2] == p[..2] && p[..2][..1] == p[..1] && p[..1][..0] == [];
    assert WriteBytes(fb, at, p) == WriteBytes(f3, at, p[..3]);
    assert WriteBytes(f3, at, p[..3]) == WriteBytes(f2, at, p[..2]);
    assert WriteBytes(f2, at, p[..2]) == WriteBytes(f1, at, p[..1]);
    assert WriteBytes(f1, at, p[..1]) == WriteBytes(f1[at := p[0]], at, []);
  }

  /** The framebuffer with pixel (x, y) set to colour c in the layout's channel order. */
  function WithPixel(fb: seq<bv8>, g: Geometry, x: nat, y: nat, c: Color): (r: seq<bv8>)
    ensures |r| == |fb|
  {
    WriteBytes(fb, Offset(g.pitch, x, y), PixelBytes(g.kind, c))
  }

  /** One pixel store of the drawing loop: colour `color` at pixel (x, y). */
  datatype Store = Store(x: nat, y: nat, color: Color)

  /** Store s writes byte k of the framebuffer. */
  predicate Covers(g: Geometry, s: Store, k: nat)
  {
    Offset(g.pitch, s.x, s.y) <= k < Offset(g.pitch, s.x, s.y) + 4
  }

  /** The colour of column j of a glyph row: white iff bit j is set. */
  function Ink(row: bv8, j: nat): Color
    requires j < 8
  {
    if row & ColumnMask(j) != 0 then White else Black
  }

  /** 1 << j for a column j of a glyph row. */
  function ColumnMask(j: nat): bv8
    requires j < 8
  {
    if j == 0 then 0x01 else if j == 1 then 0x02 else if j == 2 then 0x04 else if j == 3 then 0x08
    else if j == 4 then 0x10 else if j == 5 then 0x20 else if j == 6 then 0x40 else 0x80
  }

  lemma ColumnMaskIsShift(j: nat)
    requires j < 8
    ensures ColumnMask(j) == 1 << j as bv8
  {
  }

  lemma PixelInBounds(g: Geometry, length: nat, x: nat, y: nat)
    requires g.FitsIn(length) && x < g.width && y < g.height
    ensures Offset(g.pitch, x, y) + 4 <= length
  {
    RowStartMonotonic(g.pitch, y + 1, g.height);
  }

  /** Store n of the pixel loop for cell (x, y): row n / 8, column n % 8 of the glyph. */
  function CellWrite(glyph: seq<bv8>, x: nat, y: nat, n: nat): Store
    requires n < 64 && |glyph| == 8
  {
    Store(8 * x + n % 8, 8 * y + n / 8, Ink(glyph[n / 8], n % 8))
  }

  /** The first m stores of the pixel loop for cell (x, y) applied to fb, the last store outermost. */
  function ApplyStores(fb: seq<bv8>, g: Geometry, glyph: seq<bv8>, x: nat, y: nat, m: nat): (r: seq<bv8>)
    requires m <= 64 && |glyph| == 8
    ensures |r| == |fb|
  {
    if m == 0 then fb
    else
      var s := CellWrite(glyph, x, y, m - 1);
      WithPixel(ApplyStores(fb, g, glyph, x, y, m - 1), g, s.x, s.y, s.color)
  }

  /**
   * The framebuffer after the first m stores of the pixel loop for cell (x, y),
   * in loop order: the progress of the loops in PaintCell and its helpers.
   */
  function PaintedUpTo(fb: seq<bv8>, g: Geometry, glyph: seq<bv8>, x: nat, y: nat, m: nat): (r: seq<bv8>)
    requires m <= 64 && |glyph| == 8
    ensures |r| == |fb|
  {
    ApplyStores(fb, g, glyph, x, y, m)
  }

  /** The framebuffer once the glyph is painted into cell (x, y). */
  function Painted(fb: seq<bv8>, g: Geometry, glyph: seq<bv8>, x: nat, y: nat): seq<bv8>
    requires |glyph| == 8
  {
    PaintedUpTo(fb, g, glyph, x, y, 64)
  }

  /** A byte that none of the first m stores covers keeps its value. */
  lemma {:induction false} PaintedMiss(fb: seq<bv8>, g: Geometry, glyph: seq<bv8>, x: nat, y: nat, m: nat, k: nat)
    requires m <= 64 && |glyph| == 8 && k < |fb|
    requires forall n :: 0 <= n < m ==> !Covers(g, CellWrite(glyph, x, y, n), k)
    ensures PaintedUpTo(fb, g, glyph, x, y, m)[k] == fb[k]
  {
    if m > 0 {
      var s := CellWrite(glyph, x, y, m - 1);
      PaintedMiss(fb, g, glyph, x, y, m - 1, k);
      WriteBytesAt(PaintedUpTo(fb, g, glyph, x, y, m - 1), Offset(g.pitch, s.x, s.y), PixelBytes(g.kind, s.color), k);
    }
  }

  /** A byte of store n that no later one of the first m stores covers holds what store n wrote. */
  lemma {:induction false} PaintedHit(fb: seq<bv8>, g: Geometry, glyph: seq<bv8>, x: nat, y: nat, m: nat, n: nat, b: nat)
    requires n < m <= 64 && |glyph| == 8 && b < 4
    requires var s := CellWrite(glyph, x, y, n); Offset(g.pitch, s.x, s.y) + 4 <= |fb|
    requires var s := CellWrite(glyph, x, y, n);
      forall l :: n < l < m ==> !Covers(g, CellWrite(glyph, x, y, l), Offset(g.pitch, s.x, s.y) + b)
    ensures var s := CellWrite(glyph, x, y, n);
      PaintedUpTo(fb, g, glyph, x, y, m)[Offset(g.pitch, s.x, s.y) + b] == PixelBytes(g.kind, s.color)[b]
  {
    var s := CellWrite(glyph, x, y, n);
    var last := CellWrite(glyph, x, y, m - 1);
    var prev := PaintedUpTo(fb, g, glyph, x, y, m - 1);
    var k := Offset(g.pitch, s.x, s.y) + b;
    WriteBytesAt(prev, Offset(g.pitch, last.x, last.y), PixelBytes(g.kind, last.color), k);
    assert PaintedUpTo(fb, g, glyph, x, y, m)[k] == WithPixel(prev, g, last.x, last.y, last.color)[k];
    if n < m - 1 {
      PaintedHit(fb, g, glyph, x, y, m - 1, n, b);
      assert !Covers(g, last, k);
      assert WithPixel(prev, g, last.x, last.y, last.color)[k] == prev[k];
      assert PaintedUpTo(fb, g, glyph, x, y, m)[k] == PixelBytes(g.kind, s.color)[b];
    } else {
      assert n == m - 1;
      assert last == s && k - Offset(g.pitch, s.x, s.y) == b;
      assert WithPixel(prev, g, last.x, last.y, last.color)[k] == PixelBytes(g.kind, s.color)[b];
      assert PaintedUpTo(fb, g, glyph, x, y, m)[k] == PixelBytes(g.kind, s.color)[b];
    }
  }

  lemma CellWriteAt(glyph: seq<bv8>, x: nat, y: nat, i: nat, j: nat)
    requires i < 8 && j < 8 && |glyph| == 8
    ensures CellWrite(glyph, x, y, 8 * i + j) == Store(8 * x + j, 8 * y + i, Ink(glyph[i], j))
  {
    DivModUnique(8 * i + j, 8, i, j);
  }

  /** A pixel store at (column + j, row + i) in the colour of glyph bit (i, j) is iteration (i, j) of the loop. */
  lemma PixelStep(fb: seq<bv8>, before: seq<bv8>, after: seq<bv8>, g: Geometry, glyph: seq<bv8>,
                  x: nat, y: nat, i: nat, j: nat, m: nat, column: nat, row: nat, color: Color)
    requires i < 8 && j < 8 && m == 8 * i + j && |glyph| == 8 && column == 8 * x && row == 8 * y
    requires color == (if glyph[i] & ColumnMask(j) != 0 then White else Black)
    requires before == PaintedUpTo(fb, g, glyph, x, y, m)
    requires after == WithPixel(before, g, column + j, row + i, color)
    ensures after == PaintedUpTo(fb, g, glyph, x, y, m + 1)
  {
    CellWriteAt(glyph, x, y, i, j);
  }

  /** Byte b of store n lies in row 8y + n / 8 at byte 32x + 4(n % 8) + b of that row. */
  lemma CellWritePosition(pitch: nat, glyph: seq<bv8>, x: nat, y: nat, n: nat, b: nat)
    requires n < 64 && |glyph| == 8 && b < 4
    ensures var s := CellWrite(glyph, x, y, n);
      Offset(pitch, s.x, s.y) + b == RowStart(pitch, 8 * y + n / 8) + (32 * x + 4 * (n % 8) + b)
  {
  }

  /** Two different stores of the loop cover disjoint bytes. */
  lemma CellWritesDisjoint(g: Geometry, glyph: seq<bv8>, x: nat, y: nat, n: nat, m: nat, b: nat)
    requires g.HasCell(x, y) && 4 * g.width <= g.pitch && n < 64 && m < 64 && n != m && |glyph| == 8 && b < 4
    ensures var s := CellWrite(glyph, x, y, n);
      !Covers(g, CellWrite(glyph, x, y, m), Offset(g.pitch, s.x, s.y) + b)
  {
    var s := CellWrite(glyph, x, y, n);
    var w := CellWrite(glyph, x, y, m);
    var at := Offset(g.pitch, w.x, w.y);
    var k := Offset(g.pitch, s.x, s.y) + b;
    if at <= k < at + 4 {
      CellWritePosition(g.pitch, glyph, x, y, n, b);
      CellWritePosition(g.pitch, glyph, x, y, m, k - at);
      RowsDisjoint(g.pitch, 8 * y + n / 8, 8 * y + m / 8, 32 * x + 4 * (n % 8) + b, 32 * x + 4 * (m % 8) + (k - at));
      assert false;
    }
  }

  /** Every store of the loop lies inside the cell. */
  lemma CellWriteInCell(g: Geometry, glyph: seq<bv8>, x: nat, y: nat, n: nat, ky: nat, kc: nat)
    requires g.HasCell(x, y) && 4 * g.width <= g.pitch && n < 64 && |glyph| == 8
    requires kc < g.pitch && !InCell(x, y, ky, kc)
    ensures !Covers(g, CellWrite(glyph, x, y, n), RowStart(g.pitch, ky) + kc)
  {
    var w := CellWrite(glyph, x, y, n);
    var at := Offset(g.pitch, w.x, w.y);
    var k := RowStart(g.pitch, ky) + kc;
    if at <= k < at + 4 {
      CellWritePosition(g.pitch, glyph, x, y, n, k - at);
      RowsDisjoint(g.pitch, ky, 8 * y + n / 8, kc, 32 * x + 4 * (n % 8) + (k - at));
      assert false;
    }
  }

  /** Column kc of pixel row ky lies in cell (x, y) (a row holds 4 bytes per pixel). */
  predicate InCell(x: nat, y: nat, ky: nat, kc: nat)
  {
    8 * y <= ky < 8 * y + 8 && 32 * x <= kc < 32 * x + 32
  }

  /** The four bytes of pixel (8x + c, 8y + r) of cell (x, y), or [] if they do not fit. */
  function CellPixel(fb: seq<bv8>, pitch: nat, x: nat, y: nat, r: nat, c: nat): seq<bv8>
  {
    var o := Offset(pitch, 8 * x + c, 8 * y + r);
    if o + 4 <= |fb| then fb[o..o + 4] else []
  }

  /** Pixel (8x + c, 8y + r) of a painted cell holds the glyph's ink. */
  lemma PaintedPixel(fb: seq<bv8>, g: Geometry, glyph: seq<bv8>, x: nat, y: nat, r: nat, c: nat)
    requires g.FitsIn(|fb|) && g.HasCell(x, y) && |glyph| == 8 && r < 8 && c < 8
    ensures CellPixel(Painted(fb, g, glyph, x, y), g.pitch, x, y, r, c) == PixelBytes(g.kind, Ink(glyph[r], c))
  {
    var n := 8 * r + c;
    var o := Offset(g.pitch, 8 * x + c, 8 * y + r);
    PixelInBounds(g, |fb|, 8 * x + c, 8 * y + r);
    CellWriteAt(glyph, x, y, r, c);
    forall b | 0 <= b < 4
      ensures Painted(fb, g, glyph, x, y)[o + b] == PixelBytes(g.kind, Ink(glyph[r], c))[b]
    {
      forall l | n < l < 64 ensures !Covers(g, CellWrite(glyph, x, y, l), o + b) {
        CellWritesDisjoint(g, glyph, x, y, n, l, b);
      }
      PaintedHit(fb, g, glyph, x, y, 64, n, b);
    }
    assert Painted(fb, g, glyph, x, y)[o..o + 4] == PixelBytes(g.kind, Ink(glyph[r], c));
  }

  /** A byte outside cell (x, y) is not changed by painting it. */
  lemma PaintedOutside(fb: seq<bv8>, g: Geometry, glyph: seq<bv8>, x: nat, y: nat, ky: nat, kc: nat)
    requires g.FitsIn(|fb|) && g.HasCell(x, y) && |glyph| == 8
    requires kc < g.pitch && RowStart(g.pitch, ky) + kc < |fb| && !InCell(x, y, ky, kc)
    ensures Painted(fb, g, glyph, x, y)[RowStart(g.pitch, ky) + kc] == fb[RowStart(g.pitch, ky) + kc]
  {
    forall n | 0 <= n < 64 ensures !Covers(g, CellWrite(glyph, x, y, n), RowStart(g.pitch, ky) + kc) {
      CellWriteInCell(g, glyph, x, y, n, ky, kc);
    }
    PaintedMiss(fb, g, glyph, x, y, 64, RowStart(g.pitch, ky) + kc);
  }

  /**
   * A painted cell: pixel (8x + c, 8y + r) holds white iff bit c of glyph
   * row r is set and black otherwise, and no byte outside the cell changes.
   */
  lemma PaintedCell(fb: seq<bv8>, g: Geometry, glyph: seq<bv8>, x: nat, y: nat)
    requires g.FitsIn(|fb|) && g.HasCell(x, y) && |glyph| == 8
    ensures |Painted(fb, g, glyph, x, y)| == |fb|
    ensures forall r: nat, c: nat :: r < 8 && c < 8 ==>
      CellPixel(Painted(fb, g, glyph, x, y), g.pitch, x, y, r, c) == PixelBytes(g.kind, Ink(glyph[r], c))
    ensures forall ky: nat, kc: nat :: kc < g.pitch && RowStart(g.pitch, ky) + kc < |fb| && !InCell(x, y, ky, kc) ==>
      Painted(fb, g, glyph, x, y)[RowStart(g.pitch, ky) + kc] == fb[RowStart(g.pitch, ky) + kc]
  {
    forall r: nat, c: nat | r < 8 && c < 8
      ensures CellPixel(Painted(fb, g, glyph, x, y), g.pitch, x, y, r, c) == PixelBytes(g.kind, Ink(glyph[r], c))
    {
      PaintedPixel(fb, g, glyph, x, y, r, c);
    }
    forall ky: nat, kc: nat | kc < g.pitch && RowStart(g.pitch, ky) + kc < |fb| && !InCell(x, y, ky, kc)
      ensures Painted(fb, g, glyph, x, y)[RowStart(g.pitch, ky) + kc] == fb[RowStart(g.pitch, ky) + kc]
    {
      PaintedOutside(fb, g, glyph, x, y, ky, kc);
    }
  }

  /** The character drawn for a codepoint: its low byte, or 0 above 127. */
  function DrawnCharacter(codepoint: nat): (r: nat)
    ensures r < FontSize
    ensures codepoint % U8Modulus < FontSize ==> r == codepoint % U8Modulus
    ensures codepoint % U8Modulus >= FontSize ==> r == 0
  {
    var character := codepoint % U8Modulus;
    if character > 127 then 0 else character
  }

  /** A cursor position on the text grid. */
  datatype Cursor = Cursor(x: nat, y: nat)

  /** '\n': column 0 of the next row, or the top-left cell after the last row. */
  function NextLine(c: Cursor, textHeight: nat): Cursor
  {
    if c.y + 1 == textHeight then Cursor(0, 0) else Cursor(0, c.y + 1)
  }

  /** After a painted character: the next column, the next row, or the top-left cell. */
  function Advance(c: Cursor, textWidth: nat, textHeight: nat): Cursor
  {
    var moved := if c.x + 1 == textWidth then Cursor(0, c.y + 1) else Cursor(c.x + 1, c.y);
    if moved.y == textHeight then Cursor(0, 0) else moved
  }

  predicate OnGrid(c: Cursor, textWidth: nat, textHeight: nat)
  {
    c.x < textWidth && c.y < textHeight
  }

  /** Row-major index of a cell. */
  function CellIndex(c: Cursor, textWidth: nat): nat
  {
    c.y * textWidth + c.x
  }

  /**
   * Both cursor moves keep the cursor on the grid. Advancing visits the
   * cells in row-major order, wrapping after the last cell; a new line goes
   * to the start of the next row, wrapping after the last row.
   */
  lemma {:induction false} CursorMoves(c: Cursor, textWidth: nat, textHeight: nat)
    requires OnGrid(c, textWidth, textHeight)
    ensures OnGrid(Advance(c, textWidth, textHeight), textWidth, textHeight)
    ensures OnGrid(NextLine(c, textHeight), textWidth, textHeight)
    ensures CellIndex(Advance(c, textWidth, textHeight), textWidth)
         == (CellIndex(c, textWidth) + 1) % (textWidth * textHeight)
    ensures NextLine(c, textHeight) == Cursor(0, (c.y + 1) % textHeight)
  {
    var n := CellIndex(c, textWidth);
    MulLeft(c.y + 1, textHeight, textWidth);
    assert (c.y + 1) * textWidth == c.y * textWidth + textWidth;
    var a := Advance(c, textWidth, textHeight);
    if c.x + 1 < textWidth {
      DivModUnique(n + 1, textWidth * textHeight, 0, n + 1);
    } else if c.y + 1 < textHeight {
      assert CellIndex(a, textWidth) == (c.y + 1) * textWidth;
      MulLeft(c.y + 2, textHeight, textWidth);
      assert (c.y + 2) * textWidth == (c.y + 1) * textWidth + textWidth;
      DivModUnique(n + 1, textWidth * textHeight, 0, n + 1);
    } else {
      assert n + 1 == textHeight * textWidth;
      DivModUnique(n + 1, textWidth * textHeight, 1, 0);
    }
    if c.y + 1 < textHeight {
      DivModUnique(c.y + 1, textHeight, 0, c.y + 1);
    } else {
      DivModUnique(c.y + 1, textHeight, 1, 0);
    }
  }

  class Terminal {
    const framebuffer: array<bv8>
    const width: nat
    const height: nat
    const pitch: nat
    const kind: FramebufferType
    const font: seq<seq<bv8>>
    const textWidth: nat
    const textHeight: nat
    var currentX: nat
    var currentY: nat

    function Layout(): Geometry
    {
      Geometry(width, height, pitch, kind)
    }

    function Position(): Cursor
      reads this
    {
      Cursor(currentX, currentY)
    }

    /** Every pixel lies inside the framebuffer, at a byte offset that fits in 32 bits. */
    predicate Addressable()
    {
      Layout().FitsIn(framebuffer.Length) && RowStart(pitch, height) < U32Modulus
    }

    /**
     * The framebuffer holds every row and the fields are within u32, so the
     * u32 offset computation y * pitch + 4x never wraps; the cursor is on the grid.
     */
    predicate Valid()
      reads this
    {
      Addressable()
      && IsU32(width) && IsU32(height) && IsU32(pitch)
      && FontShape(font)
      && textWidth == width / 8 && textHeight == height / 8
      && OnGrid(Position(), textWidth, textHeight)
    }

    /** The grid is width/8 by height/8 cells and the cursor starts at the top-left cell. */
    constructor (framebuffer: array<bv8>, width: nat, height: nat, pitch: nat, kind: FramebufferType,
                 font: seq<seq<bv8>>)
      requires 4 * width <= pitch && height * pitch <= framebuffer.Length && height * pitch < U32Modulus
      requires IsU32(width) && IsU32(height) && IsU32(pitch) && FontShape(font)
      requires width >= 8 && height >= 8
      ensures Valid()
      ensures this.framebuffer == framebuffer && this.width == width && this.height == height
      ensures this.pitch == pitch && this.kind == kind && this.font == font
      ensures textWidth == width / 8 && textHeight == height / 8
      ensures Position() == Cursor(0, 0)
    {
      RowStartProduct(pitch, height);
      this.framebuffer := framebuffer;
      this.width := width;
      this.height := height;
      this.pitch := pitch;
      this.kind := kind;
      this.font := font;
      textWidth := width / 8;
      textHeight := height / 8;
      currentX := 0;
      currentY := 0;
    }

    /** Writes colour `c` into the four bytes of pixel (x, y) in the framebuffer's channel order. */
    method PutPixel(x: nat, y: nat, c: Color)
      requires Addressable() && x < width && y < height
      modifies framebuffer
      ensures Offset(pitch, x, y) + 4 <= framebuffer.Length
      ensures framebuffer[..] == WithPixel(old(framebuffer[..]), Layout(), x, y, c)
    {
      PixelInBounds(Layout(), framebuffer.Length, x, y);
      RowStartProduct(pitch, y);
      var where := y * pitch + 4 * x;
      WriteFour(framebuffer[..], where, PixelBytes(kind, c));
      match kind {
        case RGBA =>
          framebuffer[where + 3] := c.red;
          framebuffer[where + 2] := c.green;
          framebuffer[where + 1] := c.blue;
          framebuffer[where] := 255;
        case BGRA =>
          framebuffer[where + 3] := c.blue;
          framebuffer[where + 2] := c.green;
          framebuffer[where + 1] := c.red;
          framebuffer[where] := 255;
        case ARGB =>
          framebuffer[where + 3] := 255;
          framebuffer[where + 2] := c.red;
          framebuffer[where + 1] := c.green;
          framebuffer[where] := c.blue;
        case ABGR =>
          framebuffer[where + 3] := 255;
          framebuffer[where + 2] := c.blue;
          framebuffer[where + 1] := c.green;
          framebuffer[where] := c.red;
      }
    }

    lemma CellFits()
      requires Valid()
      ensures Layout().HasCell(currentX, currentY)
    {
      var n := width / 8;
      MulLeft(currentX + 1, n, 8);
      MulLeft(currentY + 1, height / 8, 8);
    }

    /** One step of the inner pixel loop: pixel (j, i) of cell (x, y), the cursor's, store `done` of the cell. */
    method PaintPixel(ghost fb: seq<bv8>, glyph: seq<bv8>, ghost x: nat, ghost y: nat, i: nat, row: nat, j: nat,
                      ghost done: nat)
      requires Addressable() && Layout().HasCell(x, y) && x == currentX && y == currentY
      requires |glyph| == 8 && i < 8 && j < 8 && row == y * 8 && done == 8 * i + j
      requires framebuffer[..] == PaintedUpTo(fb, Layout(), glyph, x, y, done)
      modifies framebuffer
      ensures framebuffer[..] == PaintedUpTo(fb, Layout(), glyph, x, y, done + 1)
    {
      var column := currentX * 8;
      var color := if glyph[i] & ColumnMask(j) != 0 then White else Black;
      ghost var before := framebuffer[..];
      PutPixel(column + j, row + i, color);
      PixelStep(fb, before, framebuffer[..], Layout(), glyph, x, y, i, j, done, column, row, color);
    }

    /** The inner pixel loop: paints glyph row i into cell (x, y), the cursor's. */
    method PaintRow(ghost fb: seq<bv8>, glyph: seq<bv8>, ghost x: nat, ghost y: nat, i: nat, ghost done: nat)
      requires Addressable() && Layout().HasCell(x, y) && x == currentX && y == currentY
      requires |glyph| == 8 && i < 8 && done == 8 * i
      requires framebuffer[..] == PaintedUpTo(fb, Layout(), glyph, x, y, done)
      modifies framebuffer
      ensures framebuffer[..] == PaintedUpTo(fb, Layout(), glyph, x, y, done + 8)
    {
      var row := currentY * 8;
      var j := 0;
      ghost var stores := done;
      while j < 8
        invariant 0 <= j <= 8 && stores == done + j
        invariant framebuffer[..] == PaintedUpTo(fb, Layout(), glyph, x, y, stores)
      {
        PaintPixel(fb, glyph, x, y, i, row, j, stores);
        j := j + 1;
        stores := stores + 1;
      }
      assert stores == done + 8;
    }

    /** The nested pixel loop: paints the glyph into the cursor's cell. */
    method PaintCell(codepoint: nat)
      requires Valid() && codepoint < FontSize
      modifies framebuffer
      ensures Layout().HasCell(currentX, currentY)
      ensures framebuffer[..]
           == Painted(old(framebuffer[..]), Layout(), font[codepoint], currentX, currentY)
    {
      CellFits();
      ghost var fb := framebuffer[..];
      ghost var x, y := currentX, currentY;
      var glyph := font[codepoint];
      var i := 0;
      ghost var stores := 0;
      while i < 8
        invariant 0 <= i <= 8 && stores == 8 * i
        invariant framebuffer[..] == PaintedUpTo(fb, Layout(), glyph, x, y, stores)
      {
        PaintRow(fb, glyph, x, y, i, stores);
        i := i + 1;
        stores := stores + 8;
      }
      assert stores == 64;
    }

    /**
     * Draws one character: '\n' only moves the cursor to the next line;
     * every other character paints its glyph and advances the cursor.
     */
    method RenderCharacter(codepoint: nat)
      requires Valid() && codepoint < FontSize
      modifies this, framebuffer
      ensures Valid()
      ensures codepoint == NewLine ==>
        framebuffer[..] == old(framebuffer[..]) && Position() == NextLine(old(Position()), textHeight)
      ensures codepoint != NewLine ==>
        Layout().HasCell(old(currentX), old(currentY))
        && framebuffer[..]
           == Painted(old(framebuffer[..]), Layout(), font[codepoint], old(currentX), old(currentY))
        && Position() == Advance(old(Position()), textWidth, textHeight)
    {
      CursorMoves(Position(), textWidth, textHeight);
      if codepoint == NewLine {
        currentY := currentY + 1;
        currentX := 0;
        if currentY == textHeight {
          currentX := 0;
          currentY := 0;
        }
        return;
      }
      PaintCell(codepoint);
      currentX := currentX + 1;
      if currentX == textWidth {
        currentX := 0;
        currentY := currentY + 1;
      }
      if currentY == textHeight {
        currentX := 0;
        currentY := 0;
      }
    }

    /** Outputs a codepoint: its low byte is drawn, with characters above 127 drawn as 0. */
    method OutputCharacter(codepoint: nat)
      requires Valid() && IsU32(codepoint)
      modifies this, framebuffer
      ensures Valid()
      ensures var c := DrawnCharacter(codepoint);
        if c == NewLine then
          framebuffer[..] == old(framebuffer[..]) && Position() == NextLine(old(Position()), textHeight)
        else
          Layout().HasCell(old(currentX), old(currentY))
          && framebuffer[..] == Painted(old(framebuffer[..]), Layout(), font[c], old(currentX), old(currentY))
          && Position() == Advance(old(Position()), textWidth, textHeight)
    {
      var character := codepoint % 256;
      if character > 127 {
        character := 0;
      }
      RenderCharacter(character);
    }
  }
}

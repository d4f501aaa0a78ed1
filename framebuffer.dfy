/** The packed indexed framebuffer: 160 x 120 pixels of 4 bits each, stored column
    by column with 60 bytes per column.  Pixel (x, y) lives in byte `x * 60 + y / 2`;
    even rows use the low nibble and odd rows the high nibble.  The functions here
    describe the buffer's contents as a byte sequence; the driver's array is specified
    in terms of them. */
module Framebuffer {

  const WIDTH := 160
  const HEIGHT := 120
  const COLUMN_BYTES := 60
  const FRAMEBUFFER_SIZE := 9600

  /** 16-bit coordinates, as the driver's drawing interface takes them. */
  type u16 = n: int | 0 <= n < 0x1_0000

  lemma Dimensions()
    ensures COLUMN_BYTES == HEIGHT / 2
    ensures FRAMEBUFFER_SIZE == WIDTH * HEIGHT / 2 == WIDTH * COLUMN_BYTES
  {
  }

  predicate InBounds(x: int, y: int) {
    0 <= x < WIDTH && 0 <= y < HEIGHT
  }

  /** Index of the byte holding pixel (x, y). */
  function ByteIndex(x: int, y: int): (i: nat)
    requires InBounds(x, y)
    ensures i < FRAMEBUFFER_SIZE
    ensures i / COLUMN_BYTES == x && i % COLUMN_BYTES == y / 2
  {
    x * COLUMN_BYTES + y / 2
  }

  /** Colour index of pixel (x, y); 0 outside the grid. */
  function Pixel(fb: seq<bv8>, x: int, y: int): (c: bv8)
    requires |fb| == FRAMEBUFFER_SIZE
    ensures c <= 0x0F
    ensures !InBounds(x, y) ==> c == 0
  {
    if !InBounds(x, y) then 0
    else if y % 2 == 0 then fb[ByteIndex(x, y)] & 0x0F
    else fb[ByteIndex(x, y)] >> 4
  }

  /** The buffer after `setPixel(x, y, color)`: outside the grid nothing changes;
      inside, one nibble of one byte takes the low four bits of `color`. */
  function WithPixel(fb: seq<bv8>, x: int, y: int, color: bv8): (g: seq<bv8>)
    requires |fb| == FRAMEBUFFER_SIZE
    ensures |g| == FRAMEBUFFER_SIZE
    ensures !InBounds(x, y) ==> g == fb
    ensures InBounds(x, y) ==> forall i :: 0 <= i < FRAMEBUFFER_SIZE && i != ByteIndex(x, y) ==> g[i] == fb[i]
    ensures InBounds(x, y) && y % 2 == 0 ==> g[ByteIndex(x, y)] & 0xF0 == fb[ByteIndex(x, y)] & 0xF0
    ensures InBounds(x, y) && y % 2 == 1 ==> g[ByteIndex(x, y)] & 0x0F == fb[ByteIndex(x, y)] & 0x0F
  {
    if !InBounds(x, y) then fb
    else
      var i := ByteIndex(x, y);
      fb[i := if y % 2 == 0 then (fb[i] & 0xF0) | (color & 0x0F) else (fb[i] & 0x0F) | (color << 4)]
  }

  /** Two pixels share a byte exactly when they are the two rows of one row pair. */
  lemma {:induction false} SameByte(x: int, y: int, px: int, py: int)
    requires InBounds(x, y) && InBounds(px, py)
    ensures ByteIndex(x, y) == ByteIndex(px, py) <==> x == px && y / 2 == py / 2
  {
    var i, j := ByteIndex(x, y), ByteIndex(px, py);
    assert i / COLUMN_BYTES == x && j / COLUMN_BYTES == px;
    assert i % COLUMN_BYTES == y / 2 && j % COLUMN_BYTES == py / 2;
  }

  /** Reading back after `setPixel`: the written pixel holds `color & 0x0F` whatever the
      parity of its row, and every other pixel keeps its colour. */
  lemma {:induction false} PixelAfterSet(fb: seq<bv8>, x: int, y: int, color: bv8, px: int, py: int)
    requires |fb| == FRAMEBUFFER_SIZE
    ensures Pixel(WithPixel(fb, x, y, color), px, py)
            == if InBounds(x, y) && px == x && py == y then color & 0x0F else Pixel(fb, px, py)
  {
    if InBounds(x, y) && InBounds(px, py) {
      SameByte(x, y, px, py);
    }
  }

  /** The byte `clearFramebuffer(color)` stores everywhere: `color` in both nibbles. */
  function Packed(color: bv8): bv8 {
    (color << 4) | color
  }

  /** The buffer after `clearFramebuffer(color)`. */
  function Cleared(color: bv8): (g: seq<bv8>)
    ensures |g| == FRAMEBUFFER_SIZE
  {
    seq(FRAMEBUFFER_SIZE, _ => Packed(color))
  }

  /** After clearing, even rows read the low four bits of `color` and odd rows read
      those bits OR-ed with its high four bits; for a colour index (at most 15) every
      pixel reads `color`. */
  lemma ClearedPixel(color: bv8, x: int, y: int)
    requires InBounds(x, y)
    ensures Pixel(Cleared(color), x, y) == if y % 2 == 0 then color & 0x0F else (color & 0x0F) | (color >> 4)
    ensures color <= 0x0F ==> Pixel(Cleared(color), x, y) == color
  {
    assert Cleared(color)[ByteIndex(x, y)] == Packed(color);
  }

  lemma NibblesDetermineByte(a: bv8, b: bv8)
    requires a & 0x0F == b & 0x0F && a >> 4 == b >> 4
    ensures a == b
  {
  }

  /** Every byte index holds the row pair (2k, 2k + 1) of column `i / 60`. */
  lemma {:induction false} RowPairOf(i: int) returns (x: int, y: int)
    requires 0 <= i < FRAMEBUFFER_SIZE
    ensures InBounds(x, y) && InBounds(x, y + 1) && y % 2 == 0
    ensures ByteIndex(x, y) == i && ByteIndex(x, y + 1) == i
  {
    x, y := i / COLUMN_BYTES, 2 * (i % COLUMN_BYTES);
    assert y / 2 == (y + 1) / 2 == i % COLUMN_BYTES;
  }

  /** The pixels determine the buffer: every byte holds exactly the two pixels of one
      row pair of one column, so two buffers that agree on every pixel are equal. */
  lemma {:induction false} PixelsDetermineBytes(a: seq<bv8>, b: seq<bv8>)
    requires |a| == FRAMEBUFFER_SIZE && |b| == FRAMEBUFFER_SIZE
    requires forall x, y :: InBounds(x, y) ==> Pixel(a, x, y) == Pixel(b, x, y)
    ensures a == b
  {
    forall i | 0 <= i < FRAMEBUFFER_SIZE
      ensures a[i] == b[i]
    {
      var x, y := RowPairOf(i);
      assert Pixel(a, x, y) == Pixel(b, x, y);
      assert Pixel(a, x, y + 1) == Pixel(b, x, y + 1);
      NibblesDetermineByte(a[i], b[i]);
    }
  }

  /** The rectangle `fillRect(x, y, w, h, color)` paints, before clipping to the grid. */
  predicate InRect(px: int, py: int, x: int, y: int, w: int, h: int) {
    x <= px < x + w && y <= py < y + h
  }

  /** `g` is `fb` with the part of rectangle (x, y, w, h) inside the grid painted in the
      colour index `color & 0x0F`, and every other pixel as before. */
  ghost predicate Filled(g: seq<bv8>, fb: seq<bv8>, color: bv8, x: int, y: int, w: int, h: int)
    requires |g| == FRAMEBUFFER_SIZE && |fb| == FRAMEBUFFER_SIZE
  {
    forall px, py :: InBounds(px, py) ==>
      Pixel(g, px, py) == if InRect(px, py, x, y, w, h) then color & 0x0F else Pixel(fb, px, py)
  }

  /** Progress of the two `fillRect` loops when the next pixel to paint is (px, py): the
      rows of the rectangle above `py` are painted, and so is row `py` left of `px`. */
  ghost predicate FillProgress(g: seq<bv8>, fb: seq<bv8>, color: bv8, x: int, y: int, w: int, py: int, px: int)
    requires |g| == FRAMEBUFFER_SIZE && |fb| == FRAMEBUFFER_SIZE
  {
    forall a, b :: InBounds(a, b) ==>
      Pixel(g, a, b) == if InRect(a, b, x, y, w, py - y) || InRect(a, b, x, py, px - x, 1) then color & 0x0F
                        else Pixel(fb, a, b)
  }

  /** Nothing is painted before the loops start. */
  lemma FillStart(fb: seq<bv8>, color: bv8, x: int, y: int, w: int)
    requires |fb| == FRAMEBUFFER_SIZE
    ensures FillProgress(fb, fb, color, x, y, w, y, x)
  {
  }

  /** Painting pixel (px, py) moves the progress one pixel to the right. */
  lemma {:induction false} FillStep(g: seq<bv8>, fb: seq<bv8>, color: bv8, x: int, y: int, w: int, py: int, px: int)
    requires |g| == FRAMEBUFFER_SIZE && |fb| == FRAMEBUFFER_SIZE
    requires x <= px
    requires FillProgress(g, fb, color, x, y, w, py, px)
    ensures FillProgress(WithPixel(g, px, py, color), fb, color, x, y, w, py, px + 1)
  {
    var g' := WithPixel(g, px, py, color);
    forall a, b | InBounds(a, b)
      ensures Pixel(g', a, b) == if InRect(a, b, x, y, w, py - y) || InRect(a, b, x, py, px + 1 - x, 1) then color & 0x0F
                                 else Pixel(fb, a, b)
    {
      PixelAfterSet(g, px, py, color, a, b);
    }
  }

  /** The inner loop ends at the rectangle's right edge or at the grid's: the row is done. */
  lemma {:induction false} FillRowDone(g: seq<bv8>, fb: seq<bv8>, color: bv8, x: int, y: int, w: int, py: int, px: int)
    requires |g| == FRAMEBUFFER_SIZE && |fb| == FRAMEBUFFER_SIZE
    requires y <= py && x <= px <= x + w
    requires px >= x + w || px >= WIDTH
    requires FillProgress(g, fb, color, x, y, w, py, px)
    ensures FillProgress(g, fb, color, x, y, w, py + 1, x)
  {
    forall a, b | InBounds(a, b)
      ensures Pixel(g, a, b) == if InRect(a, b, x, y, w, py + 1 - y) || InRect(a, b, x, py + 1, x - x, 1) then color & 0x0F
                                else Pixel(fb, a, b)
    {
      assert InRect(a, b, x, y, w, py + 1 - y) <==> InRect(a, b, x, y, w, py - y) || InRect(a, b, x, py, px - x, 1);
    }
  }

  /** The outer loop ends at the rectangle's bottom edge or at the grid's: the fill is done. */
  lemma {:induction false} FillDone(g: seq<bv8>, fb: seq<bv8>, color: bv8, x: int, y: int, w: int, h: int, py: int)
    requires |g| == FRAMEBUFFER_SIZE && |fb| == FRAMEBUFFER_SIZE
    requires y <= py <= y + h
    requires py >= y + h || py >= HEIGHT
    requires FillProgress(g, fb, color, x, y, w, py, x)
    ensures Filled(g, fb, color, x, y, w, h)
  {
    forall a, b | InBounds(a, b)
      ensures Pixel(g, a, b) == if InRect(a, b, x, y, w, h) then color & 0x0F else Pixel(fb, a, b)
    {
      assert InRect(a, b, x, y, w, h) <==> InRect(a, b, x, y, w, py - y);
    }
  }

  /** A rectangle that starts right of or below the grid, or has no width or height,
      paints nothing: the buffer is unchanged. */
  lemma {:induction false} FillOutsideIsNoOp(g: seq<bv8>, fb: seq<bv8>, color: bv8, x: int, y: int, w: int, h: int)
    requires |g| == FRAMEBUFFER_SIZE && |fb| == FRAMEBUFFER_SIZE
    requires x >= WIDTH || y >= HEIGHT || w <= 0 || h <= 0
    requires Filled(g, fb, color, x, y, w, h)
    ensures g == fb
  {
    forall px, py | InBounds(px, py)
      ensures Pixel(g, px, py) == Pixel(fb, px, py)
    {
      assert !InRect(px, py, x, y, w, h);
    }
    PixelsDetermineBytes(g, fb);
  }

  /** A filled buffer is unique: the fill fixes every byte. */
  lemma {:induction false} FilledIsUnique(g: seq<bv8>, g': seq<bv8>, fb: seq<bv8>, color: bv8, x: int, y: int, w: int, h: int)
    requires |g| == FRAMEBUFFER_SIZE && |g'| == FRAMEBUFFER_SIZE && |fb| == FRAMEBUFFER_SIZE
    requires Filled(g, fb, color, x, y, w, h) && Filled(g', fb, color, x, y, w, h)
    ensures g == g'
  {
    forall px, py | InBounds(px, py)
      ensures Pixel(g, px, py) == Pixel(g', px, py)
    {
    }
    PixelsDetermineBytes(g, g');
  }
}

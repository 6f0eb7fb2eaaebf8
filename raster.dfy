// Pixels, pixel grids, rectangles and the RGBA canvas: the part of Go's
// image and image/draw packages that the mosaic pipeline of main.go relies on.
module Raster {

  /** Side, in pixels, of a glyph tile and of one output block (SquarePixels in main.go). */
  const SquarePixels: nat := 5

  type Byte = x: int | 0 <= x < 256

  /** An 8-bit RGBA colour with premultiplied alpha, the way image.RGBA stores a pixel. */
  datatype Rgba = Rgba(r: Byte, g: Byte, b: Byte, a: Byte)

  /** Transparent black: every pixel of a fresh image.NewRGBA or image.NewAlpha. */
  const Zero: Rgba := Rgba(0, 0, 0, 0)

  /**
   * Per-pixel brightness. The source computes it in floating point
   * (Rec. 709 weights scaled from 16 to 8 bits, then truncated); the model
   * only keeps that it is an integer in [0, 255].
   */
  type Luma = f: Rgba -> int | forall c :: 0 <= f(c) <= 255 witness (c: Rgba) => 0

  /**
   * The only source pixels the mosaic ever composites: the all-zero pixel of
   * the blank tile, or an opaque pixel of a glyph tile rendered on white.
   */
  predicate Drawable(p: Rgba) {
    p == Zero || p.a == 255
  }

  /**
   * draw.Over for a Drawable source pixel: a transparent (all-zero) source
   * leaves the destination as it is, an opaque source replaces it. Both
   * agree with Porter-Duff "over" on premultiplied 8-bit channels.
   */
  function Over(dst: Rgba, src: Rgba): (r: Rgba)
    requires Drawable(src)
    ensures r.r == src.r + dst.r * (255 - src.a) / 255
    ensures r.g == src.g + dst.g * (255 - src.a) / 255
    ensures r.b == src.b + dst.b * (255 - src.a) / 255
    ensures r.a == src.a + dst.a * (255 - src.a) / 255
  {
    if src.a == 0 then dst else src
  }

  /** An image as a value, indexed [x][y] like image.Image.At(x, y). */
  type Grid = seq<seq<Rgba>>

  predicate IsGrid(g: Grid, w: nat, h: nat) {
    |g| == w && forall x | 0 <= x < w :: |g[x]| == h
  }

  predicate AllDrawable(g: Grid) {
    forall x, y | 0 <= x < |g| && 0 <= y < |g[x]| :: Drawable(g[x][y])
  }

  predicate AllOpaque(g: Grid) {
    forall x, y | 0 <= x < |g| && 0 <= y < |g[x]| :: g[x][y].a == 255
  }

  /** The sentinel tile at brightness 0: image.NewAlpha of SquarePixels x SquarePixels, all zero. */
  function Blank(): (t: Grid)
    ensures IsGrid(t, SquarePixels, SquarePixels)
    ensures forall x, y | 0 <= x < SquarePixels && 0 <= y < SquarePixels :: t[x][y] == Zero
  {
    seq(SquarePixels, _ => seq(SquarePixels, _ => Zero))
  }

  /** A decoded source image or GIF frame whose bounds start at the origin. */
  datatype Image = Image(width: nat, height: nat, pix: Grid) {
    predicate Valid() {
      IsGrid(pix, width, height)
    }
  }

  /** image.Rectangle: the half-open box [minX, maxX) x [minY, maxY). */
  datatype Rect = Rect(minX: int, minY: int, maxX: int, maxY: int) {

    predicate Empty() {
      minX >= maxX || minY >= maxY
    }

    predicate Contains(x: int, y: int) {
      minX <= x < maxX && minY <= y < maxY
    }

    /** Rectangle.Add: the rectangle translated by (dx, dy). */
    function Add(dx: int, dy: int): Rect {
      Rect(minX + dx, minY + dy, maxX + dx, maxY + dy)
    }

    /**
     * Rectangle.Intersect: the largest rectangle inside both, or the zero
     * rectangle when they do not overlap.
     */
    function Intersect(s: Rect): (r: Rect)
      ensures forall x, y :: r.Contains(x, y) <==> Contains(x, y) && s.Contains(x, y)
      ensures r.minX <= r.maxX && r.minY <= r.maxY
    {
      var c := Rect(Max(minX, s.minX), Max(minY, s.minY), Min(maxX, s.maxX), Min(maxY, s.maxY));
      if c.Empty() then Rect(0, 0, 0, 0) else c
    }
  }

  function Min(a: int, b: int): int { if a <= b then a else b }
  function Max(a: int, b: int): int { if a >= b then a else b }

  /**
   * The pixels that draw.Draw(dst, r, tile, image.Point{}, op) touches when
   * dst has the given bounds and the tile has bounds (0, 0)-(tw, th): r
   * clipped to dst and to the tile placed at r's top-left corner.
   */
  function Clip(bounds: Rect, r: Rect, tw: nat, th: nat): (c: Rect)
    ensures forall x, y :: c.Contains(x, y) <==>
      && bounds.Contains(x, y) && r.Contains(x, y)
      && 0 <= x - r.minX < tw && 0 <= y - r.minY < th
  {
    r.Intersect(bounds).Intersect(Rect(0, 0, tw, th).Add(r.minX, r.minY))
  }

  /** An image.RGBA that the compositor draws into in place. */
  class Canvas {
    const width: nat
    const height: nat
    const pix: array2<Rgba>

    ghost predicate Valid()
      reads this
    {
      pix.Length0 == width && pix.Length1 == height
    }

    function Bounds(): Rect
      reads this
    {
      Rect(0, 0, width, height)
    }

    /** image.NewRGBA(image.Rect(0, 0, w, h)): every pixel starts as Zero. */
    constructor (w: nat, h: nat)
      ensures Valid() && width == w && height == h && fresh(pix)
      ensures forall x, y | 0 <= x < w && 0 <= y < h :: pix[x, y] == Zero
    {
      width, height := w, h;
      pix := new Rgba[w, h]((_, _) => Zero);
    }

    /** The canvas contents as a value. */
    function Snapshot(): (g: Grid)
      requires Valid()
      reads this, pix
      ensures IsGrid(g, width, height)
      ensures forall x, y | 0 <= x < width && 0 <= y < height :: g[x][y] == pix[x, y]
    {
      seq(width, x requires 0 <= x < width reads pix =>
        seq(height, y requires 0 <= y < height reads pix => pix[x, y]))
    }

    /**
     * draw.Draw(canvas, r, tile, image.Point{}, draw.Over): every pixel of
     * the clipped rectangle is composited with the tile pixel at the same
     * offset from r's top-left corner; nothing else changes.
     */
    method DrawOver(r: Rect, tile: Grid, tw: nat, th: nat)
      requires Valid() && IsGrid(tile, tw, th) && AllDrawable(tile)
      modifies pix
      ensures forall x, y | 0 <= x < width && 0 <= y < height ::
        pix[x, y] == if Clip(Bounds(), r, tw, th).Contains(x, y)
                     then Over(old(pix[x, y]), tile[x - r.minX][y - r.minY])
                     else old(pix[x, y])
    {
      var c := Clip(Bounds(), r, tw, th);
      var x := c.minX;
      while x < c.maxX
        invariant c.minX <= x <= c.maxX
        invariant forall px, py | 0 <= px < width && 0 <= py < height ::
          pix[px, py] == if c.Contains(px, py) && px < x
                         then Over(old(pix[px, py]), tile[px - r.minX][py - r.minY])
                         else old(pix[px, py])
      {
        var y := c.minY;
        while y < c.maxY
          invariant c.minY <= y <= c.maxY
          invariant forall px, py | 0 <= px < width && 0 <= py < height ::
            pix[px, py] == if c.Contains(px, py) && (px < x || (px == x && py < y))
                           then Over(old(pix[px, py]), tile[px - r.minX][py - r.minY])
                           else old(pix[px, py])
        {
          assert c.Contains(x, y);
          pix[x, y] := Over(pix[x, y], tile[x - r.minX][y - r.minY]);
          y := y + 1;
        }
        x := x + 1;
      }
    }
  }
}

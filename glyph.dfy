// The glyph rasterizer (loadChar in main.go): places a character in a tile
// and measures the tile's average brightness. The font itself (glyph
// metrics and the drawing of the glyph) is a collaborator passed in as a Face.
module Glyph {
  import opened Raster

  datatype Option<T> = None | Some(value: T)

  datatype Point = Point(x: int, y: int)

  /** What face.GlyphBounds reports for a glyph, in 26.6 fixed-point units. */
  datatype GlyphMetrics = GlyphMetrics(minY: int, maxY: int, advance: int)

  /**
   * The font at the configured size: the glyph metrics of a character
   * (None when the font has no such glyph), and the tile that drawing the
   * character in black at a given origin onto a white tile produces.
   */
  datatype Face = Face(glyphBounds: char -> Option<GlyphMetrics>, drawString: (char, Point) -> Grid)

  /** Drawing onto a white w x h tile always yields a w x h tile of opaque pixels. */
  ghost predicate RendersOpaqueTiles(font: Face, w: nat, h: nat) {
    forall c, p :: IsGrid(font.drawString(c, p), w, h) && AllOpaque(font.drawString(c, p))
  }

  /** A successfully loaded character: its measured brightness and its tile. */
  datatype Glyph = Glyph(gray: int, tile: Grid)

  /**
   * Integer division rounding toward zero, as Go's `/` on ints and as
   * int(float64(a) / 64) for the 26.6 metrics (the quotient of an integer
   * by 64 is exact in float64).
   */
  function TruncDiv(a: int, b: int): (q: int)
    requires b > 0
    ensures 0 <= a ==> 0 <= a - q * b < b
    ensures a < 0 ==> -b < a - q * b <= 0
  {
    if a >= 0 then a / b else -((-a) / b)
  }

  /**
   * Width the glyph is centred by (iWidth in main.go): its advance, in
   * whole pixels rounded toward zero.
   */
  function InkWidth(m: GlyphMetrics): (w: int)
    ensures m.advance >= 0 ==> 0 <= m.advance - 64 * w < 64
    ensures m.advance < 0 ==> -64 < m.advance - 64 * w <= 0
  {
    TruncDiv(m.advance, 64)
  }

  /**
   * Height the glyph is centred by (iHeight in main.go): the rows from
   * the top to the bottom of its bounds, both counted, each bound rounded
   * toward zero to whole pixels.
   */
  function InkHeight(m: GlyphMetrics): (h: int)
    ensures -128 < (m.maxY - m.minY) - 64 * (h - 1) < 128
    ensures m.minY <= m.maxY ==> h >= 1
  {
    TruncMonotone(m.minY, m.maxY, 64);
    TruncDiv(m.maxY, 64) - TruncDiv(m.minY, 64) + 1
  }

  /** Rounding toward zero keeps the order of the dividends. */
  lemma TruncMonotone(a: int, b: int, n: int)
    requires n > 0
    ensures a <= b ==> TruncDiv(a, n) <= TruncDiv(b, n)
  {
    var qa, qb := TruncDiv(a, n), TruncDiv(b, n);
    if a <= b && qa > qb {
      assert (qa - qb) * n >= n by { MulAtLeast(qa - qb, n); }
      assert qa * n - qb * n == (qa - qb) * n;
      if a >= 0 {
      } else if b < 0 {
      } else {
        assert qa * n < n;
        assert qb * n > -n;
        MulAtLeast(qa, n);
      }
    }
  }

  lemma MulAtLeast(d: int, n: int)
    requires n > 0
    ensures d >= 1 ==> d * n >= n
    ensures d <= 0 ==> d * n <= 0
  {
  }

  /**
   * The origin at which the glyph is drawn. The box InkWidth wide and
   * InkHeight high whose bottom edge lies on the baseline p.y is centred in
   * the tile horizontally and vertically, up to one pixel; when it fits,
   * the odd pixel of margin goes to the right and to the bottom. This box is
   * the advance and the row count of the bounds, not where the ink lands:
   * the bounds are measured downward from the origin.
   */
  function GlyphOrigin(width: int, height: int, m: GlyphMetrics): (p: Point)
    ensures -1 <= (width - InkWidth(m) - p.x) - p.x <= 1
    ensures width >= InkWidth(m) ==> 0 <= (width - InkWidth(m) - p.x) - p.x <= 1
    ensures -1 <= (height - p.y) - (p.y - InkHeight(m)) <= 1
    ensures height >= InkHeight(m) ==> 0 <= (height - p.y) - (p.y - InkHeight(m)) <= 1
  {
    var iHeight := InkHeight(m);
    var iWidth := InkWidth(m);
    Point(TruncDiv(width - iWidth, 2), TruncDiv(height - iHeight, 2) + iHeight)
  }

  /** Sum of the brightness of the first h pixels of a column. */
  function ColumnLuma(col: seq<Rgba>, luma: Luma, h: nat): (s: int)
    requires h <= |col|
    ensures 0 <= s <= 255 * h
  {
    if h == 0 then 0 else ColumnLuma(col, luma, h - 1) + luma(col[h - 1])
  }

  /** Sum of the brightness of the pixels of the first w columns of a w' x h grid. */
  function GridLuma(g: Grid, luma: Luma, w: nat, h: nat): (s: int)
    requires w <= |g| && forall x | 0 <= x < w :: h <= |g[x]|
    ensures 0 <= s <= 255 * (w * h)
  {
    if w == 0 then 0
    else
      var s := GridLuma(g, luma, w - 1, h) + ColumnLuma(g[w - 1], luma, h);
      MulStep(255, w, h);
      s
  }

  /** One more column of h pixels of value v adds v * h. */
  lemma MulStep(v: int, w: int, h: int)
    ensures v * ((w - 1) * h) + v * h == v * (w * h)
  {
    assert (w - 1) * h == w * h - h;
    assert v * (w * h - h) == v * (w * h) - v * h;
  }

  lemma DivBound(s: int, n: int)
    requires n > 0 && 0 <= s <= 255 * n
    ensures 0 <= s / n <= 255
  {
  }

  /**
   * The brightness of a w x h tile: the truncated per-pixel brightness summed
   * over every pixel, divided by the number of pixels.
   */
  function MeanLuma(tile: Grid, luma: Luma, w: nat, h: nat): (r: int)
    requires w > 0 && h > 0 && IsGrid(tile, w, h)
    ensures 0 <= r <= 255
  {
    var s := GridLuma(tile, luma, w, h);
    DivBound(s, w * h);
    s / (w * h)
  }

  lemma {:induction false} ColumnOfUniform(col: seq<Rgba>, luma: Luma, h: nat, v: int)
    requires h <= |col| && forall y | 0 <= y < h :: luma(col[y]) == v
    ensures ColumnLuma(col, luma, h) == v * h
  {
    if h > 0 {
      ColumnOfUniform(col, luma, h - 1, v);
    }
  }

  lemma {:induction false} GridOfUniform(g: Grid, luma: Luma, w: nat, h: nat, v: int)
    requires w <= |g| && forall x | 0 <= x < w :: h <= |g[x]|
    requires forall x, y | 0 <= x < w && 0 <= y < h :: luma(g[x][y]) == v
    ensures GridLuma(g, luma, w, h) == v * (w * h)
  {
    if w > 0 {
      GridOfUniform(g, luma, w - 1, h, v);
      ColumnOfUniform(g[w - 1], luma, h, v);
      MulStep(v, w, h);
    }
  }

  /** A tile whose pixels all have the same brightness v has brightness v. */
  lemma MeanOfUniform(tile: Grid, luma: Luma, w: nat, h: nat, v: int)
    requires w > 0 && h > 0 && IsGrid(tile, w, h)
    requires forall x, y | 0 <= x < w && 0 <= y < h :: luma(tile[x][y]) == v
    ensures MeanLuma(tile, luma, w, h) == v
  {
    GridOfUniform(tile, luma, w, h, v);
    MulDivCancel(v, w * h);
  }

  lemma MulDivCancel(v: int, n: int)
    requires n > 0
    ensures v * n / n == v
  {
    var q, r := v * n / n, v * n % n;
    assert (v - q) * n == r;
    if v - q >= 1 {
    } else if v - q <= -1 {
    }
  }

  /** What loadChar yields for a character: nothing when the font lacks the glyph. */
  ghost function Rasterize(c: char, w: nat, h: nat, font: Face, luma: Luma): (r: Option<Glyph>)
    requires w > 0 && h > 0 && RendersOpaqueTiles(font, w, h)
    ensures r.None? <==> font.glyphBounds(c).None?
    ensures r.Some? ==> 0 <= r.value.gray <= 255 && IsGrid(r.value.tile, w, h) && AllOpaque(r.value.tile)
  {
    match font.glyphBounds(c)
    case None => None
    case Some(m) =>
      var tile := font.drawString(c, GlyphOrigin(w, h, m));
      Some(Glyph(MeanLuma(tile, luma, w, h), tile))
  }

  /**
   * loadChar: give up when the font has no metrics for the character;
   * otherwise draw it at the centring origin and average the brightness of
   * the tile column by column.
   */
  method LoadChar(c: char, width: nat, height: nat, font: Face, luma: Luma) returns (g: Option<Glyph>)
    requires width > 0 && height > 0 && RendersOpaqueTiles(font, width, height)
    ensures g.None? <==> font.glyphBounds(c).None?
    ensures g.Some? ==> && g.value.tile == font.drawString(c, GlyphOrigin(width, height, font.glyphBounds(c).value))
                        && g.value.gray == MeanLuma(g.value.tile, luma, width, height)
                        && 0 <= g.value.gray <= 255
    ensures g == Rasterize(c, width, height, font, luma)
  {
    var bounds := font.glyphBounds(c);
    if bounds.None? {
      return None;
    }
    var pt := GlyphOrigin(width, height, bounds.value);
    var img := font.drawString(c, pt);
    var grayPixSum := 0;
    for i := 0 to width
      invariant grayPixSum == GridLuma(img, luma, i, height)
    {
      for j := 0 to height
        invariant grayPixSum == GridLuma(img, luma, i, height) + ColumnLuma(img[i], luma, j)
      {
        grayPixSum := grayPixSum + luma(img[i][j]);
      }
    }
    g := Some(Glyph(grayPixSum / (width * height), img));
  }
}

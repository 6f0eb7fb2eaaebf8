// The mosaic compositor: makePng and the per-frame loop of makeGif in
// main.go. Every source pixel is replaced by the atlas tile whose
// brightness is nearest to its own, drawn into a SquarePixels-times larger canvas.
module Mosaic {
  import opened Raster
  import opened Resolver
  import opened LumaAtlas

  /**
   * The canvas pixels written for source pixel (i, j): the source bounds
   * moved to (i * SquarePixels, j * SquarePixels) and clipped to the tile,
   * so a full tile only when the source is at least a tile wide and high.
   */
  function Block(src: Image, i: int, j: int): (r: Rect)
    ensures forall x, y | r.Contains(x, y) :: x / SquarePixels == i && y / SquarePixels == j
  {
    Rect(i * SquarePixels, j * SquarePixels,
         i * SquarePixels + Min(src.width, SquarePixels), j * SquarePixels + Min(src.height, SquarePixels))
  }

  /** The key whose tile stands for source pixel (i, j). */
  function KeyOf(src: Image, keys: seq<int>, luma: Luma, i: nat, j: nat): (k: int)
    requires src.Valid() && i < src.width && j < src.height && |keys| > 0
    ensures k in keys
  {
    NearestOf(keys, luma(src.pix[i][j]))
  }

  /** The output canvas pixel (x, y) that the compositor produces. */
  ghost function MosaicAt(src: Image, tiles: map<int, Grid>, keys: seq<int>, luma: Luma, x: int, y: int): (p: Rgba)
    requires src.Valid() && WellFormedAtlas(tiles, keys)
    requires 0 <= x < src.width * SquarePixels && 0 <= y < src.height * SquarePixels
    ensures Drawable(p)
  {
    var i, j := x / SquarePixels, y / SquarePixels;
    assert 0 in keys;
    if Block(src, i, j).Contains(x, y)
    then tiles[KeyOf(src, keys, luma, i, j)][x - i * SquarePixels][y - j * SquarePixels]
    else Zero
  }

  /** The whole output canvas as a value. */
  ghost function MosaicGrid(src: Image, tiles: map<int, Grid>, keys: seq<int>, luma: Luma): (g: Grid)
    requires src.Valid() && WellFormedAtlas(tiles, keys)
    ensures IsGrid(g, src.width * SquarePixels, src.height * SquarePixels)
    ensures forall x, y | 0 <= x < src.width * SquarePixels && 0 <= y < src.height * SquarePixels ::
      g[x][y] == MosaicAt(src, tiles, keys, luma, x, y)
  {
    seq(src.width * SquarePixels, x requires 0 <= x < src.width * SquarePixels =>
      seq(src.height * SquarePixels, y requires 0 <= y < src.height * SquarePixels =>
        MosaicAt(src, tiles, keys, luma, x, y)))
  }

  /** Blocks of distinct source pixels do not overlap. */
  lemma BlocksDisjoint(src: Image, i: int, j: int, i': int, j': int, x: int, y: int)
    requires (i, j) != (i', j')
    ensures !(Block(src, i, j).Contains(x, y) && Block(src, i', j').Contains(x, y))
  {
  }

  /** draw.Draw's clipping of the rectangle drawn for source pixel (i, j) leaves exactly its block. */
  lemma BlockClip(src: Image, i: int, j: int)
    requires 0 <= i < src.width && 0 <= j < src.height
    ensures Clip(Rect(0, 0, src.width * SquarePixels, src.height * SquarePixels),
                 Rect(0, 0, src.width, src.height).Add(i * SquarePixels, j * SquarePixels),
                 SquarePixels, SquarePixels)
            == Block(src, i, j)
  {
  }

  /** Inside its block, source pixel (i, j) shows the resolved tile. */
  lemma BlockPixel(src: Image, tiles: map<int, Grid>, keys: seq<int>, luma: Luma, i: nat, j: nat, dx: nat, dy: nat)
    requires src.Valid() && WellFormedAtlas(tiles, keys)
    requires i < src.width && j < src.height && dx < Min(src.width, SquarePixels) && dy < Min(src.height, SquarePixels)
    ensures 0 in keys
    ensures MosaicAt(src, tiles, keys, luma, i * SquarePixels + dx, j * SquarePixels + dy)
            == tiles[KeyOf(src, keys, luma, i, j)][dx][dy]
  {
    assert Block(src, i, j).Contains(i * SquarePixels + dx, j * SquarePixels + dy);
  }

  /** A canvas pixel outside every block stays zero. */
  lemma OutsideBlocks(src: Image, tiles: map<int, Grid>, keys: seq<int>, luma: Luma, x: int, y: int)
    requires src.Valid() && WellFormedAtlas(tiles, keys)
    requires 0 <= x < src.width * SquarePixels && 0 <= y < src.height * SquarePixels
    requires forall i, j | 0 <= i < src.width && 0 <= j < src.height :: !Block(src, i, j).Contains(x, y)
    ensures MosaicAt(src, tiles, keys, luma, x, y) == Zero
  {
    var i, j := x / SquarePixels, y / SquarePixels;
    assert !Block(src, i, j).Contains(x, y);
  }

  /** A block whose resolved tile is the blank tile stays zero. */
  lemma BlankBlock(src: Image, tiles: map<int, Grid>, keys: seq<int>, luma: Luma, i: nat, j: nat)
    requires src.Valid() && WellFormedAtlas(tiles, keys)
    requires i < src.width && j < src.height && 0 in keys
    requires tiles[KeyOf(src, keys, luma, i, j)] == Blank()
    ensures forall x, y | Block(src, i, j).Contains(x, y) ::
      0 <= x < src.width * SquarePixels && 0 <= y < src.height * SquarePixels &&
      MosaicAt(src, tiles, keys, luma, x, y) == Zero
  {
    forall x, y | Block(src, i, j).Contains(x, y)
      ensures 0 <= x < src.width * SquarePixels && 0 <= y < src.height * SquarePixels
      ensures MosaicAt(src, tiles, keys, luma, x, y) == Zero
    {
      BlockPixel(src, tiles, keys, luma, i, j, x - i * SquarePixels, y - j * SquarePixels);
    }
  }

  /** When the font provides no glyph at all, the whole canvas stays zero. */
  lemma NoGlyphsBlankCanvas(src: Image, font: Glyph.Face, luma: Luma, keys: seq<int>, x: int, y: int)
    requires TileFont(font)
    requires forall c | c in Charters :: font.glyphBounds(c).None?
    requires src.Valid() && WellFormedAtlas(AtlasOf(Charters, font, luma), keys)
    requires 0 <= x < src.width * SquarePixels && 0 <= y < src.height * SquarePixels
    ensures MosaicAt(src, AtlasOf(Charters, font, luma), keys, luma, x, y) == Zero
  {
    NoGlyphsOnlyBlank(Charters, font, luma);
    var tiles := AtlasOf(Charters, font, luma);
    var i, j := x / SquarePixels, y / SquarePixels;
    if Block(src, i, j).Contains(x, y) {
      assert KeyOf(src, keys, luma, i, j) in tiles;
      BlankBlock(src, tiles, keys, luma, i, j);
    }
  }

  /**
   * The cell of source pixel (i, j): inside its block, the resolved tile
   * drawn over a zero pixel; elsewhere zero.
   */
  lemma CellPixels(src: Image, tiles: map<int, Grid>, keys: seq<int>, luma: Luma, i: nat, j: nat)
    requires src.Valid() && WellFormedAtlas(tiles, keys)
    requires i < src.width && j < src.height
    ensures 0 in keys
    ensures forall x, y | && 0 <= x < src.width * SquarePixels && 0 <= y < src.height * SquarePixels
                          && x / SquarePixels == i && y / SquarePixels == j ::
      MosaicAt(src, tiles, keys, luma, x, y) ==
        if Block(src, i, j).Contains(x, y)
        then Over(Zero, tiles[KeyOf(src, keys, luma, i, j)][x - i * SquarePixels][y - j * SquarePixels])
        else Zero
  {
  }

  /** Composite pixel (x, y) has been drawn once block (x / T, y / T) precedes (i, j) in scan order. */
  predicate Done(x: int, y: int, i: int, j: int) {
    x / SquarePixels < i || (x / SquarePixels == i && y / SquarePixels < j)
  }

  /** Every pixel of cells before (i, j) in scan order holds its mosaic pixel; every other pixel is zero. */
  ghost predicate Drawn(canvas: Canvas, src: Image, tiles: map<int, Grid>, keys: seq<int>, luma: Luma, i: int, j: int)
    requires src.Valid() && WellFormedAtlas(tiles, keys)
    reads canvas, canvas.pix
  {
    && canvas.Valid()
    && canvas.width == src.width * SquarePixels && canvas.height == src.height * SquarePixels
    && forall x, y | 0 <= x < canvas.width && 0 <= y < canvas.height ::
         canvas.pix[x, y] == if Done(x, y, i, j) then MosaicAt(src, tiles, keys, luma, x, y) else Zero
  }

  /** Finishing the last cell of column i is starting column i + 1. */
  lemma NextColumn(canvas: Canvas, src: Image, tiles: map<int, Grid>, keys: seq<int>, luma: Luma, i: int)
    requires src.Valid() && WellFormedAtlas(tiles, keys)
    requires Drawn(canvas, src, tiles, keys, luma, i, src.height)
    ensures Drawn(canvas, src, tiles, keys, luma, i + 1, 0)
  {
    forall x, y | 0 <= x < canvas.width && 0 <= y < canvas.height
      ensures Done(x, y, i, src.height) == Done(x, y, i + 1, 0)
    {
      assert y / SquarePixels < src.height;
    }
  }

  /**
   * One step of the inner loop of makePng: resolve the brightness of source
   * pixel (i, j) to an atlas key and draw that key's tile over the canvas at
   * the source bounds moved to the pixel's block.
   */
  method DrawCell(canvas: Canvas, src: Image, atlas: Atlas, luma: Luma, i: nat, j: nat)
    requires src.Valid() && atlas.Valid() && i < src.width && j < src.height
    requires Drawn(canvas, src, atlas.mapped, atlas.mappedKeys, luma, i, j)
    modifies canvas.pix
    ensures Drawn(canvas, src, atlas.mapped, atlas.mappedKeys, luma, i, j + 1)
  {
    var key := Resolve(atlas.mappedKeys, luma(src.pix[i][j]));
    var r := Rect(0, 0, src.width, src.height).Add(i * SquarePixels, j * SquarePixels);
    BlockClip(src, i, j);
    CellPixels(src, atlas.mapped, atlas.mappedKeys, luma, i, j);
    canvas.DrawOver(r, atlas.mapped[key], SquarePixels, SquarePixels);
    forall x, y | 0 <= x < canvas.width && 0 <= y < canvas.height
      ensures canvas.pix[x, y] ==
        if Done(x, y, i, j + 1) then MosaicAt(src, atlas.mapped, atlas.mappedKeys, luma, x, y) else Zero
    {
      if x / SquarePixels == i && y / SquarePixels == j {
        assert old(canvas.pix[x, y]) == Zero;
      } else {
        assert !Block(src, i, j).Contains(x, y);
      }
    }
  }

  /**
   * The body of makePng, and of makeGif for one frame: a zeroed canvas
   * SquarePixels times the source size, then every source pixel drawn,
   * column by column.
   */
  method Compose(src: Image, atlas: Atlas, luma: Luma) returns (canvas: Canvas)
    requires src.Valid() && atlas.Valid()
    ensures fresh(canvas) && fresh(canvas.pix) && canvas.Valid()
    ensures canvas.width == src.width * SquarePixels && canvas.height == src.height * SquarePixels
    ensures forall x, y | 0 <= x < canvas.width && 0 <= y < canvas.height ::
      canvas.pix[x, y] == MosaicAt(src, atlas.mapped, atlas.mappedKeys, luma, x, y)
  {
    canvas := new Canvas(src.width * SquarePixels, src.height * SquarePixels);
    for i := 0 to src.width
      invariant fresh(canvas.pix)
      invariant Drawn(canvas, src, atlas.mapped, atlas.mappedKeys, luma, i, 0)
    {
      for j := 0 to src.height
        invariant Drawn(canvas, src, atlas.mapped, atlas.mappedKeys, luma, i, j)
      {
        DrawCell(canvas, src, atlas, luma, i, j);
      }
      NextColumn(canvas, src, atlas.mapped, atlas.mappedKeys, luma, i);
    }
    forall x, y | 0 <= x < canvas.width && 0 <= y < canvas.height
      ensures Done(x, y, src.width, 0)
    {
      assert x / SquarePixels < src.width;
    }
  }

  /** An animated output: its frames and the per-frame delays. */
  datatype Gif = Gif(image: seq<Grid>, delay: seq<int>)

  /**
   * makeGif: compose every input frame in order, reduce it to the output
   * palette (quantize, the library's palette matching) and append it with a
   * delay of 1.
   */
  method MakeGif(frames: seq<Image>, atlas: Atlas, luma: Luma, quantize: Grid -> Grid) returns (out: Gif)
    requires atlas.Valid()
    requires forall n | 0 <= n < |frames| :: frames[n].Valid()
    ensures |out.image| == |frames| && |out.delay| == |frames|
    ensures forall n | 0 <= n < |frames| :: out.delay[n] == 1
    ensures forall n | 0 <= n < |frames| ::
      out.image[n] == quantize(MosaicGrid(frames[n], atlas.mapped, atlas.mappedKeys, luma))
  {
    out := Gif([], []);
    for n := 0 to |frames|
      invariant |out.image| == n && |out.delay| == n
      invariant forall m | 0 <= m < n :: out.delay[m] == 1
      invariant forall m | 0 <= m < n ::
        out.image[m] == quantize(MosaicGrid(frames[m], atlas.mapped, atlas.mappedKeys, luma))
    {
      var newImg := Compose(frames[n], atlas, luma);
      var pixels := newImg.Snapshot();
      ghost var expected := MosaicGrid(frames[n], atlas.mapped, atlas.mappedKeys, luma);
      forall x | 0 <= x < |pixels|
        ensures pixels[x] == expected[x]
      {
        assert forall y | 0 <= y < |pixels[x]| :: pixels[x][y] == expected[x][y];
      }
      assert pixels == expected;
      out := out.(image := out.image + [quantize(pixels)], delay := out.delay + [1]);
    }
  }
}

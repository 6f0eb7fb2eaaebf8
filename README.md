# Glyph mosaic: a verified model of the pixel converter

The program turns a PNG image or the frames of an animated GIF into a
mosaic of character glyphs. It renders every character of a fixed
character set into a 5 x 5 tile and measures the tile's average
brightness. It keeps one tile per brightness in an atlas seeded with a
blank tile at brightness 0. Then it replaces every source pixel by the
tile whose brightness is nearest to the pixel's own.

The model covers the integer core of `main.go`, one module per component:

- `Raster` (raster.dfy): pixels, grids, rectangles with Go's
  `Rectangle.Intersect`, and the output canvas (`image.RGBA`) as a class
  over a two-dimensional array. `Canvas.DrawOver` is `draw.Draw(..., draw.Over)`
  with Go's clipping of the destination rectangle to the canvas and to the tile.
- `Resolver` (resolver.dfy): the nearest-key scan, once, as a method with
  its loop. It is proved against a declarative "nearest, ties go to the larger
  key" predicate and against an independent fold (`NearestOf`).
- `Glyph` (glyph.dfy): `loadChar`. It covers the missing-glyph path, the
  centring origin with Go's truncating division, and the column-by-column
  brightness sum divided by the pixel count.
- `LumaAtlas` (atlas.dfy): the atlas build of `main`. The map starts as
  `{0: blank}` and every loaded character overwrites its brightness. Then the
  keys are collected in the map's unspecified order and sorted.
- `Mosaic` (mosaic.dfy): the compositor shared by `makePng` and the frame
  loop of `makeGif`, and the frame sequencing of `makeGif`.

Collaborators are parameters. The per-pixel brightness is a `Luma`, any
function from colour to an integer in [0, 255]. The font is a `Face`: glyph
metrics, or none when the glyph is missing, and the tile that drawing a
character at an origin produces. That tile must be opaque, because it is
drawn on a white background. GIF palette reduction is a `quantize` function.

Two behaviours of `main.go` are easy to misread, and the model keeps both:

- The blank tile at brightness 0 is overwritten by a glyph whose brightness
  is 0 (`AtlasEntry`, `BlankSurvives`).
- A block of the output is not always a full tile. `draw.Draw` receives the
  source image's bounds moved to the block, so the block is
  `min(W, 5) x min(H, 5)` and the rest of the tile area stays zero.

## Model

| member | source | states |
|---|---|---|
| Resolver.Resolve | main.go:91-108 | for strictly ascending keys containing 0 and a brightness y >= 0, the scan returns a key no other key is strictly nearer to y than, the larger of two equally near keys, and the same key as the reference fold |
| Resolver.NearestOf | main.go:91-108 | the reference fold always returns one of the keys |
| Resolver.NearestOfIsNearest | main.go:93-104 | the reference fold returns the nearest key, the larger one on a tie, whatever the key order |
| Resolver.NearestUnique | main.go:99-101 | nearest with ties going up determines a single key |
| Resolver.Bracketed | main.go:94-103 | when y lies between two neighbouring keys, the upper key is chosen unless it is strictly farther than the lower |
| Resolver.AboveAll | main.go:106-107 | when no key exceeds y, the last key visited is the nearest |
| Resolver.AboveMaximum | main.go:106-107 | a brightness at or above every key resolves to the largest key |
| Resolver.ZeroResolvesToZero | main.go:91-108 | brightness 0 resolves to key 0 whenever 0 is a key |
| Resolver.ThreeKeys | main.go:91-108 | with keys 0, 30, 200: 15 resolves up to 30 on the tie, 5 to 0, 250 to 200 |
| Glyph.TruncDiv | main.go:236-242 | the quotient rounds toward zero: the remainder has the sign of the dividend and is smaller than the divisor |
| Glyph.InkWidth | main.go:240 | the advance in whole pixels, rounded toward zero |
| Glyph.InkHeight | main.go:236-238 | the rows spanned by the glyph bounds, within 128 units of their 26.6 height, and at least one when the bounds are ordered |
| Glyph.TruncMonotone | main.go:236-237 | rounding toward zero keeps the order of the dividends |
| Glyph.GlyphOrigin | main.go:236-242 | the box iWidth wide and iHeight high whose bottom edge is the baseline is centred in the tile to within one pixel both ways, with the odd pixel on the right and bottom when it fits |
| Glyph.ColumnLuma | main.go:248-255 | the brightness sum of h pixels lies in [0, 255 h] |
| Glyph.GridLuma | main.go:246-256 | the brightness sum of a w x h tile lies in [0, 255 w h] |
| Glyph.MeanLuma | main.go:258 | the tile brightness lies in [0, 255] |
| Glyph.MeanOfUniform | main.go:246-258 | a tile whose pixels all have brightness v has brightness v |
| Glyph.Rasterize | main.go:211-259 | loadChar as a value: nothing exactly when the font lacks the glyph; otherwise an opaque tile of the requested size and a brightness in [0, 255] |
| Glyph.LoadChar | main.go:211-259 | no glyph exactly when the font has no metrics for the character; otherwise the tile drawn at the centring origin and its mean brightness, in [0, 255] |
| LumaAtlas.AtlasOf | main.go:47-55 | the atlas after loading a sequence of characters in order onto {0: blank}: key 0 is present and every key is a brightness in [0, 255] |
| LumaAtlas.AtlasStep | main.go:51-55 | loading one more character overwrites the atlas at its glyph's brightness, and leaves it as it is when the glyph is missing |
| LumaAtlas.LastAt | main.go:51-55 | finds the last character of the set whose glyph loads at a given brightness, or reports that none does |
| LumaAtlas.AtlasEntry | main.go:47-55 | a brightness is a key exactly when it is 0 or some character loads at it; its tile is the last such character's tile, and the blank tile if there is none |
| LumaAtlas.BlankSurvives | main.go:48-55 | key 0 keeps the blank tile exactly when no character's glyph has brightness 0 |
| LumaAtlas.NoGlyphsOnlyBlank | main.go:51-55 | when the font has none of the glyphs, the atlas is exactly {0: blank} |
| LumaAtlas.AtlasTiles | main.go:48-53 | every atlas tile is a 5 x 5 grid of pixels that are all zero or all opaque |
| LumaAtlas.CollectKeys | main.go:58-60 | the collected keys are exactly the map's keys, each once |
| LumaAtlas.InsertAt | main.go:61 | inserting an element after the smaller ones keeps a sorted sequence sorted and adds exactly that element |
| LumaAtlas.SortInts | main.go:61 | the result is sorted and a permutation of the input |
| LumaAtlas.SortedDistinct | main.go:58-61 | sorted keys without duplicates are strictly ascending |
| LumaAtlas.Atlas.Build | main.go:47-61 | the map is the atlas of the character set, the key list is strictly ascending with exactly the map's keys, and key 0 is present |
| Raster.Blank | main.go:48 | the blank tile is 5 x 5 and all zero |
| Raster.Over | main.go:178 | draw.Over on one pixel agrees with Porter-Duff "over" on premultiplied 8-bit channels: a zero source keeps the destination, an opaque one replaces it |
| Raster.Clip | main.go:178 | the pixels draw.Draw touches are exactly those in the destination bounds, in the target rectangle, and within the tile's size from its top-left corner |
| Raster.Rect.Intersect | main.go:178 | the intersection holds exactly the points of both rectangles |
| Raster.Canvas.constructor | main.go:147 | a new canvas has the requested size and every pixel zero |
| Raster.Canvas.DrawOver | main.go:178 | pixels of the clipped rectangle become the tile pixel drawn over them; every other pixel is unchanged |
| Mosaic.Block | main.go:178 | every pixel of the block drawn for source pixel (i, j) lies in tile cell (i, j) |
| Mosaic.MosaicAt | main.go:147-179 | every output pixel is either zero or opaque |
| Mosaic.MosaicGrid | main.go:147-179 | the output image as a value, (5 W) x (5 H), holding the mosaic pixel at every position |
| Mosaic.CellPixels | main.go:149-178 | in the cell of source pixel (i, j), the mosaic pixel is the resolved tile drawn over zero inside the block, and zero elsewhere |
| Mosaic.BlocksDisjoint | main.go:149-178 | the blocks of two distinct source pixels share no canvas pixel |
| Mosaic.BlockClip | main.go:178 | clipping the moved source bounds to the canvas and the tile leaves the block of size min(W, 5) x min(H, 5) at (5 i, 5 j) |
| Mosaic.BlockPixel | main.go:149-178 | each pixel of the block of source pixel (i, j) equals the pixel of the tile resolved for that source pixel's brightness |
| Mosaic.OutsideBlocks | main.go:147-178 | a canvas pixel in no block stays zero |
| Mosaic.BlankBlock | main.go:178 | a block whose resolved tile is the blank tile stays zero |
| Mosaic.NoGlyphsBlankCanvas | main.go:47-179 | when the font has none of the glyphs, every canvas pixel stays zero |
| Mosaic.DrawCell | main.go:151-178 | drawing source pixel (i, j) extends the finished part of the canvas by its cell, in scan order, and leaves the rest zero |
| Mosaic.Compose | main.go:147-179 | the canvas is (5 W) x (5 H) and each of its pixels is the mosaic pixel: the resolved tile inside a block, zero elsewhere |
| Mosaic.MakeGif | main.go:79-118 | one output frame per input frame in input order, each the quantized mosaic of its frame, and one delay of 1 per frame |

## Left out

- File and codec I/O: reading the font file, parsing it, opening and decoding the PNG and GIF inputs, and encoding and writing the outputs are library calls outside the model.
- Glyph rendering and metrics: `face.GlyphBounds` and `fc.DrawString` are font-library calls. They are the `Face` parameter, and the point size and DPI are part of it.
- Floating-point luma: the Rec. 709 weighting, scaling and truncation are replaced by a `Luma` parameter with values in [0, 255].
- GIF palette reduction onto the web-safe palette plus a transparent entry is the library's colour matching. It is the `quantize` parameter.
- Raster.Over: only two kinds of source pixel are modelled, all-zero and opaque. Those are the only ones the blank tile and glyph tiles on a white background contain. Porter-Duff blending for partial alpha, and Go's 16-bit intermediate arithmetic, are not modelled.
- Glyph.GlyphOrigin: the ensures centre the box iWidth wide and iHeight high resting on the baseline, which is what the code centres. The glyph's ink is drawn relative to the origin with y growing downward, so it sits iMaxY + 1 rows lower than that box. A glyph with a descender is therefore not centred. Where the ink lands is the font library's business and is not modelled.
- LumaAtlas.SortInts: `sort.Ints` is library code. The model sorts by insertion and proves the same result contract.
- GIF frames whose bounds do not start at the origin are not modelled, because `At(i, j)` then reads outside the frame.
- Logging, printing, `os.Exit` and `panic` on I/O errors are not modelled.
- Integer overflow: Go's `int` is 64 bits wide, and image sizes times 5 stay far below that. The model uses unbounded integers.

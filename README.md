# Pixel masks and polygon boxes, verified in Dafny

This project models the sequential core of a raster-to-polygon tool: how it
builds boolean pixel masks from raster bands, erodes them and takes their
centroid (src/mask.cc), and the bounding boxes and rings of its polygons
(src/polygon.h). It then proves properties of that model.

Modules:

- `Common`: the `byte` type and `Option`. `None` stands for the source's
  `fatal_error`, which ends the program.
- `Polygon`: `Vertex`; the `Box` value with the `Bbox` class that updates it in
  place (`expand`); `is_disjoint`; the `Ring` class with `reverse` and
  `copyMetadata`.
- `Tiles`: clamping of the native tiles at the image edge, the walk of the
  nested tile loops (`ImageWalk`) with the proof that it covers every pixel
  exactly once, and row-major addressing of flat buffers.
- `Grid`: boolean images as values. It holds the erosion rule (`Survives`,
  `Eroded`) and the coordinate sums and count behind the centroid. These are
  the specifications the imperative code is proved against.
- `BitGrids`: the `BitGrid` class over an `array2<bool>`. Its `Erode` keeps
  the source's three rotating row buffers and six shifting neighbour
  variables. Its `Centroid` keeps the integer accumulators.
- `MaskBuilder`: a dataset as given functions (size, band count, block size
  per band, samples). It holds the equality mask over an 8-bit image, the
  tiled read of one band into a flat buffer with its value-usage table, and
  the multi-band mask with its first-band / union / knock-out rule.

Notes on the model:

- Erosion reads every cell outside the grid as unset. The code reads
  `get(i, 0)` when the grid has no rows (src/mask.cc:264) and `get(i, h)` on
  the last row (src/mask.cc:271). It also reads `rowX[0]` of an empty row
  (src/mask.cc:274-276). All of these become "unset" here.
- The erosion neighbour pairs are those the code tests (src/mask.cc:284-287).
  They are consecutive around the eight neighbours:
  (ul,u), (u,ur), (ur,r), (r,lr), (lr,d), (d,ll), (ll,l), (l,ul).
- A fully set grid at least 2×2 is unchanged by erosion
  (`Grid.ErodeKeepsFullGrid`). Even a corner pixel keeps a set pair of
  in-grid neighbours, so erosion does not clear the corners of a full grid.
- The no-data test of a band (`NdvDef`) is the input `ndv(k, x, y)`: pixel
  (x, y) is no-data in the band at position k of the band list.

## Model

| member | source | states |
|---|---|---|
| Polygon.Bbox.constructor | src/polygon.h:60-64 | a new box is empty, with all extents zero, and well formed |
| Polygon.Expanded | src/polygon.h:66-77 | after folding in v the box is non-empty and contains v; a well-formed box stays well formed and the result encloses the old box; a point already inside leaves the box unchanged |
| Polygon.Bbox.Expand | src/polygon.h:66-77 | the fields after the in-place update are `Expanded` of the old box: non-empty, containing v, enclosing the old box and well formed if it was |
| Polygon.ExpandedAllContains | src/polygon.h:66-77 | folding any vertex sequence into a well-formed box gives a well-formed box that contains every vertex and encloses the starting box |
| Polygon.IsDisjointSymmetric | src/polygon.h:87-94 | `is_disjoint(a, b) == is_disjoint(b, a)` |
| Polygon.OverlapCorner | src/polygon.h:87-94 | two well-formed boxes that are not disjoint share a point, which is constructed |
| Polygon.DisjointIffNoCommonPoint | src/polygon.h:87-94 | for well-formed boxes, `is_disjoint` holds exactly when no point lies in both |
| Polygon.NotDisjointFromItself | src/polygon.h:87-94 | a non-empty well-formed box is not disjoint from itself |
| Polygon.Ring.constructor | src/polygon.h:98 | a new ring has no vertices, is not a hole and has parent -1 |
| Polygon.Ring.Reverse | src/polygon.h:105 | the in-place swap loop leaves `pts` as the reversal of the old vertices, with hole flag and parent unchanged |
| Polygon.ReversedAt | src/polygon.h:105 | reversal keeps the length and puts vertex n-1-k at position k |
| Polygon.ReversedLength | src/polygon.h:105 | reversal keeps the length |
| Polygon.ReversedInvolution | src/polygon.h:105 | reversing twice restores the vertices |
| Polygon.ReversedPermutes | src/polygon.h:105 | reversal keeps the multiset of vertices |
| Polygon.Ring.CopyMetadata | src/polygon.h:108-113 | returns a new ring with no vertices and the same hole flag and parent |
| Tiles.TileSize | src/mask.cc:156-161 | a tile is at most one block long, ends inside the image, is a full block unless it reaches the edge, and is non-empty for positive blocks |
| Tiles.TilesCoverOnce | src/mask.cc:156-161 | for a positive block size every pixel lies in exactly one clamped tile of the walk |
| Tiles.TileWalkAt | src/mask.cc:68-73 | in the walk of the nested tile loops, tile row i and tile column j are visited at position n·i + j, n being the number of tile columns |
| Tiles.TileWalkCoversOnce | src/mask.cc:156-161 | for positive block sizes every pixel of the image lies in the tile at exactly one position of the walk the nested tile loops make |
| Tiles.Index | src/mask.cc:248-253 | the row-major position of (x, y) is inside the `w*h` buffer and gives back y as quotient and x as remainder by `w`, so distinct pixels have distinct positions |
| Grid.Eroded | src/mask.cc:258-297 | erosion keeps the shape of the grid and only clears pixels |
| Grid.SurvivesByPairs | src/mask.cc:284-287 | a pixel survives exactly when it is set and one of the eight consecutive neighbour pairs the code tests is fully set |
| Grid.ErodeKeepsFullGrid | src/mask.cc:258-297 | a fully set grid of at least 2×2 is unchanged by erosion |
| Grid.ErodeClearsThinGrid | src/mask.cc:258-297 | a grid one pixel wide or high is entirely cleared |
| Grid.ErodeMonotone | src/mask.cc:258-297 | erosion preserves the pixel-wise order between grids |
| BitGrids.BitGrid.Erode | src/mask.cc:258-297 | after the three-row-buffer loop each pixel equals `Survives` judged on the grid before erosion, so the grid equals `Eroded` of its old contents |
| BitGrids.BitGrid.FillRow | src/mask.cc:262-272 | the row buffer holds row y of the grid, or all unset when y is outside the grid |
| BitGrids.BitGrid.ErodeRow | src/mask.cc:274-291 | with the three buffers holding rows y-1, y and y+1, the shifting neighbour variables make row y equal to `Survives` and leave all other rows alone |
| BitGrids.BitGrid.constructor | src/mask.cc:123 | a fresh `w`×`h` grid; its contents are unspecified (see "Left out") |
| BitGrids.BitGrid.Get | src/mask.cc:303 | returns pixel (x, y) of the grid's contents `Cells()` |
| BitGrids.BitGrid.Set | src/mask.cc:251 | bit (x, y) becomes v and every other bit is unchanged |
| BitGrids.BitGrid.Zero | src/mask.cc:124 | every pixel is cleared |
| Grid.CountPositiveIffSomeSet | src/mask.cc:300-309 | the count of set pixels is positive exactly when some pixel is set |
| Grid.SumsOfSinglePixel | src/mask.cc:300-313 | with one set pixel at (px, py), the count is 1 and the sums are px and py, so the centroid is that pixel |
| Grid.SumsOfNoPixel | src/mask.cc:300-309 | with no set pixel the count and both sums are 0 |
| Grid.SumXBounded | src/mask.cc:300-309 | the x sum is at most (w-1) times the count |
| Grid.SumYBounded | src/mask.cc:300-309 | the y sum is at most (h-1) times the count |
| Grid.CentroidInside | src/mask.cc:310-313 | with a set pixel, both quotients lie between 0 and the last column and row |
| BitGrids.BitGrid.Centroid | src/mask.cc:299-314 | the accumulators equal the x sum, the y sum and the count of set pixels; the count is positive and the result is sum/count, a point inside the grid |
| MaskBuilder.GetBitgridFor8bitRaster | src/mask.cc:245-256 | bit (x, y) is set exactly when the byte at row-major position `w*y + x` equals the wanted value |
| MaskBuilder.ReadTile | src/mask.cc:82-83 | the tile buffer holds the bsizeX×bsizeY samples of the tile, row-major with stride bsizeX |
| MaskBuilder.ReadDataset8bit | src/mask.cc:39-112 | a band outside 1..bandCount gives no buffer and a cleared usage table; otherwise the buffer holds every sample at `w*y + x`, `usage[v]` is 0 or 1 and is 1 exactly when v occurs in the band, and the tiles the loops visit are exactly the clamped tile walk `ImageWalk` |
| MaskBuilder.ReadTileRow | src/mask.cc:71-106 | the inner tile loop visits the tiles of `RowWalk` for its tile row and fills exactly that row band of the buffer with samples, with the same usage bookkeeping as `CopyTile` |
| MaskBuilder.CopyTile | src/mask.cc:85-105 | exactly the tile's pixels of the buffer receive their samples, every copied value is marked in usage, usage entries only become 1, and every newly marked value occurs in the tile |
| MaskBuilder.CopyRow | src/mask.cc:86-93 | the same as `CopyTile`, for one tile row |
| MaskBuilder.CopySpan | src/mask.cc:89-93 | the two moving pointers copy n consecutive bytes, leave the rest of the buffer unchanged and mark each copied value |
| MaskBuilder.RowSpan | src/mask.cc:89 | a row segment of the tile is a contiguous range of buffer positions, holding exactly that segment's pixels |
| MaskBuilder.MaskIsUnion | src/mask.cc:212-224 | without inversion the mask after n bands is set exactly when some band is valid at the pixel |
| MaskBuilder.MaskIsIntersection | src/mask.cc:212-224 | with inversion and at least one band the mask is set exactly when every band is valid at the pixel |
| MaskBuilder.LaterBandsMonotone | src/mask.cc:212-224 | from the first band on, later bands only add pixels without inversion and only remove them with it |
| MaskBuilder.GetBitgridForDataset | src/mask.cc:114-243 | the result is missing exactly when some listed band is outside 1..bandCount; otherwise it is a fresh w×h mask whose every bit is the first-band / union / knock-out rule applied over the whole list |
| MaskBuilder.ApplyBand | src/mask.cc:156-161 | every pixel ends as the band's rule applied to its old bit, and the tiles the loops visit, in order, are exactly the clamped tile walk `ImageWalk`, which covers every pixel once (`Tiles.TileWalkCoversOnce`) |
| MaskBuilder.ApplyTileRow | src/mask.cc:159-161 | the inner tile loop visits the tiles of `RowWalk` for its tile row and applies the band's rule to exactly the pixels of that row band |
| MaskBuilder.ApplyTile | src/mask.cc:186-225 | the band's rule is applied to exactly the tile's pixels |
| MaskBuilder.ApplyRow | src/mask.cc:212-224 | the three branches (first band, inverted, not inverted) apply the rule to exactly the row segment |

## Left out

- GDAL input and reporting: dataset size, band count, block size and samples
  are the given functions of `Dataset`. Progress output and `printf` are not
  modelled (src/mask.cc:75-80, 163-169).
- Debug plotting (src/mask.cc:95-103, 197-206, 230-238) only observes the
  data.
- The choice between an 8-bit and a `double` tile buffer
  (src/mask.cc:140-152, 171-185) only changes what the no-data test is given.
  The test itself, `NdvDef::arrayCheckNdv` and `isInvert`, is an input, because
  ndv.h is not part of this model.
- BitGrids.BitGrid.constructor: the contents of a new grid are left
  unspecified, because the packed storage in mask.h is not part of this model.
  Every use clears it or writes every pixel.
- BitGrids.BitGrid.Centroid: the quotient is exact real division, not
  `double` rounding. It requires a set pixel, because the source divides 0 by 0
  otherwise. The `int64_t` accumulators are unbounded integers, so overflow is
  not modelled.
- MaskBuilder.GetBitgridForDataset: it requires every band's block size to be
  positive. With a zero block size the source's tile loops never end.
- MaskBuilder.ReadDataset8bit: the same positive block size requirement. The
  `size_t` products `w*h` and `blocksize_x*blocksize_y` are unbounded.
  Reusing one tile buffer across tiles is modelled as a fresh tile value per
  tile.
- `fatal_error` ends the program. The model returns `None` instead.
- Erosion's reads outside the grid (src/mask.cc:264, 271, 274-276) are
  modelled as unset cells. What the packed storage returns there is not part
  of this model.
- The polygon functions src/polygon.h only declares are not modelled, because
  their bodies are not shown: areas, orientation, containment, ring relations,
  line intersection, `box_union`, `Bbox::expand(const Bbox&)`,
  `Mpoly::deleteRing`, `component_contains`. The same goes for OGR
  conversion and georeferencing.

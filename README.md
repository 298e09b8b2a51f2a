# Tile-grid partitioner of the raster extractor

`raster_extractor` in `raster-extract-tool.py` cuts a bounding box
`(minx, maxx, miny, maxy)` in EPSG:3857 map units into square tiles. The tile
side is fixed at 1000 units. For each tile it asks the QGIS `native:rasterize`
algorithm to render that tile to `raster_{i}_{j}.tif`. This project models that
partition and the requests it issues, and proves what the grid guarantees:

- the cell counts;
- the rectangle of every tile;
- coverage of the box and no interior overlap;
- overshoot past the high edges of less than one tile;
- row-major, deterministic ordering;
- field order of the extent string;
- collision-free output paths.

Files and modules:

- `geometry.dfy` (`Geometry`): rectangles (the corner order of `QgsRectangle`),
  the bounding box, and `math.ceil` on exact reals.
- `tile_grid.dfy` (`TileGrid`): column and row counts, the rectangle of cell
  `(i, j)`, and the geometric lemmas. Each is stated once for one axis and then
  for the lattice.
- `text.dfy` (`Text`): the decimal numeral of a lattice index (Python `str(int)`)
  and its parser, plus splitting and joining strings on a separator.
- `render_params.dfy` (`RenderParams`): the `EXTENT` string, the `OUTPUT` path
  `{out_path}/raster_{i}_{j}.tif`, and their inverses.
- `raster_extractor.dfy` (`RasterExtractor`): the render request, the reference
  plan (request `k` is for cell `(k / ny, k % ny)`), lemmas about the plan, and
  the nested `while` loops of the source proved equal to the plan.

Issuing a render request is modelled as appending it to a log that the method
returns. The log is the sequence of calls the rasterizer receives. Coordinates
are exact `real`s. The tile side is a parameter `ts > 0`. `RasterExtractorTiles`
fixes it to the source's 1000, so the precondition excludes nothing the source
can do.

The code and the design description differ in three places. The model follows
the code in each:

- The design asks that a tile side `<= 0` be reported as a configuration error.
  The code hard-codes 1000, so no such path exists.
- The design assumes `minx < maxx` and `miny < maxy`. The code never checks
  this. When either fails, `ceil` gives a count `<= 0`, `range` is empty and no
  tile is produced (`PlanEmptyIff`). So a box of zero width still contains
  points, but no tile covers them. This is why coverage is stated only for
  non-degenerate boxes.
- The design's relevance filter, mosaic assembly, CRS re-stamping and boundary
  clipping are not in this source file. `raster-extract-tool.py` renders every
  cell, so none of them is modelled.

## Model

| member | source | states |
|---|---|---|
| Geometry.Ceil | raster-extract-tool.py:55-56 | the result is an integer `c` with `q <= c < q + 1`, so it is the ceiling |
| Geometry.CeilIsLeast | raster-extract-tool.py:55-56 | no integer at or above `q` is smaller than `Ceil(q)` |
| TileGrid.AxisCountIsLeast | raster-extract-tool.py:55-56 | `len(range(ceil((hi - lo) / ts)))` cells of side `ts` laid from `lo` reach `hi`, and no smaller number of cells does |
| TileGrid.AxisCountZero | raster-extract-tool.py:55-56 | an axis has zero cells if and only if `hi <= lo` |
| TileGrid.AxisCellBounds | raster-extract-tool.py:55-65 | cell `k` of an axis starts in `[lo, hi)` and ends below `hi + ts` |
| TileGrid.AxisOvershoot | raster-extract-tool.py:55-56 | a non-empty axis has at least one cell, and its last edge lies in `[hi, hi + ts)` |
| TileGrid.AxisCellOf | raster-extract-tool.py:55-65 | every coordinate in `[lo, hi]` of a non-empty axis lies in some cell `k < count` |
| TileGrid.EdgeCompare | raster-extract-tool.py:62-65 | a cell edge `lo + k * ts` is at or below a coordinate `v` if and only if `k <= (v - lo) / ts`; likewise for strictly below |
| TileGrid.EdgesAscend | raster-extract-tool.py:62-65 | cell edges `lo + k * ts` ascend with `k` |
| TileGrid.TileAt | raster-extract-tool.py:62-65 | the rectangle of cell `(i, j)` is well formed and exactly `ts` by `ts` |
| TileGrid.GridEmptyIff | raster-extract-tool.py:55-61 | the lattice has no cell if and only if `maxx <= minx` or `maxy <= miny` |
| TileGrid.CellOf | raster-extract-tool.py:55-65 | every point of a non-degenerate box lies in the closed rectangle of some cell inside the lattice |
| TileGrid.TilesDisjoint | raster-extract-tool.py:62-65 | the open interiors of two different cells are disjoint |
| TileGrid.AdjacentTilesShareEdge | raster-extract-tool.py:62-65 | a cell's `xMax` is its right neighbour's `xMin`, and its `yMax` is its upper neighbour's `yMin` |
| TileGrid.TileWithinReach | raster-extract-tool.py:55-65 | every cell starts inside the box and ends less than `ts` beyond `maxx` and `maxy`; cells of the last column reach `maxx`, and cells of the last row reach `maxy` |
| TileGrid.GridOvershoot | raster-extract-tool.py:55-65 | a non-degenerate box has at least one column and one row; the high edge of the last column is in `[maxx, maxx + ts)`, and likewise for the last row with `maxy` |
| Text.Decimal | raster-extract-tool.py:77 | the numeral of an index is a non-empty string of digits, with a leading `0` only for zero |
| Text.DecimalRoundTrip | raster-extract-tool.py:77 | parsing the numeral of `n` gives back `n` |
| Text.DecimalInjective | raster-extract-tool.py:77 | different indices have different numerals |
| Text.SplitJoin | raster-extract-tool.py:67 | splitting a separator-joined list gives back the list when no piece contains the separator |
| RenderParams.ExtentFieldOrder | raster-extract-tool.py:67 | the extent string ends in ` [EPSG:3857]`; when no rendered coordinate contains a comma, its fields are exactly `xMin, xMax, yMin, yMax`, in that order |
| RenderParams.OutputNameRoundTrip | raster-extract-tool.py:77 | `raster_{i}_{j}.tif` parses back to `(i, j)` |
| RenderParams.OutputPathInjective | raster-extract-tool.py:77 | two output paths in the same directory are equal only for the same cell |
| RasterExtractor.RowMajor | raster-extract-tool.py:60-61 | cell `(i, j)` of an `nx` by `ny` lattice has number `i * ny + j`, which is below `nx * ny`; dividing it by `ny` gives back `i`, and the remainder gives back `j` |
| RasterExtractor.RowMajorCell | raster-extract-tool.py:60-61 | a number below `nx * ny` has quotient below `nx`, remainder below `ny`, and is rebuilt from them |
| RasterExtractor.PlanEntry | raster-extract-tool.py:60-78 | the plan has `nx * ny` requests; request `k` is the one built for a lattice cell whose row-major number is `k` |
| RasterExtractor.PlanHasCell | raster-extract-tool.py:60-78 | every cell `(i, j)` of the lattice is requested, at position `i * ny + j` |
| RasterExtractor.PlanCellsDistinct | raster-extract-tool.py:60-61 | two different requests are for two different cells |
| RasterExtractor.PlanEmptyIff | raster-extract-tool.py:55-61 | no request is issued if and only if the box is degenerate on some axis |
| RasterExtractor.PlanCovers | raster-extract-tool.py:55-65 | every point of a non-degenerate box lies in the tile of some issued request |
| RasterExtractor.PlanNoOverlap | raster-extract-tool.py:60-65 | the tiles of two different requests share no interior point |
| RasterExtractor.PlanOutputsDistinct | raster-extract-tool.py:60-77 | two different requests never name the same output file |
| RasterExtractor.PlanTileBounds | raster-extract-tool.py:55-78 | every requested tile is `ts` by `ts`, starts inside the box and ends less than `ts` beyond it; tiles of the last column reach `maxx` and tiles of the last row reach `maxy`; `EXTENT_BUFFER` is 0, `TILE_SIZE` is `ts`, and the background is not transparent |
| RasterExtractor.ExtractTiles | raster-extract-tool.py:55-82 | the nested `for i` / `for j` loops, over ranges whose bounds may be `<= 0`, issue exactly the plan's requests, in the plan's order; the result depends only on the inputs |
| RasterExtractor.RasterExtractorTiles | raster-extract-tool.py:53-82 | with the fixed tile size of 1000, the issued requests are the plan for the box given in argument order |
| RasterExtractor.TwoByTwoExample | raster-extract-tool.py:53-77 | the box `(0, 2000, 0, 1500)` gives four requests, in the order `(0,0), (0,1), (1,0), (1,1)`; the last one covers `[1000, 2000] x [1000, 2000]`, and the second writes `raster_0_1.tif` |

## Left out

- QGIS start-up and shut-down (`QgsApplication`, `initQgis`, `Processing.initialize`, `exitQgis`): these are foreign runtime state.
- The rendering itself (`processing.run('native:rasterize', ...)`): an external library. Issuing a call is modelled as appending the request to the returned log. The model does not capture a render failure, which raises out of the loop in the source and ends the run.
- The S3 upload, the dotenv and credential loading, the `argparse` front end in `main`, and the progress `print`s: these are network, environment and console I/O.
- The `float()` conversion of the arguments, and floating-point rounding in `minx + i * tile_size`: all arithmetic is on exact reals.
- The decimal formatting of a coordinate inside the extent string: it is a parameter `fmt`. Only the field order and the CRS suffix are stated. Python's float formatting never produces a comma, which is the condition `ExtentFieldOrder` needs.
- The fixed parameters `MAP_UNITS_PER_PIXEL` (0.3, a float), `MAP_THEME` (None) and `LAYERS` (the XYZ layer URL): these are opaque configuration for the renderer and do not vary per tile.
- The commented-out full-extent request: it is dead code.
- The normalisation that `QgsRectangle` applies to swapped corners: every rectangle built here already has `xMin < xMax` and `yMin < yMax` (`TileAt`), so normalisation changes nothing.

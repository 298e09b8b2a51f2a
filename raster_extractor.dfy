/** The tile loop of raster_extractor: for every column i and, inside it,
    every row j of the lattice, build the tile rectangle and its render
    parameters and issue one render request. The rasterizer itself is
    external; issuing a request is modelled as appending it to a log, so the
    log is the sequence of calls the rasterizer receives. */
module RasterExtractor {
  import opened Geometry
  import opened TileGrid
  import opened RenderParams

  /** One rasterizer call: the lattice cell, its rectangle, and the request
      parameters EXTENT, EXTENT_BUFFER, TILE_SIZE,
      MAKE_BACKGROUND_TRANSPARENT and OUTPUT. */
  datatype RenderRequest = RenderRequest(
    i: nat, j: nat, tile: Rect,
    extent: string, extentBuffer: int, tileSize: real, transparent: bool,
    output: string)

  /** The request issued for lattice cell (i, j). dir is the working
      directory (out_path); fmt renders one coordinate in decimal. */
  function RequestAt(b: Box, ts: real, dir: string, fmt: real -> string, i: nat, j: nat): RenderRequest
    requires ts > 0.0
  {
    var r := TileAt(b, ts, i, j);
    RenderRequest(i, j, r, ExtentString(r, fmt), 0, ts, false, OutputPath(dir, i, j))
  }

  /** Row-major numbering of an m-by-n lattice: cell (i, j) is number
      i * n + j, which is below m * n, and number k is cell (k / n, k % n). */
  lemma RowMajor(i: nat, j: nat, m: nat, n: nat)
    requires i < m && j < n
    ensures i * n + j < m * n
    ensures (i * n + j) / n == i && (i * n + j) % n == j
  {
    var k := i * n + j;
    assert k < (i + 1) * n by {
      assert (i + 1) * n == i * n + n;
    }
    MulMonotone(i + 1, m, n);
    var q, r := k / n, k % n;
    assert n * q + r == k;
    assert n * (q - i) == j - r;
    SmallMultiple(n, q - i);
  }

  /** Multiplying by a natural number keeps the order of two naturals. */
  lemma MulMonotone(a: nat, c: nat, n: nat)
    requires a <= c
    ensures a * n <= c * n
  {
  }

  /** Number k below m * n is the cell (k / n, k % n) of an m-by-n lattice. */
  lemma RowMajorCell(k: nat, m: nat, n: nat)
    requires k < m * n
    ensures n > 0 && k / n < m && k % n < n && (k / n) * n + k % n == k
  {
    assert n != 0;
    var q, r := k / n, k % n;
    assert n * q + r == k;
    assert n * q < n * m;
    CancelFactor(n, q, m);
  }

  /** A positive factor can be cancelled from a strict inequality. */
  lemma CancelFactor(n: int, a: int, c: int)
    requires n > 0 && n * a < n * c
    ensures a < c
  {
  }

  /** The only multiple of n strictly between -n and n is zero. */
  lemma SmallMultiple(n: int, d: int)
    requires n > 0 && -n < n * d < n
    ensures d == 0
  {
  }

  /** The requests in the order the nested loops issue them: column i
      outer, row j inner, so request k is for cell (k / ny, k % ny). */
  function Plan(b: Box, ts: real, dir: string, fmt: real -> string): seq<RenderRequest>
    requires ts > 0.0
  {
    var nx, ny := ColumnCount(b, ts), RowCount(b, ts);
    seq(nx * ny, k requires 0 <= k < nx * ny => RequestAt(b, ts, dir, fmt, k / ny, k % ny))
  }

  /** Request k of the plan is for a cell of the lattice, and that cell's
      row-major number is k. */
  lemma PlanEntry(b: Box, ts: real, dir: string, fmt: real -> string, k: nat)
    requires ts > 0.0
    requires k < |Plan(b, ts, dir, fmt)|
    ensures |Plan(b, ts, dir, fmt)| == ColumnCount(b, ts) * RowCount(b, ts)
    ensures var q := Plan(b, ts, dir, fmt)[k];
            q.i < ColumnCount(b, ts) && q.j < RowCount(b, ts) &&
            q.i * RowCount(b, ts) + q.j == k &&
            q == RequestAt(b, ts, dir, fmt, q.i, q.j)
  {
    RowMajorCell(k, ColumnCount(b, ts), RowCount(b, ts));
  }

  /** Every cell of the lattice is requested, at its row-major position. */
  lemma PlanHasCell(b: Box, ts: real, dir: string, fmt: real -> string, i: nat, j: nat)
    requires ts > 0.0
    requires i < ColumnCount(b, ts) && j < RowCount(b, ts)
    ensures i * RowCount(b, ts) + j < |Plan(b, ts, dir, fmt)|
    ensures Plan(b, ts, dir, fmt)[i * RowCount(b, ts) + j] == RequestAt(b, ts, dir, fmt, i, j)
  {
    RowMajor(i, j, ColumnCount(b, ts), RowCount(b, ts));
  }

  /** Two different requests of the plan are for two different cells. */
  lemma PlanCellsDistinct(b: Box, ts: real, dir: string, fmt: real -> string, k: nat, k': nat)
    requires ts > 0.0
    requires k < |Plan(b, ts, dir, fmt)| && k' < |Plan(b, ts, dir, fmt)| && k != k'
    ensures (Plan(b, ts, dir, fmt)[k].i, Plan(b, ts, dir, fmt)[k].j)
            != (Plan(b, ts, dir, fmt)[k'].i, Plan(b, ts, dir, fmt)[k'].j)
  {
    PlanEntry(b, ts, dir, fmt, k);
    PlanEntry(b, ts, dir, fmt, k');
  }

  /** No request is issued exactly when the box is degenerate. */
  lemma PlanEmptyIff(b: Box, ts: real, dir: string, fmt: real -> string)
    requires ts > 0.0
    ensures |Plan(b, ts, dir, fmt)| == 0 <==> !NonDegenerate(b)
  {
    GridEmptyIff(b, ts);
  }

  /** Coverage: every point of a non-degenerate box lies in the tile of some
      issued request. */
  lemma PlanCovers(b: Box, ts: real, dir: string, fmt: real -> string, x: real, y: real) returns (k: nat)
    requires ts > 0.0
    requires NonDegenerate(b)
    requires b.minx <= x <= b.maxx && b.miny <= y <= b.maxy
    ensures k < |Plan(b, ts, dir, fmt)|
    ensures Contains(Plan(b, ts, dir, fmt)[k].tile, x, y)
  {
    var i, j := CellOf(b, ts, x, y);
    PlanHasCell(b, ts, dir, fmt, i, j);
    k := i * RowCount(b, ts) + j;
  }

  /** The tiles of two different requests share no interior point. */
  lemma PlanNoOverlap(b: Box, ts: real, dir: string, fmt: real -> string, k: nat, k': nat)
    requires ts > 0.0
    requires k < |Plan(b, ts, dir, fmt)| && k' < |Plan(b, ts, dir, fmt)| && k != k'
    ensures !InteriorsOverlap(Plan(b, ts, dir, fmt)[k].tile, Plan(b, ts, dir, fmt)[k'].tile)
  {
    var p := Plan(b, ts, dir, fmt);
    PlanEntry(b, ts, dir, fmt, k);
    PlanEntry(b, ts, dir, fmt, k');
    PlanCellsDistinct(b, ts, dir, fmt, k, k');
    TilesDisjoint(b, ts, p[k].i, p[k].j, p[k'].i, p[k'].j);
  }

  /** No two requests write the same output file. */
  lemma PlanOutputsDistinct(b: Box, ts: real, dir: string, fmt: real -> string, k: nat, k': nat)
    requires ts > 0.0
    requires k < |Plan(b, ts, dir, fmt)| && k' < |Plan(b, ts, dir, fmt)| && k != k'
    ensures Plan(b, ts, dir, fmt)[k].output != Plan(b, ts, dir, fmt)[k'].output
  {
    var p := Plan(b, ts, dir, fmt);
    PlanEntry(b, ts, dir, fmt, k);
    PlanEntry(b, ts, dir, fmt, k');
    PlanCellsDistinct(b, ts, dir, fmt, k, k');
    if p[k].output == p[k'].output {
      OutputPathInjective(dir, p[k].i, p[k].j, p[k'].i, p[k'].j);
    }
  }

  /** Each requested tile is ts by ts, starts inside the box and ends less
      than one tile beyond it; tiles of the last column and of the last row
      reach the box's high edges. The other parameters are the source's
      constants. */
  lemma PlanTileBounds(b: Box, ts: real, dir: string, fmt: real -> string, k: nat)
    requires ts > 0.0
    requires k < |Plan(b, ts, dir, fmt)|
    ensures var q := Plan(b, ts, dir, fmt)[k];
            q.tile.xMax - q.tile.xMin == ts && q.tile.yMax - q.tile.yMin == ts &&
            b.minx <= q.tile.xMin < b.maxx && q.tile.xMax < b.maxx + ts &&
            b.miny <= q.tile.yMin < b.maxy && q.tile.yMax < b.maxy + ts &&
            (q.i == ColumnCount(b, ts) - 1 ==> b.maxx <= q.tile.xMax) &&
            (q.j == RowCount(b, ts) - 1 ==> b.maxy <= q.tile.yMax) &&
            q.extentBuffer == 0 && q.tileSize == ts && !q.transparent
  {
    var q := Plan(b, ts, dir, fmt)[k];
    PlanEntry(b, ts, dir, fmt, k);
    TileWithinReach(b, ts, q.i, q.j);
  }

  /** log holds, in order, the requests for cells 0 .. |log| - 1 of the
      row-major numbering with n rows per column. */
  ghost predicate IssuedInOrder(log: seq<RenderRequest>, b: Box, ts: real, dir: string, fmt: real -> string, n: nat)
    requires ts > 0.0
  {
    forall k :: 0 <= k < |log| ==> n != 0 && log[k] == RequestAt(b, ts, dir, fmt, k / n, k % n)
  }

  /** Issuing the request for cell (i, j) next keeps the log in order. */
  lemma IssueNext(log: seq<RenderRequest>, b: Box, ts: real, dir: string, fmt: real -> string, n: nat, i: nat, j: nat)
    requires ts > 0.0 && j < n
    requires IssuedInOrder(log, b, ts, dir, fmt, n) && |log| == i * n + j
    ensures IssuedInOrder(log + [RequestAt(b, ts, dir, fmt, i, j)], b, ts, dir, fmt, n)
  {
    RowMajor(i, j, i + 1, n);
  }

  /** A log in order that holds every cell is the plan. */
  lemma IssuedAll(log: seq<RenderRequest>, b: Box, ts: real, dir: string, fmt: real -> string)
    requires ts > 0.0
    requires IssuedInOrder(log, b, ts, dir, fmt, RowCount(b, ts))
    requires |log| == ColumnCount(b, ts) * RowCount(b, ts)
    ensures log == Plan(b, ts, dir, fmt)
  {
  }

  /** The loop of raster-extract-tool.py: x_tiles and y_tiles are the
      (possibly non-positive) bounds of range(); each pass of the inner loop
      builds the rectangle, the extent string and the output path, and
      issues the request. */
  method ExtractTiles(b: Box, ts: real, dir: string, fmt: real -> string) returns (log: seq<RenderRequest>)
    requires ts > 0.0
    ensures log == Plan(b, ts, dir, fmt)
  {
    var xTiles := Ceil((b.maxx - b.minx) / ts);
    var yTiles := Ceil((b.maxy - b.miny) / ts);
    ghost var nx, ny := ColumnCount(b, ts), RowCount(b, ts);
    log := [];
    var i := 0;
    while i < xTiles
      invariant 0 <= i <= nx
      invariant |log| == i * ny
      invariant IssuedInOrder(log, b, ts, dir, fmt, ny)
    {
      var j := 0;
      while j < yTiles
        invariant 0 <= j <= ny
        invariant |log| == i * ny + j
        invariant IssuedInOrder(log, b, ts, dir, fmt, ny)
      {
        var tile := Rect(b.minx + i as real * ts, b.miny + j as real * ts,
                         b.minx + (i + 1) as real * ts, b.miny + (j + 1) as real * ts);
        var extent := ExtentString(tile, fmt);
        var request := RenderRequest(i, j, tile, extent, 0, ts, false, OutputPath(dir, i, j));
        assert request == RequestAt(b, ts, dir, fmt, i, j);
        IssueNext(log, b, ts, dir, fmt, ny, i, j);
        log := log + [request];
        j := j + 1;
      }
      assert |log| == (i + 1) * ny;
      i := i + 1;
    }
    IssuedAll(log, b, ts, dir, fmt);
  }

  /** raster_extractor as the script calls it: the box corners in argument
      order and the fixed tile size of 1000 map units. */
  method RasterExtractorTiles(minx: real, maxx: real, miny: real, maxy: real, outPath: string, fmt: real -> string)
    returns (log: seq<RenderRequest>)
    ensures log == Plan(Box(minx, maxx, miny, maxy), SourceTileSize, outPath, fmt)
  {
    var tileSize := SourceTileSize;
    log := ExtractTiles(Box(minx, maxx, miny, maxy), tileSize, outPath, fmt);
  }

  /** A 2000 by 1500 box with the source's tile size gives a 2 by 2 lattice:
      four requests, column 0 before column 1, the last tile overshooting
      maxy by 500. */
  lemma TwoByTwoExample(dir: string, fmt: real -> string)
    ensures var p := Plan(Box(0.0, 2000.0, 0.0, 1500.0), SourceTileSize, dir, fmt);
            |p| == 4 &&
            [(p[0].i, p[0].j), (p[1].i, p[1].j), (p[2].i, p[2].j), (p[3].i, p[3].j)]
              == [(0, 0), (0, 1), (1, 0), (1, 1)] &&
            p[3].tile == Rect(1000.0, 1000.0, 2000.0, 2000.0) &&
            p[1].output == dir + "/raster_0_1.tif"
  {
    var b := Box(0.0, 2000.0, 0.0, 1500.0);
    assert Ceil(2.0) == 2 && Ceil(1.5) == 2;
    assert ColumnCount(b, SourceTileSize) == 2 && RowCount(b, SourceTileSize) == 2;
  }
}

/** The tile lattice over a bounding box: how many columns and rows
    raster_extractor enumerates, which rectangle cell (i, j) is, and the
    geometric facts about the lattice (coverage, no overlap, bounded
    overshoot). Every statement about one axis is made once, for an interval
    [lo, hi], and used for x (columns) and y (rows). */
module TileGrid {
  import opened Geometry

  /** The side length the source fixes for every tile, in map units. */
  const SourceTileSize: real := 1000.0

  // ---------------------------------------------------------------------
  // One axis

  /** The k-th cell boundary along an axis that starts at lo: lo + k * ts. */
  function Edge(lo: real, ts: real, k: nat): real {
    lo + k as real * ts
  }

  /** Number of cells along an axis: len(range(ceil((hi - lo) / ts))). */
  function AxisCount(lo: real, hi: real, ts: real): nat
    requires ts > 0.0
  {
    RangeLength(Ceil((hi - lo) / ts))
  }

  /** Multiplying by a positive factor keeps the order of two reals. */
  lemma ScaleLe(a: real, b: real, t: real)
    requires t > 0.0 && a <= b
    ensures a * t <= b * t
  {
  }

  /** Comparing an edge with a coordinate v is comparing the edge's index
      with the position of v measured in tiles from lo. */
  lemma EdgeCompare(lo: real, ts: real, k: nat, v: real)
    requires ts > 0.0
    ensures Edge(lo, ts, k) <= v <==> k as real <= (v - lo) / ts
    ensures Edge(lo, ts, k) < v <==> k as real < (v - lo) / ts
  {
    var q := (v - lo) / ts;
    assert q * ts == v - lo;
    if k as real <= q {
      ScaleLe(k as real, q, ts);
    }
    if q <= k as real {
      ScaleLe(q, k as real, ts);
    }
  }

  /** Cell edges along an axis ascend with the cell index. */
  lemma EdgesAscend(lo: real, ts: real, k: nat, k': nat)
    requires ts > 0.0
    requires k <= k'
    ensures Edge(lo, ts, k) <= Edge(lo, ts, k')
  {
    ScaleLe(k as real, k' as real, ts);
  }

  /** Consecutive edges are one tile apart. */
  lemma EdgeStep(lo: real, ts: real, k: nat)
    ensures Edge(lo, ts, k + 1) == Edge(lo, ts, k) + ts
  {
    assert (k + 1) as real * ts == k as real * ts + ts;
  }

  /** The count is the least number of cells of side ts laid from lo that
      reach hi. */
  lemma AxisCountIsLeast(lo: real, hi: real, ts: real, m: nat)
    requires ts > 0.0
    ensures Edge(lo, ts, AxisCount(lo, hi, ts)) >= hi
    ensures Edge(lo, ts, m) >= hi ==> AxisCount(lo, hi, ts) <= m
  {
    var e := (hi - lo) / ts;
    EdgeCompare(lo, ts, AxisCount(lo, hi, ts), hi);
    EdgeCompare(lo, ts, m, hi);
    if Edge(lo, ts, m) >= hi {
      CeilIsLeast(e, m);
    }
  }

  /** An axis has no cells exactly when its interval is empty or a point. */
  lemma AxisCountZero(lo: real, hi: real, ts: real)
    requires ts > 0.0
    ensures AxisCount(lo, hi, ts) == 0 <==> hi <= lo
  {
    EdgeCompare(lo, ts, 0, hi);
  }

  /** Cell k along the axis starts in [lo, hi), so it meets the interval,
      and ends less than one tile beyond hi. */
  lemma AxisCellBounds(lo: real, hi: real, ts: real, k: nat)
    requires ts > 0.0
    requires k < AxisCount(lo, hi, ts)
    ensures lo <= Edge(lo, ts, k) < hi
    ensures Edge(lo, ts, k + 1) < hi + ts
  {
    EdgeCompare(lo, ts, k, hi);
    EdgesAscend(lo, ts, 0, k);
    EdgeStep(lo, ts, k);
  }

  /** The last cell of a non-empty axis reaches hi and overshoots it by less
      than one tile. */
  lemma AxisOvershoot(lo: real, hi: real, ts: real)
    requires ts > 0.0
    requires lo < hi
    ensures AxisCount(lo, hi, ts) >= 1
    ensures hi <= Edge(lo, ts, AxisCount(lo, hi, ts)) < hi + ts
  {
    AxisCountZero(lo, hi, ts);
    AxisCountIsLeast(lo, hi, ts, 0);
    var n := AxisCount(lo, hi, ts);
    AxisCellBounds(lo, hi, ts, n - 1);
  }

  /** Every coordinate of a non-empty interval lies in some cell along it. */
  lemma AxisCellOf(lo: real, hi: real, ts: real, v: real) returns (k: nat)
    requires ts > 0.0
    requires lo < hi && lo <= v <= hi
    ensures k < AxisCount(lo, hi, ts)
    ensures Edge(lo, ts, k) <= v <= Edge(lo, ts, k + 1)
  {
    var n := AxisCount(lo, hi, ts);
    AxisOvershoot(lo, hi, ts);
    var q := (v - lo) / ts;
    EdgeCompare(lo, ts, 0, v);
    var f := q.Floor;
    assert 0 <= f;
    if f < n {
      k := f;
      EdgeCompare(lo, ts, k, v);
      EdgeCompare(lo, ts, k + 1, v);
    } else {
      k := n - 1;
      EdgeCompare(lo, ts, n, v);
      EdgesAscend(lo, ts, k, n);
    }
  }

  // ---------------------------------------------------------------------
  // The lattice

  /** Number of columns, len(x_tiles). */
  function ColumnCount(b: Box, ts: real): nat
    requires ts > 0.0
  {
    AxisCount(b.minx, b.maxx, ts)
  }

  /** Number of rows, len(y_tiles). */
  function RowCount(b: Box, ts: real): nat
    requires ts > 0.0
  {
    AxisCount(b.miny, b.maxy, ts)
  }

  /** The rectangle of lattice cell (i, j). */
  function TileAt(b: Box, ts: real, i: nat, j: nat): (r: Rect)
    requires ts > 0.0
    ensures r.xMin < r.xMax && r.yMin < r.yMax
    ensures r.xMax - r.xMin == ts && r.yMax - r.yMin == ts
  {
    Rect(Edge(b.minx, ts, i), Edge(b.miny, ts, j),
         Edge(b.minx, ts, i + 1), Edge(b.miny, ts, j + 1))
  }

  /** The lattice has no cell exactly when the box is degenerate on an axis. */
  lemma GridEmptyIff(b: Box, ts: real)
    requires ts > 0.0
    ensures ColumnCount(b, ts) * RowCount(b, ts) == 0 <==> !NonDegenerate(b)
  {
    AxisCountZero(b.minx, b.maxx, ts);
    AxisCountZero(b.miny, b.maxy, ts);
  }

  /** Coverage: every point of a non-degenerate box lies in some cell of the
      lattice. */
  lemma CellOf(b: Box, ts: real, x: real, y: real) returns (i: nat, j: nat)
    requires ts > 0.0
    requires NonDegenerate(b)
    requires b.minx <= x <= b.maxx && b.miny <= y <= b.maxy
    ensures i < ColumnCount(b, ts) && j < RowCount(b, ts)
    ensures Contains(TileAt(b, ts, i, j), x, y)
  {
    i := AxisCellOf(b.minx, b.maxx, ts, x);
    j := AxisCellOf(b.miny, b.maxy, ts, y);
  }

  /** No two different cells share interior points. */
  lemma TilesDisjoint(b: Box, ts: real, i: nat, j: nat, i': nat, j': nat)
    requires ts > 0.0
    requires (i, j) != (i', j')
    ensures !InteriorsOverlap(TileAt(b, ts, i, j), TileAt(b, ts, i', j'))
  {
    if i < i' {
      EdgesAscend(b.minx, ts, i + 1, i');
    } else if i' < i {
      EdgesAscend(b.minx, ts, i' + 1, i);
    } else if j < j' {
      EdgesAscend(b.miny, ts, j + 1, j');
    } else {
      assert j' < j;
      EdgesAscend(b.miny, ts, j' + 1, j);
    }
  }

  /** Neighbouring cells share their common edge exactly. */
  lemma AdjacentTilesShareEdge(b: Box, ts: real, i: nat, j: nat)
    requires ts > 0.0
    ensures TileAt(b, ts, i, j).xMax == TileAt(b, ts, i + 1, j).xMin
    ensures TileAt(b, ts, i, j).yMax == TileAt(b, ts, i, j + 1).yMin
  {
  }

  /** Every cell of the lattice starts inside the box and ends less than one
      tile beyond its high edges, so no cell lies wholly outside the box;
      cells of the last column reach maxx and cells of the last row reach
      maxy. */
  lemma TileWithinReach(b: Box, ts: real, i: nat, j: nat)
    requires ts > 0.0
    requires i < ColumnCount(b, ts) && j < RowCount(b, ts)
    ensures b.minx <= TileAt(b, ts, i, j).xMin < b.maxx
    ensures b.miny <= TileAt(b, ts, i, j).yMin < b.maxy
    ensures TileAt(b, ts, i, j).xMax < b.maxx + ts
    ensures TileAt(b, ts, i, j).yMax < b.maxy + ts
    ensures i == ColumnCount(b, ts) - 1 ==> b.maxx <= TileAt(b, ts, i, j).xMax
    ensures j == RowCount(b, ts) - 1 ==> b.maxy <= TileAt(b, ts, i, j).yMax
  {
    AxisCellBounds(b.minx, b.maxx, ts, i);
    AxisCellBounds(b.miny, b.maxy, ts, j);
    AxisCountIsLeast(b.minx, b.maxx, ts, 0);
    AxisCountIsLeast(b.miny, b.maxy, ts, 0);
  }

  /** A non-degenerate box has a last column and a last row; the last column
      reaches maxx and the last row reaches maxy, each overshooting by less
      than one tile. */
  lemma GridOvershoot(b: Box, ts: real)
    requires ts > 0.0
    requires NonDegenerate(b)
    ensures ColumnCount(b, ts) >= 1 && RowCount(b, ts) >= 1
    ensures b.maxx <= Edge(b.minx, ts, ColumnCount(b, ts)) < b.maxx + ts
    ensures b.maxy <= Edge(b.miny, ts, RowCount(b, ts)) < b.maxy + ts
  {
    AxisOvershoot(b.minx, b.maxx, ts);
    AxisOvershoot(b.miny, b.maxy, ts);
  }
}

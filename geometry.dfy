/** Axis-aligned rectangles in map units (EPSG:3857 metres), with exact real
    coordinates, and the integer rounding the grid computation uses. */
module Geometry {

  /** A QgsRectangle, built from its corners in the order
      (xMinimum, yMinimum, xMaximum, yMaximum). */
  datatype Rect = Rect(xMin: real, yMin: real, xMax: real, yMax: real)

  /** The bounding box handed to the extractor, in its argument order
      (minx, maxx, miny, maxy). No relation between the corners is assumed. */
  datatype Box = Box(minx: real, maxx: real, miny: real, maxy: real)

  /** The box has positive extent on both axes. */
  predicate NonDegenerate(b: Box) {
    b.minx < b.maxx && b.miny < b.maxy
  }

  /** (x, y) lies in the closed rectangle r. */
  predicate Contains(r: Rect, x: real, y: real) {
    r.xMin <= x <= r.xMax && r.yMin <= y <= r.yMax
  }

  /** The open interiors of r and s have a point in common. */
  predicate InteriorsOverlap(r: Rect, s: Rect) {
    r.xMin < s.xMax && s.xMin < r.xMax && r.yMin < s.yMax && s.yMin < r.yMax
  }

  /** math.ceil: the least integer not below q. */
  function Ceil(q: real): (c: int)
    ensures q <= c as real < q + 1.0
  {
    -((-q).Floor)
  }

  /** Ceil(q) is below every other integer not below q. */
  lemma CeilIsLeast(q: real, n: int)
    requires q <= n as real
    ensures Ceil(q) <= n
  {
  }

  /** len(range(n)): a count that is not positive gives an empty range. */
  function RangeLength(n: int): nat {
    if n < 0 then 0 else n
  }
}

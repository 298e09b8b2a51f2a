/** The two textual parameters of a tile's render request: the EXTENT string
    that tells the rasterizer which rectangle to draw, and the OUTPUT path
    the raster is written to. */
module RenderParams {
  import opened Text
  import opened Geometry

  /** Every extent is qualified with the web-mercator CRS. */
  const CrsSuffix: string := " [EPSG:3857]"

  const NamePrefix: string := "raster_"
  const NameSuffix: string := ".tif"

  /** The EXTENT parameter: the four coordinates in the order xMin, xMax,
      yMin, yMax (not the corner order of the rectangle), comma-separated,
      then the CRS. fmt is the decimal rendering of one coordinate. */
  function ExtentString(r: Rect, fmt: real -> string): string {
    fmt(r.xMin) + "," + fmt(r.xMax) + "," + fmt(r.yMin) + "," + fmt(r.yMax) + CrsSuffix
  }

  /** The coordinate fields of an extent string, as a reader of the
      "xmin,xmax,ymin,ymax [CRS]" form takes them apart; None when the CRS
      suffix is missing. */
  function ExtentFields(s: string): Option<seq<string>> {
    if |s| >= |CrsSuffix| && s[|s| - |CrsSuffix|..] == CrsSuffix then
      Some(Split(s[..|s| - |CrsSuffix|], ','))
    else
      None
  }

  /** An extent string carries exactly four fields, xMin, xMax, yMin, yMax in
      that order, followed by the CRS, provided no rendered coordinate
      contains a comma. */
  lemma ExtentFieldOrder(r: Rect, fmt: real -> string)
    requires ',' !in fmt(r.xMin) && ',' !in fmt(r.xMax)
    requires ',' !in fmt(r.yMin) && ',' !in fmt(r.yMax)
    ensures ExtentString(r, fmt)[|ExtentString(r, fmt)| - |CrsSuffix|..] == CrsSuffix
    ensures ExtentFields(ExtentString(r, fmt))
            == Some([fmt(r.xMin), fmt(r.xMax), fmt(r.yMin), fmt(r.yMax)])
  {
    var a, b, c, d := fmt(r.xMin), fmt(r.xMax), fmt(r.yMin), fmt(r.yMax);
    var fields := [a, b, c, d];
    var s := ExtentString(r, fmt);
    assert fields[1..] == [b, c, d] && fields[1..][1..] == [c, d] && [c, d][1..] == [d];
    assert Join([c, d], ',') == c + [','] + d;
    assert Join([b, c, d], ',') == b + [','] + c + [','] + d;
    assert Join(fields, ',') == a + [','] + b + [','] + c + [','] + d;
    assert Join(fields, ',') + CrsSuffix == s;
    assert s[..|s| - |CrsSuffix|] == Join(fields, ',');
    SplitJoin(fields, ',');
  }

  /** The file name of tile (i, j): raster_{i}_{j}.tif. */
  function OutputName(i: nat, j: nat): string {
    NamePrefix + Decimal(i) + "_" + Decimal(j) + NameSuffix
  }

  /** The OUTPUT parameter: the tile's file inside the working directory. */
  function OutputPath(dir: string, i: nat, j: nat): string {
    dir + "/" + OutputName(i, j)
  }

  /** Reads the lattice indices back from a tile file name; None for a name
      not of the form raster_{i}_{j}.tif. */
  function ParseOutputName(s: string): Option<(nat, nat)> {
    if |s| < |NamePrefix| + |NameSuffix|
       || s[..|NamePrefix|] != NamePrefix
       || s[|s| - |NameSuffix|..] != NameSuffix
    then
      None
    else
      var mid := s[|NamePrefix|..|s| - |NameSuffix|];
      var k := IndexOf(mid, '_');
      if k == |mid| then
        None
      else
        var a, c := mid[..k], mid[k + 1..];
        if |a| == 0 || |c| == 0 || !AllDigits(a) || !AllDigits(c) then None
        else Some((ParseDecimal(a), ParseDecimal(c)))
  }

  /** The indices of a tile are recovered from its file name. */
  lemma OutputNameRoundTrip(i: nat, j: nat)
    ensures ParseOutputName(OutputName(i, j)) == Some((i, j))
  {
    var di, dj := Decimal(i), Decimal(j);
    var s := OutputName(i, j);
    assert s[..|NamePrefix|] == NamePrefix;
    assert s[|s| - |NameSuffix|..] == NameSuffix;
    var mid := s[|NamePrefix|..|s| - |NameSuffix|];
    assert mid == di + "_" + dj;
    assert mid[|di|] == '_';
    assert IndexOf(mid, '_') == |di|;
    assert mid[..|di|] == di;
    assert mid[|di| + 1..] == dj;
    DecimalRoundTrip(i);
    DecimalRoundTrip(j);
  }

  /** Collision freedom: two tiles written to the same directory get the
      same path only if they are the same lattice cell. */
  lemma OutputPathInjective(dir: string, i: nat, j: nat, i': nat, j': nat)
    requires OutputPath(dir, i, j) == OutputPath(dir, i', j')
    ensures i == i' && j == j'
  {
    var n, n' := OutputName(i, j), OutputName(i', j');
    assert OutputPath(dir, i, j)[|dir| + 1..] == n;
    assert OutputPath(dir, i', j')[|dir| + 1..] == n';
    OutputNameRoundTrip(i, j);
    OutputNameRoundTrip(i', j');
  }
}

/**
 The regular raster grid of the coverage engine: a north-up grid whose
 origin is the top-left corner of the analysis box, square pixels, and the
 pixel-centre coordinates derived from it.
 */
module RasterGrid {
  import opened Numerics

  /** An axis-aligned box `(minx, miny, maxx, maxy)` in a planar metric frame. */
  datatype Bounds = Bounds(minx: real, miny: real, maxx: real, maxy: real)

  /** Origin is the top-left corner; rows go down (decreasing y). */
  datatype Grid = Grid(originX: real, originY: real, pixelSize: real, width: nat, height: nat)

  predicate WellFormedBounds(b: Bounds)
  {
    b.minx <= b.maxx && b.miny <= b.maxy
  }

  predicate ValidGrid(g: Grid)
  {
    g.pixelSize > 0.0
  }

  /** The box grown by `margin` on all four sides. */
  function Expand(b: Bounds, margin: real): (e: Bounds)
    requires margin >= 0.0
    ensures e.maxx - e.minx == b.maxx - b.minx + 2.0 * margin
    ensures e.maxy - e.miny == b.maxy - b.miny + 2.0 * margin
    ensures WellFormedBounds(b) ==> WellFormedBounds(e)
    ensures e.minx <= b.minx && e.miny <= b.miny && b.maxx <= e.maxx && b.maxy <= e.maxy
  {
    Bounds(b.minx - margin, b.miny - margin, b.maxx + margin, b.maxy + margin)
  }

  /** Number of pixels of size `p` needed to span `extent`, rounded up. */
  function PixelCount(extent: real, p: real): (n: nat)
    requires extent >= 0.0 && p > 0.0
    ensures n as real * p >= extent
    ensures (n as real - 1.0) * p < extent
  {
    var q := extent / p;
    var c := Ceil(q);
    assert q * p == extent;
    assert c as real - 1.0 < q <= c as real;
    MulMonotone(q, c as real, p);
    MulStrict(c as real - 1.0, q, p);
    assert (c as real - 1.0) * p < extent;
    c
  }

  lemma MulMonotone(a: real, b: real, p: real)
    requires a <= b && p > 0.0
    ensures a * p <= b * p
  {
  }

  lemma MulStrict(a: real, b: real, p: real)
    requires a < b && p > 0.0
    ensures a * p < b * p
  {
  }

  /** The grid spanning `b` with pixels of size `p`, anchored at `(minx, maxy)`. */
  function MakeGrid(b: Bounds, p: real): (g: Grid)
    requires WellFormedBounds(b) && p > 0.0
    ensures ValidGrid(g) && g.pixelSize == p
    ensures g.originX == b.minx && g.originY == b.maxy
  {
    Grid(b.minx, b.maxy, p, PixelCount(b.maxx - b.minx, p), PixelCount(b.maxy - b.miny, p))
  }

  function RightEdge(g: Grid): real
  {
    g.originX + g.width as real * g.pixelSize
  }

  function BottomEdge(g: Grid): real
  {
    g.originY - g.height as real * g.pixelSize
  }

  /** x of the centre of column `c`. */
  function CenterX(g: Grid, c: int): real
  {
    g.originX + (c as real + 0.5) * g.pixelSize
  }

  /** y of the centre of row `r` (row 0 is the top). */
  function CenterY(g: Grid, r: int): real
  {
    g.originY - (r as real + 0.5) * g.pixelSize
  }

  /**
   The grid covers the box: it starts at the box's left and top edges and
   overshoots by less than one pixel, on the right and bottom only.
   */
  lemma GridCoversBox(b: Bounds, p: real)
    requires WellFormedBounds(b) && p > 0.0
    ensures var g := MakeGrid(b, p);
      && g.originX == b.minx && g.originY == b.maxy
      && b.maxx <= RightEdge(g) < b.maxx + p
      && b.miny - p < BottomEdge(g) <= b.miny
  {
    var g := MakeGrid(b, p);
    var w := PixelCount(b.maxx - b.minx, p);
    var h := PixelCount(b.maxy - b.miny, p);
    assert (w as real - 1.0) * p == w as real * p - p;
    assert (h as real - 1.0) * p == h as real * p - p;
  }

  /** The analysis grid of the coverage run: the box plus the kernel radius on every side. */
  function AnalysisGrid(country: Bounds, p: real, kernelRadius: real): (g: Grid)
    requires WellFormedBounds(country) && p > 0.0 && kernelRadius >= 0.0
    ensures ValidGrid(g)
    ensures g.originX == country.minx - kernelRadius && g.originY == country.maxy + kernelRadius
    ensures RightEdge(g) >= country.maxx + kernelRadius
    ensures BottomEdge(g) <= country.miny - kernelRadius
  {
    var e := Expand(country, kernelRadius);
    GridCoversBox(e, p);
    MakeGrid(e, p)
  }

  /** Every pixel centre lies strictly inside the grid's extent. */
  lemma CentreInsideExtent(g: Grid, r: int, c: int)
    requires ValidGrid(g)
    requires 0 <= r < g.height && 0 <= c < g.width
    ensures g.originX < CenterX(g, c) < RightEdge(g)
    ensures BottomEdge(g) < CenterY(g, r) < g.originY
  {
    MulStrict(0.0, c as real + 0.5, g.pixelSize);
    MulStrict(c as real + 0.5, g.width as real, g.pixelSize);
    MulStrict(0.0, r as real + 0.5, g.pixelSize);
    MulStrict(r as real + 0.5, g.height as real, g.pixelSize);
  }

  /** y strictly decreases down the rows and x strictly increases along the columns. */
  lemma CentresOrdered(g: Grid, r1: int, r2: int, c1: int, c2: int)
    requires ValidGrid(g)
    requires r1 < r2 && c1 < c2
    ensures CenterY(g, r1) > CenterY(g, r2)
    ensures CenterX(g, c1) < CenterX(g, c2)
  {
    MulStrict(r1 as real + 0.5, r2 as real + 0.5, g.pixelSize);
    MulStrict(c1 as real + 0.5, c2 as real + 0.5, g.pixelSize);
  }

  /** Neighbouring centres are exactly one pixel apart. */
  lemma CentreSpacing(g: Grid, r: int, c: int)
    ensures CenterX(g, c + 1) - CenterX(g, c) == g.pixelSize
    ensures CenterY(g, r) - CenterY(g, r + 1) == g.pixelSize
  {
  }
}

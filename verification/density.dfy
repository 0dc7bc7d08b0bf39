/**
 Quadratic-kernel density accumulation. Every populated point spreads its
 weight `w` over the pixel centres within the kernel radius `r` with the
 profile `w * (1 - (d/r)^2)`; a pixel's value is the sum of the
 contributions it receives. Distances are compared through their squares,
 and the spatial index's radius query is replaced by its meaning: exactly
 the pixel centres whose distance to the point is at most `r`.
 */
module Density {
  import opened Wrappers
  import opened RasterGrid

  /** A population centroid; `weight` is `None` where the source cell is NaN. */
  datatype WeightedPoint = WeightedPoint(x: real, y: real, weight: Option<real>)

  /**
   The kernel radius `r` together with its square, the quantity that
   distances are compared against.
   */
  datatype Kernel = Kernel(radius: real, radiusSq: real)

  type KernelRadius = k: Kernel | k.radius > 0.0 && k.radiusSq == k.radius * k.radius && k.radiusSq > 0.0
    witness Kernel(1.0, 1.0)

  /** The weight after `fillna(0)`. */
  function Weight(p: WeightedPoint): real
  {
    match p.weight
    case Some(w) => w
    case None => 0.0
  }

  function SquaredDistance(x1: real, y1: real, x2: real, y2: real): (d2: real)
    ensures d2 >= 0.0
  {
    (x1 - x2) * (x1 - x2) + (y1 - y2) * (y1 - y2)
  }

  /** The radius query: the centre `(cx, cy)` is within distance `r` of the point. */
  predicate InRadius(p: WeightedPoint, cx: real, cy: real, kr: KernelRadius)
  {
    SquaredDistance(cx, cy, p.x, p.y) <= kr.radiusSq
  }

  /**
   What one point adds to the pixel centred at `(cx, cy)`: nothing when its
   weight is zero (the point is skipped) or the centre is outside the
   radius, else `w * (1 - d^2 / r^2)`.
   */
  function Contribution(p: WeightedPoint, cx: real, cy: real, kr: KernelRadius): (c: real)
    ensures !InRadius(p, cx, cy, kr) ==> c == 0.0
    ensures Weight(p) >= 0.0 ==> 0.0 <= c <= Weight(p)
  {
    if Weight(p) == 0.0 || !InRadius(p, cx, cy, kr) then 0.0
    else
      var d2 := SquaredDistance(cx, cy, p.x, p.y);
      RatioBounds(d2, kr.radiusSq);
      assert Weight(p) >= 0.0 ==> Weight(p) * (1.0 - d2 / kr.radiusSq) <= Weight(p) * 1.0;
      KernelValue(p, cx, cy, kr)
  }

  /** The quadratic profile `w * (1 - (d/r)^2)`, written with squared distances. */
  function KernelValue(p: WeightedPoint, cx: real, cy: real, kr: KernelRadius): real
  {
    Weight(p) * (1.0 - SquaredDistance(cx, cy, p.x, p.y) / kr.radiusSq)
  }

  lemma DivSelf(x: real)
    requires x != 0.0
    ensures x / x == 1.0
  {
  }

  lemma RatioBounds(a: real, b: real)
    requires 0.0 <= a <= b && b > 0.0
    ensures 0.0 <= a / b <= 1.0
  {
    assert a / b * b == a;
  }

  /** Accumulated density at one pixel centre, points taken in list order. */
  function CellDensity(pts: seq<WeightedPoint>, cx: real, cy: real, kr: KernelRadius): real
  {
    if |pts| == 0 then 0.0
    else CellDensity(pts[..|pts| - 1], cx, cy, kr) + Contribution(pts[|pts| - 1], cx, cy, kr)
  }

  /** The heat map as a `height x width` row-major raster (row 0 at the top). */
  function Heatmap(pts: seq<WeightedPoint>, g: Grid, kr: KernelRadius): (heat: seq<seq<real>>)
    ensures |heat| == g.height
    ensures forall row :: 0 <= row < g.height ==> |heat[row]| == g.width
  {
    seq(g.height, row requires 0 <= row < g.height =>
      seq(g.width, col requires 0 <= col < g.width =>
        CellDensity(pts, CenterX(g, col), CenterY(g, row), kr)))
  }

  // ---------------------------------------------------------------------
  // The kernel

  /** A point gives its full weight to a pixel centred exactly on it. */
  lemma ContributionAtOwnLocation(p: WeightedPoint, kr: KernelRadius)
    ensures Contribution(p, p.x, p.y, kr) == Weight(p)
  {
    assert SquaredDistance(p.x, p.y, p.x, p.y) == 0.0;
  }

  /**
   A point gives nothing to a pixel centre at exactly distance `r`, so
   whether the radius query includes its boundary does not matter.
   */
  lemma ContributionVanishesOnBoundary(p: WeightedPoint, cx: real, cy: real, kr: KernelRadius)
    requires SquaredDistance(cx, cy, p.x, p.y) == kr.radiusSq
    ensures Contribution(p, cx, cy, kr) == 0.0
  {
    DivSelf(kr.radiusSq);
  }

  // ---------------------------------------------------------------------
  // Sums of contributions

  /** Density is additive over concatenated point lists. */
  lemma {:induction false} DensityAppend(a: seq<WeightedPoint>, b: seq<WeightedPoint>, cx: real, cy: real, kr: KernelRadius)
    ensures CellDensity(a + b, cx, cy, kr) == CellDensity(a, cx, cy, kr) + CellDensity(b, cx, cy, kr)
    decreases |b|
  {
    if |b| == 0 {
      assert a + b == a;
    } else {
      var b' := b[..|b| - 1];
      assert (a + b)[..|a + b| - 1] == a + b';
      DensityAppend(a, b', cx, cy, kr);
    }
  }

  /** Removing one point subtracts exactly that point's contribution. */
  lemma DensityWithout(s: seq<WeightedPoint>, j: int, cx: real, cy: real, kr: KernelRadius)
    requires 0 <= j < |s|
    ensures CellDensity(s, cx, cy, kr)
         == CellDensity(s[..j] + s[j + 1..], cx, cy, kr) + Contribution(s[j], cx, cy, kr)
  {
    assert s == s[..j] + [s[j]] + s[j + 1..];
    DensityAppend(s[..j] + [s[j]], s[j + 1..], cx, cy, kr);
    DensityAppend(s[..j], [s[j]], cx, cy, kr);
    DensityAppend(s[..j], s[j + 1..], cx, cy, kr);
    assert CellDensity([s[j]], cx, cy, kr) == Contribution(s[j], cx, cy, kr) by {
      assert [s[j]][..0] == [];
    }
  }

  /** The density does not depend on the order in which points are listed. */
  lemma {:induction false} DensityPermutation(a: seq<WeightedPoint>, b: seq<WeightedPoint>, cx: real, cy: real, kr: KernelRadius)
    requires multiset(a) == multiset(b)
    ensures CellDensity(a, cx, cy, kr) == CellDensity(b, cx, cy, kr)
    decreases |a|
  {
    if |a| > 0 {
      var n := |a| - 1;
      var x := a[n];
      assert a == a[..n] + [x];
      assert x in multiset(b);
      var j :| 0 <= j < |b| && b[j] == x;
      var rest := b[..j] + b[j + 1..];
      assert b == b[..j] + [x] + b[j + 1..];
      assert multiset(b) == multiset(rest) + multiset{x};
      assert multiset(a) == multiset(a[..n]) + multiset{x};
      assert multiset(a[..n]) == multiset(a) - multiset{x};
      assert multiset(rest) == multiset(b) - multiset{x};
      DensityPermutation(a[..n], rest, cx, cy, kr);
      DensityWithout(b, j, cx, cy, kr);
    } else {
      assert |b| == |multiset(b)| == 0;
    }
  }

  /** With non-negative weights the density is non-negative. */
  lemma {:induction false} DensityNonNegative(pts: seq<WeightedPoint>, cx: real, cy: real, kr: KernelRadius)
    requires forall i :: 0 <= i < |pts| ==> Weight(pts[i]) >= 0.0
    ensures CellDensity(pts, cx, cy, kr) >= 0.0
    decreases |pts|
  {
    if |pts| > 0 {
      DensityNonNegative(pts[..|pts| - 1], cx, cy, kr);
    }
  }

  /** A pixel centre farther than `r` from every weighted point stays 0. */
  lemma {:induction false} DensityBoundedSupport(pts: seq<WeightedPoint>, cx: real, cy: real, kr: KernelRadius)
    requires forall i :: 0 <= i < |pts| ==> Weight(pts[i]) == 0.0 || !InRadius(pts[i], cx, cy, kr)
    ensures CellDensity(pts, cx, cy, kr) == 0.0
    decreases |pts|
  {
    if |pts| > 0 {
      DensityBoundedSupport(pts[..|pts| - 1], cx, cy, kr);
    }
  }

  /** Only points with non-zero weight within the radius reach a pixel. */
  lemma DensityPositiveHasSource(pts: seq<WeightedPoint>, cx: real, cy: real, kr: KernelRadius)
    requires CellDensity(pts, cx, cy, kr) != 0.0
    ensures exists i :: 0 <= i < |pts| && Weight(pts[i]) != 0.0 && InRadius(pts[i], cx, cy, kr)
  {
    if forall i :: 0 <= i < |pts| ==> Weight(pts[i]) == 0.0 || !InRadius(pts[i], cx, cy, kr) {
      DensityBoundedSupport(pts, cx, cy, kr);
    }
  }

  /** Appending a point of zero (or missing) weight leaves every pixel unchanged. */
  lemma ZeroWeightNeutral(pts: seq<WeightedPoint>, p: WeightedPoint, j: int, cx: real, cy: real, kr: KernelRadius)
    requires Weight(p) == 0.0 && 0 <= j <= |pts|
    ensures CellDensity(pts[..j] + [p] + pts[j..], cx, cy, kr) == CellDensity(pts, cx, cy, kr)
  {
    var s := pts[..j] + [p] + pts[j..];
    assert s[..j] + s[j + 1..] == pts by {
      assert s[..j] == pts[..j];
      assert s[j + 1..] == pts[j..];
    }
    DensityWithout(s, j, cx, cy, kr);
  }

  /** The heat map is invariant under any reordering of the point list. */
  lemma HeatmapPermutation(a: seq<WeightedPoint>, b: seq<WeightedPoint>, g: Grid, kr: KernelRadius)
    requires multiset(a) == multiset(b)
    ensures Heatmap(a, g, kr) == Heatmap(b, g, kr)
  {
    var ha, hb := Heatmap(a, g, kr), Heatmap(b, g, kr);
    forall row | 0 <= row < g.height
      ensures ha[row] == hb[row]
    {
      forall col | 0 <= col < g.width
        ensures ha[row][col] == hb[row][col]
      {
        DensityPermutation(a, b, CenterX(g, col), CenterY(g, row), kr);
      }
    }
  }

  /** Scenario: a single point of weight `w` at a pixel centre yields `w` there and 0 at distance `r`. */
  lemma SinglePointScenario(g: Grid, row: int, col: int, w: real, kr: KernelRadius, cx: real, cy: real)
    requires SquaredDistance(cx, cy, CenterX(g, col), CenterY(g, row)) == kr.radiusSq
    ensures var p := WeightedPoint(CenterX(g, col), CenterY(g, row), Some(w));
      && CellDensity([p], CenterX(g, col), CenterY(g, row), kr) == w
      && CellDensity([p], cx, cy, kr) == 0.0
  {
    var p := WeightedPoint(CenterX(g, col), CenterY(g, row), Some(w));
    assert [p][..0] == [];
    ContributionAtOwnLocation(p, kr);
    ContributionVanishesOnBoundary(p, cx, cy, kr);
  }

  // ---------------------------------------------------------------------
  // The accumulation loop

  /** `row` holds the density of row `r` of the grid for the points `pts`. */
  ghost predicate RowAccumulated(row: seq<real>, r: int, pts: seq<WeightedPoint>, g: Grid, kr: KernelRadius)
  {
    && |row| == g.width
    && forall c :: 0 <= c < g.width ==> row[c] == CellDensity(pts, CenterX(g, c), CenterY(g, r), kr)
  }

  /** `heat` holds the density of every pixel for the points `pts`. */
  ghost predicate Accumulated(heat: seq<seq<real>>, pts: seq<WeightedPoint>, g: Grid, kr: KernelRadius)
  {
    && |heat| == g.height
    && forall r :: 0 <= r < g.height ==> RowAccumulated(heat[r], r, pts, g, kr)
  }

  /**
   The pixels of one row returned by the radius query around `p` receive
   the kernel value; the others are left as they are.
   */
  method AddPointToRow(row: seq<real>, r: int, done: seq<WeightedPoint>, p: WeightedPoint, g: Grid, kr: KernelRadius)
    returns (next: seq<real>)
    requires Weight(p) != 0.0
    requires RowAccumulated(row, r, done, g, kr)
    ensures RowAccumulated(next, r, done + [p], g, kr)
  {
    var pts := done + [p];
    assert pts[..|pts| - 1] == done;
    var cy := CenterY(g, r);
    next := row;
    var c := 0;
    while c < g.width
      invariant 0 <= c <= g.width && |next| == g.width
      invariant forall j :: 0 <= j < c ==> next[j] == CellDensity(pts, CenterX(g, j), cy, kr)
      invariant forall j :: c <= j < g.width ==> next[j] == row[j]
    {
      var cx := CenterX(g, c);
      if InRadius(p, cx, cy, kr) {
        next := next[c := next[c] + KernelValue(p, cx, cy, kr)];
      }
      c := c + 1;
    }
  }

  /** One pass of the source's loop body for the point `p`, over all rows. */
  method AddPoint(heat: seq<seq<real>>, done: seq<WeightedPoint>, p: WeightedPoint, g: Grid, kr: KernelRadius)
    returns (next: seq<seq<real>>)
    requires Weight(p) != 0.0
    requires Accumulated(heat, done, g, kr)
    ensures Accumulated(next, done + [p], g, kr)
  {
    next := heat;
    var r := 0;
    while r < g.height
      invariant 0 <= r <= g.height && |next| == g.height
      invariant forall j :: 0 <= j < r ==> RowAccumulated(next[j], j, done + [p], g, kr)
      invariant forall j :: r <= j < g.height ==> next[j] == heat[j]
    {
      var row := AddPointToRow(next[r], r, done, p, g, kr);
      next := next[r := row];
      r := r + 1;
    }
  }

  /**
   The source's loop: starting from an all-zero `height x width` raster,
   every point of non-zero weight adds its kernel to the pixels its radius
   query returns; zero-weight points are skipped. The result is the heat map.
   */
  method BuildHeatmap(pts: seq<WeightedPoint>, g: Grid, kr: KernelRadius) returns (heat: seq<seq<real>>)
    ensures heat == Heatmap(pts, g, kr)
  {
    heat := seq(g.height, _ => seq(g.width, _ => 0.0));
    var i := 0;
    while i < |pts|
      invariant 0 <= i <= |pts|
      invariant Accumulated(heat, pts[..i], g, kr)
    {
      assert pts[..i + 1] == pts[..i] + [pts[i]];
      if Weight(pts[i]) != 0.0 {
        heat := AddPoint(heat, pts[..i], pts[i], g, kr);
      } else {
        forall r, c | 0 <= r < g.height && 0 <= c < g.width
          ensures heat[r][c] == CellDensity(pts[..i + 1], CenterX(g, c), CenterY(g, r), kr)
        {
          assert pts[..i + 1][..i] == pts[..i];
        }
      }
      i := i + 1;
    }
    assert pts[..|pts|] == pts;
    var expected := Heatmap(pts, g, kr);
    forall r | 0 <= r < g.height
      ensures heat[r] == expected[r]
    {
      assert RowAccumulated(heat[r], r, pts, g, kr);
    }
  }
}

/**
 Element-wise raster algebra over same-shaped rasters: the strict
 threshold, multiplication, the 0/1 mask a polygon rasterises to, clipping
 by such a mask, and the cell sum used for the final counts.
 */
module RasterAlgebra {
  import opened RasterGrid

  /** A band in row-major order, row 0 at the top. Masks hold 0.0 and 1.0. */
  type Raster = seq<seq<real>>

  predicate HasShape(a: Raster, height: nat, width: nat)
  {
    |a| == height && forall r :: 0 <= r < height ==> |a[r]| == width
  }

  predicate SameShape(a: Raster, b: Raster)
  {
    |a| == |b| && forall r :: 0 <= r < |a| ==> |a[r]| == |b[r]|
  }

  predicate IsBinary(a: Raster)
  {
    forall r, c :: 0 <= r < |a| && 0 <= c < |a[r]| ==> a[r][c] == 0.0 || a[r][c] == 1.0
  }

  /** `(a > t).astype(uint8)`: 1 where the value exceeds `t`, ties going to 0. */
  function Threshold(a: Raster, t: real): (b: Raster)
    ensures SameShape(a, b) && IsBinary(b)
    ensures forall r, c :: 0 <= r < |a| && 0 <= c < |a[r]| ==> (b[r][c] == 1.0 <==> a[r][c] > t)
  {
    seq(|a|, r requires 0 <= r < |a| =>
      seq(|a[r]|, c requires 0 <= c < |a[r]| => if a[r][c] > t then 1.0 else 0.0))
  }

  /** Element-wise product `a * b`. */
  function Multiply(a: Raster, b: Raster): (m: Raster)
    requires SameShape(a, b)
    ensures SameShape(a, m)
  {
    seq(|a|, r requires 0 <= r < |a| =>
      seq(|a[r]|, c requires 0 <= c < |a[r]| => a[r][c] * b[r][c]))
  }

  /**
   The 0/1 raster a polygon burns into the grid: 1 where the pixel centre
   lies inside the polygon (`inside`), 0 (the fill) elsewhere.
   */
  function Mask(g: Grid, inside: (real, real) -> bool): (m: Raster)
    ensures HasShape(m, g.height, g.width) && IsBinary(m)
    ensures forall r, c :: 0 <= r < g.height && 0 <= c < g.width ==>
      (m[r][c] == 1.0 <==> inside(CenterX(g, c), CenterY(g, r)))
  {
    seq(g.height, r requires 0 <= r < g.height =>
      seq(g.width, c requires 0 <= c < g.width =>
        if inside(CenterX(g, c), CenterY(g, r)) then 1.0 else 0.0))
  }

  /** `clip_raster_by_country`: multiply by the country's rasterised mask. */
  function ClipByMask(a: Raster, g: Grid, inside: (real, real) -> bool): (m: Raster)
    requires HasShape(a, g.height, g.width)
    ensures HasShape(m, g.height, g.width)
  {
    Multiply(a, Mask(g, inside))
  }

  /** Sum of all cells (`array.sum(axis=(0,1))`). */
  function RasterSum(a: Raster): real
  {
    if |a| == 0 then 0.0 else RasterSum(a[..|a| - 1]) + RowSum(a[|a| - 1])
  }

  function RowSum(row: seq<real>): real
  {
    if |row| == 0 then 0.0 else RowSum(row[..|row| - 1]) + row[|row| - 1]
  }

  // ---------------------------------------------------------------------
  // Properties

  /** Clipping zeroes the cells outside the polygon and keeps the others. */
  lemma ClipKeepsInsideZeroesOutside(a: Raster, g: Grid, inside: (real, real) -> bool, r: int, c: int)
    requires HasShape(a, g.height, g.width)
    requires 0 <= r < g.height && 0 <= c < g.width
    ensures inside(CenterX(g, c), CenterY(g, r)) ==> ClipByMask(a, g, inside)[r][c] == a[r][c]
    ensures !inside(CenterX(g, c), CenterY(g, r)) ==> ClipByMask(a, g, inside)[r][c] == 0.0
  {
  }

  /** Multiplying by a 0/1 mask keeps a cell where the mask is 1 and zeroes it where it is 0. */
  lemma MultiplyByBinary(a: Raster, m: Raster, r: int, c: int)
    requires SameShape(a, m) && IsBinary(m)
    requires 0 <= r < |a| && 0 <= c < |a[r]|
    ensures Multiply(a, m)[r][c] == (if m[r][c] == 1.0 then a[r][c] else 0.0)
  {
  }

  /** Multiplication commutes, and a product is 0 wherever either factor is 0. */
  lemma MultiplyCommutes(a: Raster, b: Raster)
    requires SameShape(a, b)
    ensures Multiply(a, b) == Multiply(b, a)
    ensures forall r, c :: 0 <= r < |a| && 0 <= c < |a[r]| && (a[r][c] == 0.0 || b[r][c] == 0.0) ==>
      Multiply(a, b)[r][c] == 0.0
  {
    var ab, ba := Multiply(a, b), Multiply(b, a);
    forall r | 0 <= r < |a|
      ensures ab[r] == ba[r]
    {
      assert forall c :: 0 <= c < |a[r]| ==> ab[r][c] == ba[r][c];
    }
  }

  /** The product of two binary rasters is binary. */
  lemma MultiplyBinary(a: Raster, b: Raster)
    requires SameShape(a, b) && IsBinary(a) && IsBinary(b)
    ensures IsBinary(Multiply(a, b))
  {
  }

  /**
   Selecting the cells of a 0/1 raster that are above 0 reproduces it:
   thresholding is idempotent.
   */
  lemma ThresholdIdempotent(a: Raster)
    requires IsBinary(a)
    ensures Threshold(a, 0.0) == a
    ensures Threshold(Threshold(a, 0.0), 0.0) == Threshold(a, 0.0)
  {
    var b := Threshold(a, 0.0);
    forall r | 0 <= r < |a|
      ensures b[r] == a[r]
    {
      assert forall c :: 0 <= c < |a[r]| ==> b[r][c] == a[r][c];
    }
  }

  /** A cell-wise smaller raster has a smaller sum. */
  lemma {:induction false} RowSumMonotone(x: seq<real>, y: seq<real>)
    requires |x| == |y|
    requires forall c :: 0 <= c < |x| ==> x[c] <= y[c]
    ensures RowSum(x) <= RowSum(y)
  {
    if |x| > 0 {
      RowSumMonotone(x[..|x| - 1], y[..|y| - 1]);
    }
  }

  lemma {:induction false} RasterSumMonotone(a: Raster, b: Raster)
    requires SameShape(a, b)
    requires forall r, c :: 0 <= r < |a| && 0 <= c < |a[r]| ==> a[r][c] <= b[r][c]
    ensures RasterSum(a) <= RasterSum(b)
  {
    if |a| > 0 {
      var n := |a| - 1;
      RasterSumMonotone(a[..n], b[..n]);
      RowSumMonotone(a[n], b[n]);
    }
  }

  /** A raster of non-negative cells has a non-negative sum. */
  lemma {:induction false} RasterSumNonNegative(a: Raster)
    requires forall r, c :: 0 <= r < |a| && 0 <= c < |a[r]| ==> a[r][c] >= 0.0
    ensures RasterSum(a) >= 0.0
  {
    if |a| > 0 {
      var n := |a| - 1;
      RasterSumNonNegative(a[..n]);
      var zero := seq(|a[n]|, _ => 0.0);
      RowSumMonotone(zero, a[n]);
      RowSumZero(|a[n]|);
    }
  }

  lemma {:induction false} RowSumZero(n: nat)
    ensures RowSum(seq(n, _ => 0.0)) == 0.0
  {
    if n > 0 {
      assert seq(n, _ => 0.0)[..n - 1] == seq(n - 1, _ => 0.0);
      RowSumZero(n - 1);
    }
  }
}

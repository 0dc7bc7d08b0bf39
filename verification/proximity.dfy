/**
 The substation proximity mask: 0 on pixels whose centre falls in the
 union of the buffers around the substations ("near"), 1 everywhere else
 ("far"). The buffer polygon and its rasterisation are abstracted as a
 containment predicate on pixel centres.
 */
module Proximity {
  import opened RasterGrid
  import opened RasterAlgebra

  /** A substation location. */
  datatype Site = Site(x: real, y: real)

  /**
   Whether `(x, y)` lies in the union of the buffers: some substation's
   buffer polygon (`inBuffer`) contains it.
   */
  predicate Burned(sites: seq<Site>, inBuffer: (Site, real, real) -> bool, x: real, y: real)
  {
    exists i :: 0 <= i < |sites| && inBuffer(sites[i], x, y)
  }

  /**
   `rasterize_substation_buffer`: with no substations there is no merged
   polygon and the raster is all ones; otherwise the union is burned with
   value 0 over a fill of 1.
   */
  function ProximityMask(sites: seq<Site>, g: Grid, inBuffer: (Site, real, real) -> bool): (m: Raster)
    ensures HasShape(m, g.height, g.width)
  {
    if |sites| == 0 then seq(g.height, _ => seq(g.width, _ => 1.0))
    else
      seq(g.height, r requires 0 <= r < g.height =>
        seq(g.width, c requires 0 <= c < g.width =>
          if Burned(sites, inBuffer, CenterX(g, c), CenterY(g, r)) then 0.0 else 1.0))
  }

  /** The mask only holds 0 and 1. */
  lemma ProximityIsBinary(sites: seq<Site>, g: Grid, inBuffer: (Site, real, real) -> bool)
    ensures IsBinary(ProximityMask(sites, g, inBuffer))
  {
  }

  /** Without substations every pixel is "far". */
  lemma ProximityEmptyAllOnes(g: Grid, inBuffer: (Site, real, real) -> bool)
    ensures var m := ProximityMask([], g, inBuffer);
      HasShape(m, g.height, g.width)
      && forall r, c :: 0 <= r < g.height && 0 <= c < g.width ==> m[r][c] == 1.0
  {
  }

  /** A pixel is 0 exactly when some substation's buffer contains its centre. */
  lemma ProximityZeroIffCovered(sites: seq<Site>, g: Grid, inBuffer: (Site, real, real) -> bool, r: int, c: int)
    requires 0 <= r < g.height && 0 <= c < g.width
    ensures ProximityMask(sites, g, inBuffer)[r][c] == 0.0
      <==> exists i :: 0 <= i < |sites| && inBuffer(sites[i], CenterX(g, c), CenterY(g, r))
  {
    var m := ProximityMask(sites, g, inBuffer);
    if |sites| == 0 {
      assert m[r][c] == 1.0;
    } else {
      assert m[r][c] == if Burned(sites, inBuffer, CenterX(g, c), CenterY(g, r)) then 0.0 else 1.0;
    }
  }

  /** Adding substations can only turn "far" pixels into "near" ones. */
  lemma ProximityMonotone(sites: seq<Site>, more: seq<Site>, g: Grid, inBuffer: (Site, real, real) -> bool)
    ensures var m, m' := ProximityMask(sites, g, inBuffer), ProximityMask(sites + more, g, inBuffer);
      forall r, c :: 0 <= r < g.height && 0 <= c < g.width ==> m'[r][c] <= m[r][c]
  {
    var m, m' := ProximityMask(sites, g, inBuffer), ProximityMask(sites + more, g, inBuffer);
    forall r, c | 0 <= r < g.height && 0 <= c < g.width
      ensures m'[r][c] <= m[r][c]
    {
      var x, y := CenterX(g, c), CenterY(g, r);
      if Burned(sites, inBuffer, x, y) {
        var i :| 0 <= i < |sites| && inBuffer(sites[i], x, y);
        assert (sites + more)[i] == sites[i];
      }
    }
  }

  /** The order in which substations are listed does not matter. */
  lemma ProximityPermutation(sites: seq<Site>, other: seq<Site>, g: Grid, inBuffer: (Site, real, real) -> bool)
    requires multiset(sites) == multiset(other)
    ensures ProximityMask(sites, g, inBuffer) == ProximityMask(other, g, inBuffer)
  {
    assert |sites| == |multiset(sites)| == |other|;
    forall x, y | Burned(sites, inBuffer, x, y)
      ensures Burned(other, inBuffer, x, y)
    {
      var i :| 0 <= i < |sites| && inBuffer(sites[i], x, y);
      assert sites[i] in multiset(other);
    }
    forall x, y | Burned(other, inBuffer, x, y)
      ensures Burned(sites, inBuffer, x, y)
    {
      var i :| 0 <= i < |other| && inBuffer(other[i], x, y);
      assert other[i] in multiset(sites);
    }
    var m, m' := ProximityMask(sites, g, inBuffer), ProximityMask(other, g, inBuffer);
    forall r | 0 <= r < g.height
      ensures m[r] == m'[r]
    {
    }
  }
}

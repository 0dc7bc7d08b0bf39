/**
 The coverage run of the production script: the analysis grid, the
 population heat map, its country-clipped threshold, the substation
 proximity mask, their product and its country-clipped threshold, and the
 two pixel counts with the share of populated pixels that are connected.
 The country polygon and the substation buffers are containment predicates
 on pixel centres.
 */
module Coverage {
  import opened Wrappers
  import opened RasterGrid
  import opened Density
  import opened RasterAlgebra
  import opened Proximity

  const PixelSize: real := 2000.0
  /** Kernel radius 25 km, with its square. */
  const PopulationKernel: KernelRadius := Kernel(25000.0, 625000000.0)
  /** Population density above which a pixel counts as populated. */
  const PopulationCutoff: real := 10000.0

  datatype CoverageRun = CoverageRun(
    grid: Grid,
    heatmap: Raster,
    populated: Raster,       // pop_heatmap_threshold
    proximity: Raster,
    combined: Raster,
    unconnected: Raster,     // threshold
    totalPopulated: real,    // pall
    totalUnconnected: real,  // pth
    unconnectedShare: Option<real>)  // 1 - pth/pall; None stands for NaN when pall is 0

  /**
   The raster part of `main`. `inCountry` is the country polygon's
   containment test and `inBuffer` that of a substation's 40 km buffer.
   */
  function RunCoverage(country: Bounds, population: seq<WeightedPoint>, substations: seq<Site>,
                       inCountry: (real, real) -> bool, inBuffer: (Site, real, real) -> bool): (run: CoverageRun)
    requires WellFormedBounds(country)
    ensures var g := run.grid;
      && g.originX == country.minx - PopulationKernel.radius
      && g.originY == country.maxy + PopulationKernel.radius
      && RightEdge(g) >= country.maxx + PopulationKernel.radius
      && BottomEdge(g) <= country.miny - PopulationKernel.radius
    ensures HasShape(run.populated, run.grid.height, run.grid.width)
    ensures HasShape(run.unconnected, run.grid.height, run.grid.width)
  {
    var g := AnalysisGrid(country, PixelSize, PopulationKernel.radius);
    var heat := Heatmap(population, g, PopulationKernel);
    var populated := ClipByMask(Threshold(heat, PopulationCutoff), g, inCountry);
    var proximity := ProximityMask(substations, g, inBuffer);
    var combined := Multiply(heat, proximity);
    var unconnected := ClipByMask(Threshold(combined, PopulationCutoff), g, inCountry);
    var pall := RasterSum(populated);
    var pth := RasterSum(unconnected);
    CoverageRun(g, heat, populated, proximity, combined, unconnected, pall, pth,
                if pall == 0.0 then None else Some(1.0 - pth / pall))
  }

  /** `combined` is the heat map where the proximity mask is 1 and 0 where it is 0. */
  lemma CombinedIsMaskedHeat(country: Bounds, population: seq<WeightedPoint>, substations: seq<Site>,
                             inCountry: (real, real) -> bool, inBuffer: (Site, real, real) -> bool, r: int, c: int)
    requires WellFormedBounds(country)
    requires var g := RunCoverage(country, population, substations, inCountry, inBuffer).grid;
      0 <= r < g.height && 0 <= c < g.width
    ensures var run := RunCoverage(country, population, substations, inCountry, inBuffer);
      && (run.proximity[r][c] == 1.0 ==> run.combined[r][c] == run.heatmap[r][c])
      && (run.proximity[r][c] == 0.0 ==> run.combined[r][c] == 0.0)
      && (run.proximity[r][c] == 0.0 || run.proximity[r][c] == 1.0)
  {
    var run := RunCoverage(country, population, substations, inCountry, inBuffer);
    ProximityIsBinary(substations, run.grid, inBuffer);
    MultiplyByBinary(run.heatmap, run.proximity, r, c);
  }

  /**
   What an "unconnected" pixel is: its centre is in the country, its
   population density exceeds the cutoff, and no substation buffer covers it.
   */
  lemma UnconnectedPixelMeaning(country: Bounds, population: seq<WeightedPoint>, substations: seq<Site>,
                                inCountry: (real, real) -> bool, inBuffer: (Site, real, real) -> bool, r: int, c: int)
    requires WellFormedBounds(country)
    requires var g := RunCoverage(country, population, substations, inCountry, inBuffer).grid;
      0 <= r < g.height && 0 <= c < g.width
    ensures var run := RunCoverage(country, population, substations, inCountry, inBuffer);
      var x, y := CenterX(run.grid, c), CenterY(run.grid, r);
      && (run.unconnected[r][c] == 1.0 <==>
           inCountry(x, y) && run.heatmap[r][c] > PopulationCutoff
           && !(exists i :: 0 <= i < |substations| && inBuffer(substations[i], x, y)))
      && (run.unconnected[r][c] == 0.0 || run.unconnected[r][c] == 1.0)
      && (run.populated[r][c] == 1.0 <==> inCountry(x, y) && run.heatmap[r][c] > PopulationCutoff)
      && (run.populated[r][c] == 0.0 || run.populated[r][c] == 1.0)
  {
    var run := RunCoverage(country, population, substations, inCountry, inBuffer);
    var g := run.grid;
    CombinedIsMaskedHeat(country, population, substations, inCountry, inBuffer, r, c);
    ProximityZeroIffCovered(substations, g, inBuffer, r, c);
    ClipKeepsInsideZeroesOutside(Threshold(run.combined, PopulationCutoff), g, inCountry, r, c);
    ClipKeepsInsideZeroesOutside(Threshold(run.heatmap, PopulationCutoff), g, inCountry, r, c);
  }

  /**
   Pixel by pixel the unconnected raster is below the populated one, so the
   unconnected count never exceeds the total, and when the total is
   positive the reported share lies in [0, 1].
   */
  lemma UnconnectedWithinPopulated(country: Bounds, population: seq<WeightedPoint>, substations: seq<Site>,
                                   inCountry: (real, real) -> bool, inBuffer: (Site, real, real) -> bool)
    requires WellFormedBounds(country)
    ensures var run := RunCoverage(country, population, substations, inCountry, inBuffer);
      && 0.0 <= run.totalUnconnected <= run.totalPopulated
      && (run.totalPopulated == 0.0 <==> run.unconnectedShare.None?)
      && (run.unconnectedShare.Some? ==> 0.0 <= run.unconnectedShare.value <= 1.0)
  {
    var run := RunCoverage(country, population, substations, inCountry, inBuffer);
    var g := run.grid;
    forall r, c | 0 <= r < g.height && 0 <= c < g.width
      ensures 0.0 <= run.unconnected[r][c] <= run.populated[r][c]
    {
      UnconnectedPixelMeaning(country, population, substations, inCountry, inBuffer, r, c);
    }
    RasterSumMonotone(run.unconnected, run.populated);
    RasterSumNonNegative(run.unconnected);
    if run.totalPopulated != 0.0 {
      ShareBounds(run.totalUnconnected, run.totalPopulated);
    }
  }

  lemma ShareBounds(part: real, total: real)
    requires 0.0 <= part <= total && total != 0.0
    ensures 0.0 <= 1.0 - part / total <= 1.0
  {
    assert part / total * total == part;
  }

  /** Reordering the population points or the substations changes nothing. */
  lemma CoverageOrderIndependent(country: Bounds, population: seq<WeightedPoint>, population': seq<WeightedPoint>,
                                 substations: seq<Site>, substations': seq<Site>,
                                 inCountry: (real, real) -> bool, inBuffer: (Site, real, real) -> bool)
    requires WellFormedBounds(country)
    requires multiset(population) == multiset(population')
    requires multiset(substations) == multiset(substations')
    ensures RunCoverage(country, population, substations, inCountry, inBuffer)
         == RunCoverage(country, population', substations', inCountry, inBuffer)
  {
    var g := AnalysisGrid(country, PixelSize, PopulationKernel.radius);
    HeatmapPermutation(population, population', g, PopulationKernel);
    ProximityPermutation(substations, substations', g, inBuffer);
  }
}

# Power-grid analysis scripts, modelled in Dafny

This project models the computational core of a set of scripts that
analyse OpenStreetMap power-grid data per country. It covers four parts.

- **Population coverage raster** (`spatial_analysis/scripts/script_production.py`).
  - A pixel grid is laid over the country's bounding box, widened by the
    kernel radius.
  - Population points are spread with a quadratic kernel,
    `w * (1 - (d/r)^2)` for `d <= r`, into a heat map.
  - Substation buffers are burned into a 0/1 proximity mask: 0 near a
    substation, 1 elsewhere.
  - Thresholding at 10000, clipping to the country and multiplying give
    the populated and the unconnected rasters.
  - Their sums `pall` and `pth` give the share `1 - pth/pall`.
- **Length-evolution reports** (`ohsome_power_lines_length/build_html_website.py`
  and `build_wikitable.py`).
  - Country flags from ISO codes.
  - Clamped RGB colours and their hex text.
  - The green scale of `get_color_evolution`.
  - Python's `round(float(x))` as `intify`.
  - The two `compute_evolution` variants, with their different exception
    handling.
  - The rule that decides which rows are written.
- **Data-source conflation** (`crosscheck_data_sources/conflate_sources.py`).
  - The wiki and awesome-list rows of each country are selected.
  - Their link sets are compared.
  - The report lists what each inventory is missing.
- **Line-length extraction** (`length_line_computation/extract.py`).
  - Way lengths as sums of segment distances.
  - Circuit and voltage normalisation.
  - Splitting of multi-voltage rows.
  - The per-voltage totals of circuit length.

Modules follow that structure:

| Module | Covers |
|---|---|
| `Wrappers` | `Option` and `Result` |
| `Strings` | Python `split`/`join`/`count`, ASCII `upper`/`lower`, `int()`/`str()` of integers, a plain decimal `float()` |
| `Numerics` | `math.ceil` and Python's round-half-to-even `round` |
| `RasterGrid` | The grid of `make_raster_grid` |
| `Density` | The kernel heat map of `build_heatmap_from_points` |
| `RasterAlgebra` | Thresholding, multiplying, clipping and summing rasters |
| `Proximity` | The mask of `rasterize_substation_buffer` |
| `Coverage` | The raster pipeline of `main` |
| `PyValues` | Python floats with NaN, table cells, exceptions |
| `Colors` | `clamp`, `rgb_to_hex`, `get_color_evolution` |
| `HtmlReport` | `build_html_website.py` |
| `WikiTable` | `build_wikitable.py` |
| `Conflation` | `conflate_sources.py` |
| `LineExtraction` | `extract.py` |

Geometry and I/O appear as parameters:
- a polygon's containment test is a predicate on pixel centres, `inCountry`;
- a substation buffer's containment test is `inBuffer`;
- the great-circle segment length is a function `dist`.

Python exceptions are `Result.Failure` values, and Python's NaN is the
`NaN` case of `PyValues.Float`.

`clamp`, `rgb_to_hex` and `get_color_evolution` are defined identically in
`build_html_website.py:11-24` and `build_wikitable.py:3-18`. They are
modelled once, in `Colors`.

## Model

| member | source | states |
|---|---|---|
| `Numerics.Ceil` | spatial_analysis/scripts/script_production.py:163-164 | `math.ceil`: the result is the least integer not below `x` |
| `Numerics.RoundHalfEven` | ohsome_power_lines_length/build_html_website.py:28 | `round` is within 0.5 of its argument, and an exact half goes to the even neighbour |
| `Numerics.RoundMonotone` | ohsome_power_lines_length/build_html_website.py:28 | `round` never decreases as its argument grows |
| `Numerics.RoundOfInt` | ohsome_power_lines_length/build_html_website.py:28 | rounding an integral float gives that integer back |
| `RasterGrid.Expand` | spatial_analysis/scripts/script_production.py:87-90 | the analysis box is the country box widened by the margin on every side, so it contains it |
| `RasterGrid.PixelCount` | spatial_analysis/scripts/script_production.py:163-164 | `ceil(extent / pixel)` pixels cover the extent, and one fewer would not |
| `RasterGrid.MakeGrid` | spatial_analysis/scripts/script_production.py:158-166 | the grid's origin is the top-left corner `(minx, maxy)` and its pixel size is the requested one |
| `RasterGrid.GridCoversBox` | spatial_analysis/scripts/script_production.py:162-166 | the grid covers the box and overshoots it by less than one pixel to the right and below |
| `RasterGrid.AnalysisGrid` | spatial_analysis/scripts/script_production.py:86-91 | the grid of `main` starts one kernel radius left of and above the country and reaches at least one radius past it |
| `RasterGrid.CentreInsideExtent` | spatial_analysis/scripts/script_production.py:168-170 | every pixel centre lies strictly inside the grid |
| `RasterGrid.CentresOrdered` | spatial_analysis/scripts/script_production.py:168-170 | centre x grows with the column and centre y falls with the row |
| `RasterGrid.CentreSpacing` | spatial_analysis/scripts/script_production.py:168-169 | neighbouring centres are one pixel size apart |
| `Density.SquaredDistance` | spatial_analysis/scripts/script_production.py:206 | the squared distance between a centre and a point is non-negative |
| `Density.Heatmap` | spatial_analysis/scripts/script_production.py:212 | the heat map has `height` rows of `width` cells |
| `Density.ContributionAtOwnLocation` | spatial_analysis/scripts/script_production.py:206-208 | a point adds its full weight at its own location |
| `Density.ContributionVanishesOnBoundary` | spatial_analysis/scripts/script_production.py:202-208 | a point adds nothing at exactly the kernel radius |
| `Density.DensityAppend` | spatial_analysis/scripts/script_production.py:198-210 | `heat[idxs] += weights` is additive: the density of two point lists is the sum of their densities |
| `Density.DensityWithout` | spatial_analysis/scripts/script_production.py:198-210 | removing one point removes exactly its contribution |
| `Density.DensityPermutation` | spatial_analysis/scripts/script_production.py:198-210 | the density does not depend on the order of the points |
| `Density.DensityNonNegative` | spatial_analysis/scripts/script_production.py:193-210 | non-negative populations give a non-negative density |
| `Density.Contribution` | spatial_analysis/scripts/script_production.py:198-210 | a point outside the radius adds nothing, and a non-negative weight adds between 0 and its weight |
| `Density.CellDensity` | spatial_analysis/scripts/script_production.py:198-210 | the weighted kernel sum at one centre, in list order; its meaning is stated by DensityAppend, DensityPermutation, DensityNonNegative and DensityBoundedSupport |
| `Density.DensityBoundedSupport` | spatial_analysis/scripts/script_production.py:199-204 | a cell that no weighted point reaches within the radius has density 0 |
| `Density.DensityPositiveHasSource` | spatial_analysis/scripts/script_production.py:198-210 | a non-zero cell has a weighted point within the radius |
| `Density.ZeroWeightNeutral` | spatial_analysis/scripts/script_production.py:199-200 | a point whose population is 0 or missing (`fillna(0)`) changes nothing |
| `Density.HeatmapPermutation` | spatial_analysis/scripts/script_production.py:182-213 | the heat map does not depend on the order of the points |
| `Density.SinglePointScenario` | spatial_analysis/scripts/script_production.py:202-210 | a single point on a pixel centre puts its weight there and nothing at the radius |
| `Density.AddPointToRow` | spatial_analysis/scripts/script_production.py:205-210 | adding one point's weights to a row of cells keeps that row equal to the density of the points so far |
| `Density.AddPoint` | spatial_analysis/scripts/script_production.py:202-210 | adding one point's weights to every cell within the radius keeps the raster equal to the density of the points so far |
| `Density.BuildHeatmap` | spatial_analysis/scripts/script_production.py:182-213 | the accumulation loop over the points produces exactly the kernel-density raster |
| `RasterAlgebra.Threshold` | spatial_analysis/scripts/script_production.py:112 | `(a > t).astype(uint8)` is a same-shape 0/1 raster that is 1 exactly where `a > t` |
| `RasterAlgebra.Multiply` | spatial_analysis/scripts/script_production.py:108 | the cell-wise product keeps the shape |
| `RasterAlgebra.Mask` | spatial_analysis/scripts/script_production.py:174-178 | the rasterised polygon is 1 exactly at the pixels whose centre is inside it |
| `RasterAlgebra.ClipByMask` | spatial_analysis/scripts/script_production.py:174-179 | clipping keeps the raster's shape |
| `RasterAlgebra.ClipKeepsInsideZeroesOutside` | spatial_analysis/scripts/script_production.py:174-179 | clipping keeps the pixels inside the country and zeroes the others |
| `RasterAlgebra.MultiplyByBinary` | spatial_analysis/scripts/script_production.py:108 | multiplying by a 0/1 raster keeps the cells where it is 1 and zeroes the rest |
| `RasterAlgebra.MultiplyCommutes` | spatial_analysis/scripts/script_production.py:108 | the product is commutative and zero wherever a factor is zero |
| `RasterAlgebra.MultiplyBinary` | spatial_analysis/scripts/script_production.py:112-113 | the product of two 0/1 rasters is 0/1 |
| `RasterAlgebra.ThresholdIdempotent` | spatial_analysis/scripts/script_production.py:117 | `threshold > 0` on a 0/1 raster selects exactly its 1 cells, and thresholding twice equals thresholding once |
| `RasterAlgebra.RowSumMonotone` | spatial_analysis/scripts/script_production.py:136-137 | a cell-wise smaller row has a smaller sum |
| `RasterAlgebra.RasterSumMonotone` | spatial_analysis/scripts/script_production.py:136-137 | a cell-wise smaller raster has a smaller `sum(axis=(0,1))` |
| `RasterAlgebra.RasterSumNonNegative` | spatial_analysis/scripts/script_production.py:136-137 | a non-negative raster has a non-negative sum |
| `RasterAlgebra.RasterSum` | spatial_analysis/scripts/script_production.py:136-137 | the total `sum(axis=(0,1))`; its meaning is stated by RasterSumMonotone and RasterSumNonNegative |
| `RasterAlgebra.RowSumZero` | spatial_analysis/scripts/script_production.py:136 | an all-zero row sums to 0 |
| `Proximity.ProximityMask` | spatial_analysis/scripts/script_production.py:216-238 | the proximity raster has the grid's shape |
| `Proximity.Burned` | spatial_analysis/scripts/script_production.py:229-237 | a point is burned when some substation's buffer contains it; ProximityZeroIffCovered ties it to the 0 pixels |
| `Proximity.ProximityIsBinary` | spatial_analysis/scripts/script_production.py:225-237 | the proximity raster holds only 0 and 1 |
| `Proximity.ProximityEmptyAllOnes` | spatial_analysis/scripts/script_production.py:221-228 | with no substations every pixel is 1 |
| `Proximity.ProximityZeroIffCovered` | spatial_analysis/scripts/script_production.py:229-237 | a pixel is 0 exactly when some substation buffer contains its centre |
| `Proximity.ProximityMonotone` | spatial_analysis/scripts/script_production.py:219-237 | more substations never turn a 0 pixel back to 1 |
| `Proximity.ProximityPermutation` | spatial_analysis/scripts/script_production.py:219-224 | the mask does not depend on the order of the substations |
| `Coverage.RunCoverage` | spatial_analysis/scripts/script_production.py:86-138 | the analysis grid extends one kernel radius beyond the country, and the populated and unconnected rasters have its shape |
| `Coverage.CombinedIsMaskedHeat` | spatial_analysis/scripts/script_production.py:108 | the combined raster is the heat where no substation is near and 0 where one is |
| `Coverage.UnconnectedPixelMeaning` | spatial_analysis/scripts/script_production.py:93-113 | a pixel is populated iff it is in the country with density above 10000, and unconnected iff, in addition, no substation buffer covers it |
| `Coverage.UnconnectedWithinPopulated` | spatial_analysis/scripts/script_production.py:136-138 | `0 <= pth <= pall`; the share is NaN exactly when `pall` is 0, and otherwise lies in `[0, 1]` |
| `Coverage.ShareBounds` | spatial_analysis/scripts/script_production.py:138 | `1 - part/total` lies in `[0, 1]` for `0 <= part <= total` |
| `Coverage.CoverageOrderIndependent` | spatial_analysis/scripts/script_production.py:182-238 | the whole run does not depend on the order of population points or substations |
| `PyValues.PyFloat` | ohsome_power_lines_length/build_html_website.py:28 | `float()` passes numbers through, raises `TypeError` on `None` and `ValueError` on unreadable text |
| `PyValues.PyRound` | ohsome_power_lines_length/build_html_website.py:28 | `round` of a float succeeds exactly on finite values, within 0.5, and raises `ValueError` on NaN |
| `PyValues.Numeric` | ohsome_power_lines_length/build_html_website.py:34 | arithmetic accepts numbers only; text or `None` raises `TypeError` |
| `PyValues.Div` | ohsome_power_lines_length/build_html_website.py:34 | float division raises `ZeroDivisionError` exactly for a zero divisor |
| `PyValues.FloatOfIntText` | ohsome_power_lines_length/build_html_website.py:28 | `float(str(n))` is `n` |
| `Colors.Clamp` | ohsome_power_lines_length/build_html_website.py:11-12 | the result is in `[0, 255]`, equal to `x` inside that range and to the nearest bound outside it |
| `Colors.RgbToHex` | ohsome_power_lines_length/build_html_website.py:14-15 | the colour is `#` and six lower-case hex digits |
| `Colors.RgbToHexRoundTrip` | ohsome_power_lines_length/build_html_website.py:14-15 | decoding the hex text gives back the clamped channels |
| `Colors.RgbToHexInjective` | ohsome_power_lines_length/build_html_website.py:14-15 | distinct in-range colours have distinct hex texts |
| `Colors.GreyForNoGrowth` | ohsome_power_lines_length/build_html_website.py:17-21 | NaN or a growth at most 0 is coloured `#c8c8c8` |
| `Colors.EvolutionChannels` | ohsome_power_lines_length/build_html_website.py:17-24 | NaN or a growth at most 0 gives the grey channels; positive growth gives no blue, red in [0, 170] and green in [180, 255], saturating at (0, 180, 0) from 25 on |
| `Colors.GetColorEvolution` | ohsome_power_lines_length/build_html_website.py:17-24 | the colour text is a well-formed `#rrggbb` that decodes to exactly the gradient's channels |
| `Colors.GrowthChannelBounds` | ohsome_power_lines_length/build_html_website.py:22-24 | a positive growth has red in `[0, 170]`, green in `[180, 255]` and no blue |
| `Colors.GrowthSaturates` | ohsome_power_lines_length/build_html_website.py:23-24 | from 25 % on the colour is `#00b400` |
| `Colors.GrowthChannelsNonIncreasing` | ohsome_power_lines_length/build_html_website.py:22-24 | more growth never increases red or green |
| `Colors.EvolutionColorDecodes` | ohsome_power_lines_length/build_html_website.py:17-24 | the hex colour decodes to the channels of the green scale |
| `HtmlReport.RegionalIndicator` | ohsome_power_lines_length/build_html_website.py:8 | `chr(127397 + ord(c))` maps `A`..`Z` onto the regional-indicator symbols |
| `HtmlReport.Iso2ToFlag` | ohsome_power_lines_length/build_html_website.py:3-9 | a flag is produced exactly for two ASCII letters, as the indicators of their upper-case forms; otherwise the result is empty |
| `HtmlReport.KosovoFlagIsGeneral` | ohsome_power_lines_length/build_html_website.py:5-6 | the special case for `XK` returns what the general rule gives, in either case |
| `HtmlReport.FlagCaseInsensitive` | ohsome_power_lines_length/build_html_website.py:4 | the flag does not depend on the letters' case |
| `HtmlReport.FlagRoundTrip` | ohsome_power_lines_length/build_html_website.py:7-8 | the flag decodes to the upper-cased code |
| `HtmlReport.Intify` | ohsome_power_lines_length/build_html_website.py:26-30 | the result is an integer exactly when `float(value)` succeeds with a finite value, else `"-"` |
| `HtmlReport.IntifyNumbers` | ohsome_power_lines_length/build_html_website.py:26-30 | a finite number is rounded half-to-even; NaN and `None` give `"-"` |
| `HtmlReport.IntifyIntText` | ohsome_power_lines_length/build_html_website.py:26-30 | the text of an integer reads back as that integer |
| `HtmlReport.RowSkippedNumbers` | ohsome_power_lines_length/build_html_website.py:164-166 | a country is skipped exactly when its base rounds to 0 (`-0.5 <= x <= 0.5`) or is not a finite number |
| `HtmlReport.RowSkipped` | ohsome_power_lines_length/build_html_website.py:164-166 | a country row is skipped when its base length intifies to `"-"` or 0; RowSkippedNumbers gives the numeric meaning |
| `HtmlReport.ComputeEvolution` | ohsome_power_lines_length/build_html_website.py:32-39 | the text form is returned exactly when `str` is asked for |
| `HtmlReport.GrowthRecoversValue` | ohsome_power_lines_length/build_html_website.py:34 | applying the growth percentage to the base gives back the value |
| `HtmlReport.GrowthEdgeCases` | ohsome_power_lines_length/build_html_website.py:32-39 | no change gives 0; a zero base or a non-numeric value is caught and gives 0 or `"-"` |
| `HtmlReport.KmGrowth` | ohsome_power_lines_length/build_html_website.py:176-186 | the km growth is rounded exactly when both cells are finite numbers, and is then `value - base` |
| `HtmlReport.KmGrowthClose` | ohsome_power_lines_length/build_html_website.py:177-180 | the rounded km growth is within 0.5 of `value - base` |
| `WikiTable.Intify` | ohsome_power_lines_length/build_wikitable.py:20-24 | `None` raises `TypeError`, which this version does not catch; unreadable text or NaN give `"-"` |
| `WikiTable.SignedRounded` | ohsome_power_lines_length/build_wikitable.py:47 | the `valtxt` text starts with `+` exactly for a positive difference; `round(nan)` raises |
| `WikiTable.ComputeEvolution` | ohsome_power_lines_length/build_wikitable.py:26-52 | an unknown return type raises `ValueError` |
| `WikiTable.NanValueGivesZeros` | ohsome_power_lines_length/build_wikitable.py:28-51 | a NaN value gives 0, 0, `"-"` and `"0"` in the four forms |
| `WikiTable.ZeroBaseGivesZeros` | ohsome_power_lines_length/build_wikitable.py:40-43 | a zero base is caught and gives zeros and `"-"` |
| `WikiTable.GrowthOfNumbers` | ohsome_power_lines_length/build_wikitable.py:29-31 | the difference and the percentage recover the value, and the text has a `+` exactly for growth |
| `WikiTable.GrowthOf` | ohsome_power_lines_length/build_wikitable.py:27-43 | the `try` block fails exactly when the value does not read as NaN and the value or the base is not a number, and then only with an uncaught TypeError |
| `WikiTable.ValTextOfNumbers` | ohsome_power_lines_length/build_wikitable.py:46-47 | `valtxt` is the rounded difference with `+` when the difference is positive, which gives `"+0"` for a difference in `(0, 0.5]` |
| `WikiTable.NanBaseValTextRaises` | ohsome_power_lines_length/build_wikitable.py:29-47 | a NaN base yields NaN percentages, and `valtxt` then raises `ValueError` |
| `WikiTable.NonNumericRaises` | ohsome_power_lines_length/build_wikitable.py:28-29 | subtracting text or `None` raises an uncaught `TypeError` |
| `WikiTable.RowEmitted` | ohsome_power_lines_length/build_wikitable.py:111 | a row is written exactly when the latest value rounds to a non-zero integer; `None` raises |
| `WikiTable.RowEmittedNumbers` | ohsome_power_lines_length/build_wikitable.py:111 | for numbers, a row is written exactly when `x < -0.5` or `x > 0.5` |
| `Strings.Split` | crosscheck_data_sources/conflate_sources.py:17 | `split(";")` yields at least one piece and no piece holds the separator |
| `Strings.JoinSplit` | crosscheck_data_sources/conflate_sources.py:17 | joining the pieces of a split with the separator gives back the string |
| `Strings.SplitJoin` | crosscheck_data_sources/conflate_sources.py:17 | splitting a join of separator-free pieces gives back the pieces |
| `Strings.SplitCount` | length_line_computation/extract.py:40 | a string has one more piece than it has separators |
| `Strings.Upper` | ohsome_power_lines_length/build_html_website.py:4 | `upper()` keeps the length and upper-cases each ASCII letter |
| `Strings.UpperNormalises` | ohsome_power_lines_length/build_html_website.py:4 | upper-casing is idempotent and ignores a prior lower-casing |
| `Strings.ParseInt` | length_line_computation/extract.py:38 | an optional sign followed by digits is accepted and read as that signed number; nothing else is accepted |
| `Strings.ParseIntToString` | length_line_computation/extract.py:38 | `int(str(n)) == n` |
| `Strings.ParseDecimal` | ohsome_power_lines_length/build_html_website.py:28 | an accepted text is non-empty with at most one decimal point, and a digit string reads as its integer value |
| `Strings.DecimalFractionValue` | ohsome_power_lines_length/build_html_website.py:28 | `float("a.f")` is the integer part plus the fraction digits scaled by their count |
| `Strings.NegativeFractionValue` | ohsome_power_lines_length/build_html_website.py:28 | `float("-a.f")` is the negated value of `a.f` |
| `Strings.PositiveFractionValue` | ohsome_power_lines_length/build_html_website.py:28 | `float("+a.f")` is the value of `a.f` |
| `Strings.ParseDecimalOfInt` | ohsome_power_lines_length/build_html_website.py:28 | `float(str(n)) == n` |
| `Conflation.Filter` | crosscheck_data_sources/conflate_sources.py:14-17 | a dataframe filter keeps exactly the rows satisfying the condition |
| `Conflation.FilterConcat` | crosscheck_data_sources/conflate_sources.py:14-17 | filtering keeps the rows in input order |
| `Conflation.CountryWiki` | crosscheck_data_sources/conflate_sources.py:14-16 | a wiki row is used exactly when it has no error, names the country, and has a source text other than `"xxx"` and `""` |
| `Conflation.CountryAwesome` | crosscheck_data_sources/conflate_sources.py:17 | an awesome-list row is used exactly when the country is one of its `;`-separated names |
| `Conflation.NoSubstringMatch` | crosscheck_data_sources/conflate_sources.py:17 | `Niger` does not match a row for `Nigeria;Chad` |
| `Conflation.WholeEntryMatches` | crosscheck_data_sources/conflate_sources.py:17 | `Niger` matches a row for `Nigeria;Niger` |
| `Conflation.LinksMember` | crosscheck_data_sources/conflate_sources.py:34-35 | a link is in a country's link set exactly when one of its rows carries it |
| `Conflation.UnmatchedMember` | crosscheck_data_sources/conflate_sources.py:40-41 | a row is reported missing exactly when it is selected and its link is not in the other inventory's set |
| `Conflation.Unmatched` | crosscheck_data_sources/conflate_sources.py:40-41 | the rows kept are never more than the input rows, and none of them has an excluded link |
| `Conflation.ListingLines` | crosscheck_data_sources/conflate_sources.py:23-37 | the listing has one line per selected row plus the two counts and the common count, and holds nothing else |
| `Conflation.ListingWikiRows` | crosscheck_data_sources/conflate_sources.py:24-27 | the listing names the selected wiki rows, each once, in their order |
| `Conflation.ListingAwesomeRows` | crosscheck_data_sources/conflate_sources.py:30-31 | the listing names the selected awesome-list rows, each once, in their order |
| `Conflation.MissingAwesomeSection` | crosscheck_data_sources/conflate_sources.py:40-45 | the "Missing in Awesome list" section holds its rows in order under a header that appears once when there are rows and never otherwise |
| `Conflation.MissingWikiSection` | crosscheck_data_sources/conflate_sources.py:47-52 | the "Missing OSM Wiki" section holds its rows in order under a header that appears once when there are rows and never otherwise |
| `Conflation.NoSourceIffBothEmpty` | crosscheck_data_sources/conflate_sources.py:20-21 | "No source" appears, once, exactly when neither inventory has a row for the country |
| `Conflation.Report` | crosscheck_data_sources/conflate_sources.py:18-52 | a report opens with its country's heading, has at least one more line, and holds no other heading |
| `Conflation.CountryReport` | crosscheck_data_sources/conflate_sources.py:12-52 | a country's report opens with its heading and lists exactly the wiki and awesome-list rows selected for that country, in order |
| `Conflation.EmptyReport` | crosscheck_data_sources/conflate_sources.py:18-21 | with no rows at all the report is the heading followed by "No source" |
| `Conflation.ReportWikiRows` | crosscheck_data_sources/conflate_sources.py:20-27 | the report lists exactly the selected wiki rows, each once, in their order |
| `Conflation.ReportAwesomeRows` | crosscheck_data_sources/conflate_sources.py:20-31 | the report lists exactly the selected awesome-list rows, each once, in their order |
| `Conflation.ReportListsWikiRow` | crosscheck_data_sources/conflate_sources.py:24-27 | a wiki row appears in the report exactly when it was selected |
| `Conflation.ReportListsAwesomeRow` | crosscheck_data_sources/conflate_sources.py:30-31 | an awesome-list row appears in the report exactly when it was selected |
| `Conflation.ReportMissingInAwesome` | crosscheck_data_sources/conflate_sources.py:40-45 | the "Missing in Awesome list" rows of the report are the selected wiki rows whose link the awesome list lacks, in their order |
| `Conflation.MissingInAwesomeRow` | crosscheck_data_sources/conflate_sources.py:40-41 | a wiki row is reported missing from the awesome list exactly when it was selected and its link is absent there |
| `Conflation.ReportMissingInAwesomeHeader` | crosscheck_data_sources/conflate_sources.py:42-43 | the "Missing in Awesome list" header appears once when that section has rows, and never otherwise |
| `Conflation.ReportMissingInWiki` | crosscheck_data_sources/conflate_sources.py:47-52 | the "Missing OSM Wiki" rows of the report are the selected awesome-list rows whose link the wiki lacks, in their order |
| `Conflation.MissingInWikiRow` | crosscheck_data_sources/conflate_sources.py:47-48 | an awesome-list row is reported missing from the wiki exactly when it was selected and its link is absent there |
| `Conflation.ReportMissingInWikiHeader` | crosscheck_data_sources/conflate_sources.py:49-50 | the "Missing OSM Wiki" header appears once when that section has rows, and never otherwise |
| `Conflation.CommonPlusMissingIsWikiLinks` | crosscheck_data_sources/conflate_sources.py:34-41 | the links in common and the links missing from the awesome list partition the wiki's links |
| `Conflation.Conflate` | crosscheck_data_sources/conflate_sources.py:12-18 | one report per country of the dictionary, in its order, each opening with that country's heading |
| `Conflation.ConflateRows` | crosscheck_data_sources/conflate_sources.py:12-52 | in the full run each country's report lists the rows selected for it and reports missing exactly the selected rows whose link the other inventory lacks |
| `LineExtraction.ComputeLengthWay` | length_line_computation/extract.py:25-30 | the loop over `range(len(coords) - 1)` sums the distances of consecutive vertices; a way of 0 or 1 vertex has length 0 |
| `LineExtraction.LengthWayConcat` | length_line_computation/extract.py:25-30 | joining two ways at a shared vertex adds their lengths |
| `LineExtraction.LengthWayNonNegative` | length_line_computation/extract.py:25-30 | with a non-negative distance, lengths are non-negative |
| `LineExtraction.LengthWay` | length_line_computation/extract.py:25-30 | the sum of `dist` over consecutive vertices; its meaning is stated by LengthWayConcat, LengthWayPrefixMonotone and LengthWayNonNegative |
| `LineExtraction.LengthWayPrefixMonotone` | length_line_computation/extract.py:25-30 | with a non-negative distance, a prefix of a way is no longer than the way |
| `LineExtraction.NbVoltage` | length_line_computation/extract.py:40-41 | `nb_voltage` is 0 for an empty tag and otherwise the number of `;`-separated values |
| `LineExtraction.ParseCircuits` | length_line_computation/extract.py:38 | a circuits cell fails only when present and not an integer, with `ValueError` |
| `LineExtraction.ParseCircuitsValues` | length_line_computation/extract.py:38 | a missing circuits cell means 1 circuit; an integer text reads as itself |
| `LineExtraction.PrepareLine` | length_line_computation/extract.py:37-41 | a row gets its way length, its parsed circuits and its voltage text (`""` when missing); it fails exactly when its circuits do |
| `LineExtraction.Collect` | length_line_computation/extract.py:72 | `astype(int)` on a column succeeds exactly when every cell converts, cell by cell, and otherwise raises a failing cell's error |
| `LineExtraction.CopiesFromComponents` | length_line_computation/extract.py:60-65 | the copies for `i` from `from` on carry voltage components `from - 1`, `from`, ... in order, up to the last the row has and the last `max(circuits)` allows |
| `LineExtraction.CopiesOfRow` | length_line_computation/extract.py:58-65 | a row is copied once per voltage component `1 .. min(nb_voltage, max(circuits) - 1) - 1`, each copy carrying that component |
| `LineExtraction.CopiesFrom` | length_line_computation/extract.py:58-65 | at most one copy per remaining loop index, and every copy is the row with only its voltage changed |
| `LineExtraction.Appended` | length_line_computation/extract.py:58-65 | no copies when the largest circuit count is at most 2, and every appended row is some input row with only its voltage changed |
| `LineExtraction.MaxCircuits` | length_line_computation/extract.py:60 | `max(circuits)` is a circuit count of the table and bounds all others |
| `LineExtraction.KeepFirst` | length_line_computation/extract.py:67 | an original row with two voltages keeps only the first, other rows are unchanged |
| `LineExtraction.SplitVoltages` | length_line_computation/extract.py:58-70 | the split table starts with the original rows, cut by `KeepFirst`, followed by the copies |
| `LineExtraction.NoCopiesWhenMaxAtMostTwo` | length_line_computation/extract.py:60 | `range(2, max(circuits))` is empty when the maximum is at most 2, so nothing is appended |
| `LineExtraction.SplitKeepsRowCountForFewCircuits` | length_line_computation/extract.py:58-70 | with at most two circuits everywhere the table keeps one row per line |
| `LineExtraction.AppendedContainsCopies` | length_line_computation/extract.py:58-65 | every copy made of a row ends up in the appended rows |
| `LineExtraction.TwoVoltageLineSplits` | length_line_computation/extract.py:58-70 | when some line has three or more circuits, a two-voltage line appears under both voltages |
| `LineExtraction.VoltageValue` | length_line_computation/extract.py:72 | an empty voltage becomes 0; text holding `;` or otherwise not an integer raises `ValueError` |
| `LineExtraction.ParseIntRejectsSeparator` | length_line_computation/extract.py:72 | no text holding `;` reads as an integer |
| `LineExtraction.ToSegment` | length_line_computation/extract.py:72 | a row converts exactly when its voltage does, keeping length and circuits |
| `LineExtraction.InsertSorted` | length_line_computation/extract.py:85-86 | inserting into a strictly increasing list keeps it strictly increasing and adds exactly the new value |
| `LineExtraction.SortedVoltages` | length_line_computation/extract.py:85-86 | `unique()` then `sort()` lists each voltage of the table exactly once, in increasing order |
| `LineExtraction.Totals` | length_line_computation/extract.py:87-90 | one entry per listed voltage, holding the summed circuit length of its rows |
| `LineExtraction.PerVoltage` | length_line_computation/extract.py:83-90 | the result is keyed by exactly the table's voltages, in increasing order, each with the sum of `line_length * circuits` over its rows |
| `LineExtraction.TotalsOfEmpty` | length_line_computation/extract.py:87-90 | an empty table totals 0 at every voltage |
| `LineExtraction.TotalsStep` | length_line_computation/extract.py:87-90 | one more row adds its circuit length to exactly one total |
| `LineExtraction.TotalAt` | length_line_computation/extract.py:87-90 | the total at a voltage no segment carries is 0, and totals of non-negative circuit lengths are non-negative |
| `LineExtraction.TotalsConserveLength` | length_line_computation/extract.py:83-90 | totals over distinct voltages covering the table add up to its whole circuit length |
| `LineExtraction.PerVoltageConservesLength` | length_line_computation/extract.py:83-90 | the per-voltage totals together account for the table's whole circuit length, with nothing lost or counted twice |
| `LineExtraction.Extract` | length_line_computation/extract.py:37-90 | the run fails only with `ValueError` |
| `LineExtraction.BadCircuitsFail` | length_line_computation/extract.py:38 | a circuits cell that is not an integer stops the run with `ValueError` |
| `LineExtraction.ThreeVoltagesFail` | length_line_computation/extract.py:67-72 | a line tagged with three or more voltages keeps its whole tag in its original row, so the voltage conversion fails |

## Left out

- Reading and writing files (GeoPackage, GeoTIFF, CSV, Excel, HTML, text) and the `print` diagnostics, including `extract.py:45-52` and `build_wikitable.py:120-124`. These are I/O.
- Reprojection to EPSG:3857 (`script_production.py:62`). It is an external library.
- Polygon geometry from shapely and rasterio is abstracted into predicates on pixel centres:
  - the 40 km buffers and their union;
  - the country union;
  - the burn rule of `rasterize` with its default `all_touched=False`.
- `country_union` with its 35 km buffer (`script_production.py:63`). It is only used by the disabled `if False:` block.
- The disabled block itself (`script_production.py:65-80`), `clip_population_by_country` and `compute_centroids`. They are dead code in `main`: the population is read back from a file.
- The vectorisation of the unconnected raster, the -10 km erosion and the centroids (`script_production.py:116-133`). These are geometry operations written to a file.
- The KD-tree radius query (`script_production.py:189, 202`). It is modelled by its meaning: the cells whose centre is within the radius.
- Density.Heatmap: computed in exact reals; the float64 sum and the final float32 cast are not modelled.
- Float arithmetic is exact real arithmetic:
  - infinities are not modelled;
  - `"{:0.1f}"` text formatting is kept as the number it formats;
  - `round(x, 2)` of the per-voltage totals (`extract.py:90`) is left out.
- LineExtraction.ComputeLengthWay: the haversine distance (`extract.py:12-23`) is a parameter `dist`. Its trigonometry is floating point. The source hands it the geometry's vertices, which are (longitude, latitude) pairs, but `haversine_distance` unpacks each pair as (latitude, longitude) (`extract.py:14-15`, `extract.py:26`). The axes are therefore swapped. The model keeps the vertices as (x, y) and does not say which distance `dist` computes.
- Strings.ParseDecimal: `float()` reads an optional sign, digits, an optional fraction, and `nan` in any case. Exponents, `inf`, `_` separators and surrounding whitespace are not read.
- Strings.ParseInt: `int()` reads an optional sign and decimal digits. Surrounding whitespace and `_` separators are not read.
- Strings.Upper: `upper()` and `isalpha()` are modelled for ASCII letters only.
- Sorting of the HTML table by the latest growth (`build_html_website.py:158-159`) and the HTML and wiki text templates. They are presentation.
- The `model_type == 1` branch of `build_wikitable.py:81-94`. It is switched off by `model_type = 2`.
- The merging of the length CSV files and the wikidata table (`build_html_website.py:47-57`, `build_wikitable.py:61-72`). These are pandas joins over files; each row reaches the model as its cells.
- `WORLD_COUNTRY_DICT` (`config`) is a parameter of `Conflate`. The module defining it is not part of this model.
- The per-country `open(...).write` inside the loop of `conflate_sources.py:57-58`. It is I/O.
- Every other script of the repository (Osmose fetching, indicator maps, wiki scraping, ohsome requests).

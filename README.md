# Urban land-cover change detection: a Dafny model

This project models the analysis stage of a land-use / land-cover (LULC)
change-detection pipeline. For each year from 2018 to 2025 that has a
Dynamic World label raster, the analysis counts the "Built Area" pixels
(class code 6), records the year's urban coverage as a percentage, and
writes the raster back as an 8-bit classification file. When two years or
more were processed, it compares the first and the last of them and builds
a binary "new urban area" mask: 1 where a pixel was not Built Area in the
start year and is Built Area in the end year. The report lists each year's
coverage in order, then the total growth (last coverage minus first).
The feature stack of `calculate_indices` (six reflectance bands followed by
NDVI, NDBI and MNDWI) is modelled for its band layout.

Modules:

- `Wrappers` (wrappers.dfy): `Option`, `Result` and the two errors numpy
  raises on these inputs (shape mismatch, missing band).
- `Shapes` (shapes.dfy): the "same rows, same row lengths" relation
  shared by label rasters and multi-band images.
- `Classes` (classes.dfy): the nine-entry class catalog and the Built Area code.
- `LandCover` (landcover.dfy): label rasters as `seq<seq<int>>`, pixel
  counts, the urban percentage (with NaN for an empty raster, as numpy
  gives), and the 8-bit re-encoding of the written classification file.
- `ChangeDetection` (change_detection.dfy): the change mask as a pure
  function, and `ChangeMap`, which allocates a zero `array2<int>` shaped
  like the start raster and sets the newly urban pixels to 1 in place,
  proved equal to that function.
- `Features` (features.dfy): the band layout of the feature stack.
- `Analysis` (analysis.dfy): the year loop, the change-map endpoints, the
  growth figure, the report lines and the whole pipeline.

The label files are an input `map<int, Grid>`: a year is a key exactly when
its `LandCover_<year>.tif` exists, and its value is the squeezed label
raster read from it.

## Model

| member | source | states |
|---|---|---|
| `Classes.ClassName` | main_analysis.py:16-26 | the catalog names exactly the codes 0 to 8, and code 6 is "Built Area" |
| `LandCover.Count` | main_analysis.py:128 | the number of pixels equal to a value never exceeds the raster's size |
| `LandCover.CountIsMultiplicity` | main_analysis.py:128 | the recursive pixel count equals the multiplicity of the value in the flattened raster, and the size its length |
| `LandCover.SizeOfGrid` | main_analysis.py:129 | the size of a rectangular raster is rows times columns |
| `LandCover.UrbanPercentage` | main_analysis.py:128-129 | the coverage is NaN exactly for an empty raster and otherwise lies in [0, 100] |
| `LandCover.UrbanPercentageOfCounts` | main_analysis.py:128-129 | when k of the N > 0 pixels are Built Area, the coverage is 100 k / N |
| `LandCover.AllUrbanIsHundred` | main_analysis.py:128-129 | a non-empty raster that is all Built Area has coverage 100 |
| `LandCover.NoUrbanIsZero` | main_analysis.py:128-129 | a non-empty raster without Built Area has coverage 0 |
| `LandCover.ReEncode` | main_analysis.py:142-144 | the written 8-bit raster has the input's shape and every value in [0, 256) |
| `LandCover.ReEncodeKeepsLabels` | main_analysis.py:144 | writing a raster of catalog labels as 8 bits and reading it back gives the same raster |
| `LandCover.ReEncodeKeepsGrid` | main_analysis.py:144 | the re-encoded raster is rectangular with the same width |
| `ChangeDetection.NewUrbanMask` | main_analysis.py:157-159 | the mask has the shape of the start raster |
| `ChangeDetection.ChangeMap` | main_analysis.py:157-159 | fails with a shape mismatch exactly when the rasters differ in shape; otherwise returns a fresh array whose cells are the change mask |
| `ChangeDetection.MaskIsBinary` | main_analysis.py:157-159 | every mask cell is 0 or 1, and 1 exactly when the start pixel is not Built Area and the end pixel is |
| `ChangeDetection.NewUrbanCount` | main_analysis.py:157-159 | the 1s of the mask plus the pixels urban in both years equal the end year's urban pixels, so the mask has at most that many 1s |
| `ChangeDetection.NoChangeNoMask` | main_analysis.py:159 | identical start and end rasters give the all-zero mask |
| `ChangeDetection.MaskOfReEncoded` | main_analysis.py:152-159 | on catalog labels, the mask of the re-read 8-bit rasters equals the mask of the original labels |
| `Features.CalculateIndices` | main_analysis.py:48-73 | fails on the first missing band when the image has fewer than five bands; otherwise keeps the image's rows and columns and gives each pixel three more bands |
| `Features.DropDerivedRecoversInput` | main_analysis.py:72 | dropping the three derived bands gives the input image back unchanged |
| `Features.SixBandsGiveNine` | main_analysis.py:56-72 | a six-band pixel becomes nine bands: the six inputs, then NDVI from (NIR, Red), NDBI from (SWIR1, NIR), MNDWI from (Green, SWIR1) |
| `Analysis.CollectYearlyStats` | main_analysis.py:106-144 | the year loop yields the specified statistics and writes an 8-bit raster for every processed year |
| `Analysis.ClassifiedStep` | main_analysis.py:142-144 | a year with data adds its 8-bit raster to those written; a year without leaves them as they are |
| `Analysis.StatsAscending` | main_analysis.py:107-130 | the statistics' years are strictly ascending, each in 2018..2025 with a label file, each carrying that raster's coverage |
| `Analysis.StatsCoverYears` | main_analysis.py:112-118 | the statistics list exactly the years of the range whose label file exists |
| `Analysis.StatsListAvailableYears` | main_analysis.py:112-118 | a year is listed if and only if it is in 2018..2025 and its label file exists |
| `Analysis.ChangeEndpoints` | main_analysis.py:148-150 | endpoints exist exactly when there are two statistics or more, and the start year precedes the end year |
| `Analysis.ChangeRunsIffTwoYears` | main_analysis.py:148 | the change map runs if and only if at least two years of the range have a label file |
| `Analysis.TwoYearsTwoStats` | main_analysis.py:148 | two distinct years with data give at least two statistics |
| `Analysis.EndpointsAreEarliestAndLatest` | main_analysis.py:149-150 | the change map compares the earliest and the latest year that have a label file |
| `Analysis.Difference` | main_analysis.py:182 | the difference is NaN exactly when either operand is |
| `Analysis.Growth` | main_analysis.py:181-182 | the growth exists exactly when there are two statistics or more |
| `Analysis.GrowthIsLatestMinusEarliest` | main_analysis.py:181-183 | the growth is the latest year's coverage minus the earliest's, and lies in [-100, 100] when both are numbers |
| `Analysis.Report` | main_analysis.py:176-183 | one line per processed year, then a growth line only when there are two years or more, naming the change-map endpoints and the growth |
| `Analysis.ReportReadsBack` | main_analysis.py:178-179 | reading the year lines back from the report gives the statistics in their order |
| `Analysis.AnalyzeData` | main_analysis.py:103-183 | the pipeline's statistics, change mask (only with two years or more, between the first and last of them, on the written 8-bit rasters), and the report, which is written exactly when the change step did not fail on a shape mismatch |
| `Analysis.ScenarioCoverage` | main_analysis.py:128-129 | 4 x 4 rasters with 1 and 16 Built Area pixels have coverage 6.25 and 100 |
| `Analysis.ScenarioStats` | main_analysis.py:112-130 | label files for 2018 and 2025 only give exactly the two statistics of those years |
| `Analysis.ScenarioMask` | main_analysis.py:157-159 | the 4 x 4 scenario's mask is all 1s except the pixel already urban at the start |
| `Analysis.FourByFourScenario` | main_analysis.py:146-183 | in that scenario the endpoints are 2018 and 2025 and the growth is 93.75 |

## Left out

- The download stage (download_data.py): Earth Engine authentication, the
  image requests and the HTTP downloads are foreign calls and network I/O.
- Reading and writing GeoTIFF files: the label rasters are an input map;
  the classification file is modelled only as the 8-bit re-encoding of
  what is written (`LandCover.ReEncode`); the georeferencing profile is not modelled.
- `load_image`'s band reordering and `squeeze`: a label raster is taken as
  already two-dimensional. A raster with a height or width of 1 is
  squeezed to one dimension (or none), which the map plot and the 8-bit
  band write then reject, ending the run with no report; the model
  processes such a raster like any other and reports it.
- Failures of reading, plotting or writing in the analysis stage (an
  unreadable label or Sentinel-2 file, a failed GeoTIFF or PNG write) end
  the run before the report is written; the model assumes all of that I/O
  succeeds, so its only failure that suppresses the report is the change
  map's shape mismatch.
- Plotting (`save_plot`, the change-map figure, the 2nd/98th percentile
  stretch of the satellite composite) and the satellite-image branch,
  which only renders: no output of them feeds the statistics.
- Console messages and the report's fixed header lines and text
  formatting (`:.2f`, `:+.2f`): the report is modelled as a sequence of
  year and growth lines carrying the values.
- `COLORS` and the unused `RandomForestClassifier` and `median_filter` imports.
- `LandCover.UrbanPercentage`: computed in exact rational arithmetic, not
  IEEE double; rounding of `urban_pixels / size * 100` is not modelled.
- `Features.CalculateIndices`: the floating-point ratio
  (a - b) / (a + b + 1e-8) is the parameter `nd`, so only which bands feed
  which index, and their order, are stated, not the index values or their bounds.
- `ChangeDetection.ChangeMap`: numpy broadcasting of a dimension of size 1
  between rasters of different shapes is treated as a shape mismatch; a
  raster with no rows carries no width, so two such rasters always match.
- Label rasters are integer arrays: the `astype(uint8)` cast of a
  floating-point label raster is not modelled.

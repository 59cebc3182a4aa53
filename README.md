# Infrastructure–environment exposure on an H3 grid

This project models the relational core of a small geospatial pipeline. The
pipeline covers the state of São Paulo with H3 hexagons (resolution 6) and
computes three things per hexagon:

- how many kilometres of major road cross it;
- which biome covers most of it, and what share of the hexagon that biome covers;
- an "exposure score": road length weighted by that share.

A Streamlit dashboard then filters the resulting table, keeps the top N
hexagons and shades them by score bucket.

The model has three modules, one per source file, plus two small support
modules:

- `SpatialMetrics` (`spatial_metrics.dfy`) models `src/spatial_metrics.py`. It picks the biome label column, then:
  - groups road pieces per cell and converts them to km;
  - groups biome pieces per (cell, biome);
  - merges in the hexagon areas and computes the percentage share;
  - picks the dominant biome per cell;
  - left-joins onto the cell list with the `fillna` defaults, and computes the exposure score.
- `H3Grid` (`h3_grid.dfy`) models `src/h3_grid.py`:
  - the empty-geometry short-circuit;
  - the exterior-only GeoJSON mapping handed to polyfill;
  - the loop that turns each cell boundary from (lat, lng) into a (lon, lat) polygon.
- `Dashboard` (`streamlit_app.dfy`) models the selection rules of `app/streamlit_app.py`:
  - the column check on load;
  - the biome option list;
  - the three-predicate filter;
  - the top-N cut by exposure score;
  - the five-bucket style function.
- `TextOrder` (`text_order.dfy`) is the lexicographic order on strings. Both `sorted` and a sorted `groupby` use it. Its lemmas show that it is a strict total order.
- `Wrappers` (`wrappers.dfy`) holds `Option` and `Result`.

The geometric work is done by geopandas, shapely, pyproj and h3, and that code
is not visible to the model. Its results enter the model as inputs:

- Overlay, length and area give the road pieces, as `Segment(h3, lengthM)`.
- They also give the biome pieces, as `BiomePiece(h3, attrs, areaM2)`, where `attrs` holds the piece's values of the biome layer's columns. `LabelPieces` reads each piece's label from the chosen column, giving `Fragment(h3, biome, areaM2)`. A null value is `None`.
- The hexagon areas are a map from cell id to square metres.
- The hexagon table is the list of its cell ids.
- `h3.polygon_to_cells` and `h3.cell_to_boundary` are function-valued parameters. Every property of `H3Grid` therefore holds whatever the library computes.
- All quantities are mathematical reals; float rounding is not modelled.

Each grouped or joined result is tied to an independent reference definition
over the raw inputs:

- `CellLengthM`: total metres of road in a cell.
- `PairAreaM2`: total area of one biome in one cell.
- `PairPct`: that area as a percentage of the cell.
- `LabelledPairs` and `LabelledCells`: which keys exist.

`RowMeetsSpec` states, in those terms only, what the output row of a cell must
hold. `ComputeHexMetrics` is proved to produce such a row for every hexagon.

The code differs from the repository's documented behaviour in the places below, and fixes a point the documentation leaves open. The model follows the code each time:

- The data model describes `biome_area_pct` as a percentage between 0 and 100. The code never clamps it (`src/spatial_metrics.py:75`):
  - Biome polygons that overlap inside one hexagon push it above 100. `PctMayExceedHundred` exhibits 120.
  - `PctAtMostHundred` proves the bound only when the labelled pieces of the cell do not cover more than the cell.
- The documented grid covers a polygon or multi-polygon region, with the holes excluded. The code passes only the exterior ring to polyfill (`src/h3_grid.py:19-22`):
  - Holes are therefore not excluded (`HolesAreNotExcluded`).
  - A multi-part geometry with a non-empty part has no `exterior`, so the code raises. This is modelled as `Failure(NoExterior)`.
- The documentation repairs invalid geometries with a zero-distance buffer before polyfill, and raises a geometry error when the repair fails. The code repairs nothing: it hands the exterior ring to polyfill as it is (`src/h3_grid.py:15-24`), and `GeomToH3Cells` does the same.
- The documentation calls the winner of a tie for the largest share arbitrary. In the code it is determined:
  - The grouped table comes in (cell, biome) order (`src/spatial_metrics.py:69-72`), and the left merge at line 73 keeps that order.
  - The sort on two columns at line 79 is stable, and `head(1)` at line 81 keeps the first row of each cell. So among equal shares the smallest biome name wins.
  - `DominantBiome` keeps the earliest row among equal shares. `DominantTieBreak` and `DominantTieFromFragments` prove that this is the smallest biome, which is the lexicographic tie-break the documentation recommends.

## Model

| member | source | states |
|---|---|---|
| SpatialMetrics.PickBiomeNameCol | src/spatial_metrics.py:11-15 | succeeds iff one of BIOMA, Bioma, NOME, NOME_BIO, BIO_NOME, NM_BIOMA is a column; the result is the first of them, in that order, that is present; otherwise the error carries the fixed message |
| SpatialMetrics.SegLenKm | src/spatial_metrics.py:45 | a piece's length in km is its length in metres divided by 1000, and is non-negative when the length is |
| SpatialMetrics.RoadLengthKm | src/spatial_metrics.py:45-51 | the per-cell road table has an entry for exactly the cells that hold a road piece, and each entry is that cell's total piece length divided by 1000 |
| SpatialMetrics.CellLengthMAbsent | src/spatial_metrics.py:46-51 | a cell holding no road piece has total length 0 |
| SpatialMetrics.GroupAreaM2 | src/spatial_metrics.py:69-72 | the grouped table is strictly sorted by (cell, biome), so no pair appears twice; its keys are exactly the (cell, biome) pairs of the labelled pieces (null labels dropped); each row's area is the pair's total area |
| SpatialMetrics.AddAreaTotals | src/spatial_metrics.py:69-72 | adding one piece to the grouped table raises that piece's pair total by its area and leaves every other pair's total unchanged |
| SpatialMetrics.AddAreaSorted | src/spatial_metrics.py:69-72 | adding one piece keeps the grouped table strictly sorted by (cell, biome) |
| SpatialMetrics.BioArea | src/spatial_metrics.py:61-75 | one row per distinct labelled (cell, biome) pair with that pair's total area, the cell's area from the hexagon table, and share = area / cell area * 100 |
| SpatialMetrics.DominantBiome | src/spatial_metrics.py:78-83 | the dominant table has an entry for exactly the cells that have a share row |
| SpatialMetrics.DominantBiomeSpec | src/spatial_metrics.py:78-83 | the dominant table has exactly one entry per cell with a share row; the entry is one of that cell's rows, and no row of the cell has a larger share |
| SpatialMetrics.DominantFromFragments | src/spatial_metrics.py:69-83 | a cell has a dominant entry iff it has a labelled piece; the entry names one of the cell's biomes, its share is that biome's share of the cell, and no biome of the cell has a larger share |
| SpatialMetrics.DominantTieBreak | src/spatial_metrics.py:78-83 | when each cell's rows come in ascending biome order, no row of the cell with the winning share has a smaller biome than the entry |
| SpatialMetrics.DominantTieFromFragments | src/spatial_metrics.py:69-83 | among the biomes of a cell that share the largest share, the dominant one is the smallest |
| SpatialMetrics.MergeRow | src/spatial_metrics.py:86-89 | the left join of one hexagon row: the road table's value or 0, the dominant table's biome and share or "Unknown" and 0, and the score of those two values |
| SpatialMetrics.ExposureScore | src/spatial_metrics.py:92 | the score is 0 without road or without biome, equals the road length at a 100% share, and is non-negative for non-negative inputs |
| SpatialMetrics.MergeRowMeetsSpec | src/spatial_metrics.py:86-92 | the merged row of a cell holds the cell's road total in km (0 when absent), the dominant biome and its share ("Unknown" and 0 when absent), and score = road * share / 100 |
| SpatialMetrics.ComputeHexMetrics | src/spatial_metrics.py:86-92 | one output row per input hexagon row, in input order, each with its own cell id and the road, biome, share and score values above (the smallest biome winning a tie), stated in terms of the raw road and biome pieces |
| SpatialMetrics.DefaultsForUntouchedCells | src/spatial_metrics.py:87-92 | a hexagon with no road piece has road length 0 and score 0; one with no labelled biome piece has biome "Unknown", share 0 and score 0 |
| SpatialMetrics.MetricsNonNegative | src/spatial_metrics.py:75-92 | with non-negative lengths and areas, road length, share and score are non-negative in every row |
| SpatialMetrics.PctAtMostHundred | src/spatial_metrics.py:75 | the share is at most 100 when the labelled pieces of the cell cover no more than the cell's area |
| SpatialMetrics.PctMayExceedHundred | src/spatial_metrics.py:75 | two overlapping 60 m² pieces of one biome in a 100 m² cell give a share of 120: the share is not clamped |
| SpatialMetrics.LabelPieces | src/spatial_metrics.py:55-60 | each overlay piece keeps its cell and area, and its biome is its value in the chosen label column (`None` when null or absent) |
| SpatialMetrics.RunMetrics | src/spatial_metrics.py:31-92 | the run fails, with the fixed message, iff no label alias is a column; otherwise one row per hexagon, each as `RowMeetsSpec` describes for the labels read from the first alias, in priority order, that is a column |
| TextOrder.LessTransitive | src/spatial_metrics.py:69-72 | the string order used to sort the group keys is transitive |
| TextOrder.LessTotal | src/spatial_metrics.py:69-72 | any two distinct strings are ordered one way or the other |
| H3Grid.ExteriorMapping | src/h3_grid.py:19-22 | the polyfill input has type "Polygon" and exactly one ring, the exterior ring |
| H3Grid.GeomToH3Cells | src/h3_grid.py:11-24 | an empty geometry gives `[]`; a polygon gives exactly the polyfill of its exterior mapping, unfiltered and in order; a multi-polygon with a non-empty part raises |
| H3Grid.EmptyGeometrySkipsPolyfill | src/h3_grid.py:15-16 | for an empty geometry the result is `[]` whatever polyfill would compute |
| H3Grid.HolesAreNotExcluded | src/h3_grid.py:19-22 | two polygons with the same exterior give the same cells, whatever their holes |
| H3Grid.IsEmpty | src/h3_grid.py:15 | shapely's `is_empty`: a polygon is empty when its exterior ring has no vertex, a multi-polygon when every one of its parts is empty (in particular when it has no part) |
| H3Grid.ToLonLat | src/h3_grid.py:34 | the swapped vertex list has the boundary's length, and each vertex is the boundary's vertex at the same place with latitude and longitude exchanged |
| H3Grid.ToLonLatRoundTrip | src/h3_grid.py:34 | swapping back recovers the boundary exactly |
| H3Grid.H3CellsToGdf | src/h3_grid.py:27-38 | the `h3` column is the input cell list; there is one polygon per cell, in input order, and its shell is that cell's boundary in (lon, lat) order |
| Dashboard.LoadHexes | app/streamlit_app.py:50-56 | fails iff some expected column is absent, and the error's missing set is exactly the expected columns that are absent; on success the table is unchanged |
| Dashboard.NonNullBiomes | app/streamlit_app.py:63 | `dropna`: a label is listed iff some row carries it as a non-null biome |
| Dashboard.InsertUnique | app/streamlit_app.py:63 | inserting into a strictly sorted list keeps it strictly sorted and adds exactly the new value |
| Dashboard.SortedUnique | app/streamlit_app.py:63 | the result is strictly sorted and holds exactly the values of the input |
| Dashboard.BiomeOptions | app/streamlit_app.py:63 | the option list is strictly sorted (so without duplicates) and holds a biome iff some row has that non-null dominant biome |
| Dashboard.StrictlySortedDistinct | app/streamlit_app.py:63 | no value appears twice in the option list |
| Dashboard.FilterRows | app/streamlit_app.py:71-75 | every kept row is a row of the table that passes all three predicates |
| Dashboard.FilterRowsSpec | app/streamlit_app.py:71-75 | a row occurs in the filtered table as often as in the input if its biome is selected and both minimums are met, and otherwise not at all; the filtered table keeps input order |
| Dashboard.SortByScoreDesc | app/streamlit_app.py:78 | the sorted table is a permutation of its input ordered by non-increasing score |
| Dashboard.SplitSorted | app/streamlit_app.py:78 | cutting a table sorted by descending score leaves a front part scoring no lower than the rest |
| Dashboard.NLargest | app/streamlit_app.py:78 | exactly n rows of the table, in descending score, and no row left out scores higher than a kept one |
| Dashboard.TopN | app/streamlit_app.py:77-78 | with top_n > 0 and more rows than that, exactly top_n rows remain, all from the filtered table, and no dropped row outscores a kept one; otherwise the table is unchanged |
| Dashboard.ShownRows | app/streamlit_app.py:71-78 | every shown row is a table row (no more copies than the table holds) that passes all three predicates |
| Dashboard.DefaultFilterKeepsLabelledRows | app/streamlit_app.py:63-75 | with all options selected and both minimums 0, the filter keeps exactly the rows with a non-null biome, given non-negative metrics |
| Dashboard.ScoreOf | app/streamlit_app.py:113 | a missing or null score reads as 0, any other value as itself |
| Dashboard.Bucket | app/streamlit_app.py:116-124 | the bucket is the first one whose threshold is at least the score, or the fifth when none is |
| Dashboard.StyleFn | app/streamlit_app.py:112-124 | the fill opacity is 0.15 times the bucket number counted from 1, the weight lies between 0.3 and 0.6, a score above every threshold gets weight 0.6 and opacity 0.75, and one at or below the first gets 0.3 and 0.15 |
| Dashboard.BucketMonotone | app/streamlit_app.py:116-124 | with ascending thresholds, a higher score never falls in a lower bucket |
| Dashboard.StyleMonotone | app/streamlit_app.py:112-124 | with ascending thresholds, fill opacity and line weight never decrease as the score grows |
| Dashboard.MissingScoreStyledAsZero | app/streamlit_app.py:113 | a feature without a score, or with a null score, is styled like one scoring 0 |

## Left out

- Reading and writing files, the `main` drivers, and the progress printing are I/O.
- Overlay, length and area computation, `unary_union`, `to_crs` reprojection and simplification are foreign geometry and floating-point code. Their results are inputs, with lengths and areas already in metres.
- The H3 tiling itself is not modelled: `polygon_to_cells` and `cell_to_boundary` are opaque library calls and enter as parameters.
- Whether the h3 library accepts the mapping it is given is part of the library, so it is not modelled.
- shapely's automatic closing of rings, and any validity check in its `Polygon` constructor, are not modelled. `CellPolygon` keeps the vertex list as given.
- The quantile computation of the dashboard (`app/streamlit_app.py:110`) is not modelled. The four thresholds enter as a parameter; `StyleMonotone` assumes they are ascending, as quantiles are.
- NaN is not modelled:
  - The numeric columns of `HexRecord` are taken as present.
  - A piece whose cell is missing from the hexagon area table would yield a NaN share. `HexAreasCover` requires every piece's cell to have a positive area. The overlay only produces pieces of grid cells, so this holds for real inputs.
- Duplicate cell ids in the hexagon area table are not modelled: the area table is a map. A duplicated hexagon row of the main table still yields one output row per input row.
- Dashboard.NLargest: which of several rows tied at the cut-off score are kept is not stated. pandas keeps the first ones in table order; the model states only that no dropped row outscores a kept one.
- The in-place DataFrame column writes (`seg_len_km`, `area_m2`, `biome_area_pct`, the `fillna` writes, `exposure_score`) are whole-column assignments. They are modelled as functions that produce the new table.
- Dashboard.LoadHexes: the error carries the set of missing columns, not the text of its Python rendering inside the message.
- `TextOrder` compares characters by Unicode code point, as Python does. A Python string can also hold lone surrogate code points, which a Dafny string cannot, so such labels are not modelled.
- Streamlit widgets, the summary metrics, the map, its centring, layers, tooltip and legend are rendering, so they are not modelled. The slider values enter as parameters.
- `src/load_data.py` (ingestion, with its own copy of the alias loop) and `src/prepare_for_deploy.py` (column projection and simplification through shapely) are not part of this model.

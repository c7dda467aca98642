# n-minute-city: hexagon pipeline and graph crate, modelled in Dafny

This project models the sequential core of the n-minute-city repository. That core has two sides.

**Python pipeline.** Rasters and points of interest are turned into hexagon cells.

- `python/ghsl_processing.py` assigns each H3 cell a GHSL built-up code. A code counts only if it is one of the ten relevant codes 11–15 and 21–25.
  - `count_occurances_break_tie` takes a majority vote over the codes of a cell. A tie between the two most common codes is broken at random.
  - `tif_to_h3` groups pixels by cell in a dict, votes per cell and adds a `residential_bool` column.
- `python/pois_to_h3.py` turns OpenStreetMap points of interest into `(h3_index, category)` rows.
  - `flatten` flattens nested lists.
  - `swap_xy` exchanges x and y in every shapely geometry type.
  - `LineString_to_hex` and `all_shapley_geo_to_h3` dispatch on the geometry type to the h3 calls.
  - `osm_to_manual_category` looks a tag up with an identity fallback.
  - `tag_conditions` searches the tags for substrings.
  - `df_manipulations` is the table pipeline: fillna precedence, mapping, explode and two filters.

**Rust `graph-ds` crate.**

- `HexCell` packs four `i16` axial fields into a `u64` id and decodes it again. It also computes its neighbours.
- `Graph<T>` is the container:
  - a vector of optional nodes;
  - adjacency lists keyed by node id;
  - a node map from cell to slot.
- `Graph::bfs` is a queue-driven search that backtraces a path.
- `Graph<u64>` and `Graph<Cell>` add nodes and edges. `Graph<u64>` also removes nodes.
- `tag_value_matches` decides which OSM way tags are usable on the walking and cycling layers. `process_osm_pbf` turns the cell path of a way into layer edges.

## How it is modelled

Each file is one module:

| file | module | source |
|---|---|---|
| `wrappers.dfy` | `Wrappers` | `Option` and `Result` |
| `ghsl_processing.dfy` | `GhslProcessing` | `python/ghsl_processing.py` |
| `pois_to_h3.dfy` | `PoisToH3` | `python/pois_to_h3.py` |
| `cell.dfy` | `HexCells` | `graph-ds/src/hexagon_graph/cell.rs` |
| `graph.dfy` | `GraphDs` | `graph-ds/src/lib.rs` |
| `u64_graph.dfy` | `U64Graph` | `graph-ds/src/u64_graph.rs` |
| `hexagon_graph.dfy` | `HexagonGraph` | `graph-ds/src/hexagon_graph.rs` |
| `osm.dfy` | `Osm` | `graph-ds/src/hexagon_graph/osm.rs` |

**External libraries become parameters.**

- Pixel → cell (`geo_to_h3`) is a function parameter `cellOf`.
- The h3 calls `geo_to_h3`, `h3_line` and `polyfill` are fields of an `H3Api` value.
- The grid path between two cells is a parameter `gridPath`.
- Each random tie-break is a boolean `coin`. Lemmas quantify over every coin, so they hold for every outcome of the random choice.

**Errors that Python raises become `None`.** This covers:

- `IndexError` on an empty vote;
- an empty line or an empty point in `all_shapley_geo_to_h3`;
- such an exception propagating out of `df_manipulations`;
- an empty POI table in `df_manipulations`. There the row-wise `apply` that builds `no_header` cannot read `tags`, so it returns a frame, and assigning that frame to one column raises.

**Imperative parts are methods proved against specification functions.**

- The grouping loop of `tif_to_h3`: `BuildUrbanMap` is specified by `CellOrder` and `CodesOf`.
- The hole loop of `swap_xy`.
- The `bfs` loops.
- The graph updates: `Graph` is a class whose fields the methods reassign. Each method's new state equals a function of the old state, and the properties are lemmas about those functions.

**Handles and integers.**

- A `Weak<Node>` held by an edge is the index of the slot that stored the node. Slots are never reused. `upgrade` succeeds while the slot holds a node.
- `i16` arithmetic wraps explicitly (`Wrap16`).
- Both folds of `id`/`from_id` are written byte by byte, including the bits that the shift drops.

**Where the code and the prose description of the system disagree, the model follows the code.**

- On a tie, the vote picks only between the first two entries of `most_common(2)`. Those are the tied values seen first in the cell's list. A third tied value can never win.
- `bfs` does not compute shortest distances: a later pop overwrites a distance. The model claims no minimality.
- The doc comment of `bfs` says that with an `end` only the distances on the backtraced path are returned. The code returns every distance recorded until `end` was popped, and so does the model.

## Model

| member | source | states |
|---|---|---|
| GhslProcessing.Distinct | python/ghsl_processing.py:30 | the keys of `Counter(l)`: exactly the values of l, without duplicates (their first-seen order is `DistinctFirstSeenOrder`) |
| GhslProcessing.FirstIndex | python/ghsl_processing.py:30 | the position where a value is first seen in the list: it holds the value and no earlier position does |
| GhslProcessing.FirstIndexUnique | python/ghsl_processing.py:30 | any position holding a value with no earlier occurrence is its first position |
| GhslProcessing.DistinctFirstSeenOrder | python/ghsl_processing.py:30 | `Counter` keys come in order of first occurrence in the list |
| GhslProcessing.FirstMax | python/ghsl_processing.py:32 | index of the first value with maximal count: no value counts more, no earlier value counts as much |
| GhslProcessing.MostCommon2 | python/ghsl_processing.py:30-32 | `most_common(2)` returns at most two pairs |
| GhslProcessing.MostCommon2Ranks | python/ghsl_processing.py:30-32 | `most_common(2)`: empty iff the list is; each pair is (a value of l, its count); the first count is maximal; one pair iff a single value occurs; otherwise two different values, the second maximal among the rest |
| GhslProcessing.MostCommon2FirstSeen | python/ghsl_processing.py:32 | among values of the highest count, `most_common` puts first the one seen first |
| GhslProcessing.EarliestOfMax | python/ghsl_processing.py:32 | in first-seen order, the first position of highest count holds the earliest-seen value of that count |
| GhslProcessing.MostCommon2TieFirstSeen | python/ghsl_processing.py:32 | on a tie the second pair is the tied value seen next: seen after the first, and before every other value of that count |
| GhslProcessing.SecondIndex | python/ghsl_processing.py:32 | after the first maximum is removed, the next maximum of equal count lies after it in key order and before every other value of that count |
| GhslProcessing.CountOccurrencesBreakTie | python/ghsl_processing.py:27-43 | the vote fails (IndexError) exactly on an empty list and otherwise returns a value of the list |
| GhslProcessing.VoteIsMostFrequent | python/ghsl_processing.py:27-43 | the vote fails iff the list is empty; otherwise it returns a member of the list that occurs at least as often as any value, for either coin |
| GhslProcessing.VoteSingleValue | python/ghsl_processing.py:30-35 | a list holding a single distinct value votes for it |
| GhslProcessing.VoteStrictWinner | python/ghsl_processing.py:39-40 | a value counted strictly more often than every other wins whatever the coin |
| GhslProcessing.VoteTieBreak | python/ghsl_processing.py:41-43 | on a tie the coin selects between the two different top values of `most_common(2)`; without a tie the coin is irrelevant |
| GhslProcessing.VoteFirstSeen | python/ghsl_processing.py:30-43 | the winner is one of the two earliest-seen values of highest count: no value with two other values of its count seen before it can win |
| GhslProcessing.RelevantCodes | python/ghsl_processing.py:126-130 | the codes of the relevant pixels in scan order are all in `rel_vals` |
| GhslProcessing.CodesOf | python/ghsl_processing.py:129-134 | the list the dict holds for a cell; `CodesOfRelevant`, `CellOrderIffCodes` and `UrbanMapSize` state what it contains |
| GhslProcessing.CellOrder | python/ghsl_processing.py:129-134 | the dict keys in insertion order; `CellOrderIffPixel` and `CellOrderNoDuplicates` state which cells they are |
| GhslProcessing.CellOrderIffCodes | python/ghsl_processing.py:129-134 | a cell is a dict key iff its code list is non-empty |
| GhslProcessing.CellOrderIffPixel | python/ghsl_processing.py:129-134 | a cell is a dict key iff some relevant pixel maps to it; irrelevant pixels never create keys |
| GhslProcessing.CodesOfRelevant | python/ghsl_processing.py:130-134 | the code lists hold only relevant codes |
| GhslProcessing.CellOrderNoDuplicates | python/ghsl_processing.py:131-134 | no cell is inserted as a key twice |
| GhslProcessing.UrbanMapSize | python/ghsl_processing.py:129-134 | the list lengths sum to the number of relevant pixels |
| GhslProcessing.BuildUrbanMap | python/ghsl_processing.py:113-134 | the scan loop builds a dict whose keys are the cells of relevant pixels in first-seen order and whose list per cell is that cell's relevant codes in scan order |
| GhslProcessing.ResidentialBool | python/ghsl_processing.py:142-143 | `val_map`: 1 iff the code is 11–15, 0 iff it is 21–25, NaN iff the code is not relevant |
| GhslProcessing.KeysHaveCodes | python/ghsl_processing.py:129-134 | every dict key has a non-empty code list |
| GhslProcessing.OriginRowOf | python/ghsl_processing.py:138-143 | the row of one cell: that cell, a value of its list of highest count, and the flag `ResidentialBool` gives for it |
| GhslProcessing.Origins | python/ghsl_processing.py:138-139 | the table has one row per dict key |
| GhslProcessing.OriginsAt | python/ghsl_processing.py:138 | row i is the vote over the codes of the i-th key |
| GhslProcessing.OriginsDistinct | python/ghsl_processing.py:138-139 | no cell has two rows |
| GhslProcessing.OriginsIndices | python/ghsl_processing.py:138 | rows follow the key order of the dict |
| GhslProcessing.OriginsFromPixels | python/ghsl_processing.py:129-139 | every row's cell received at least one relevant pixel |
| GhslProcessing.OriginsCoverPixels | python/ghsl_processing.py:129-139 | every cell that received a relevant pixel has a row |
| GhslProcessing.OriginsVotes | python/ghsl_processing.py:138-143 | each row's code is a most frequent relevant code of its cell, and `residential_bool` is 1 iff the code is 11–15 and 0 iff it is 21–25 |
| GhslProcessing.TifToH3 | python/ghsl_processing.py:111-143 | the rows `tif_to_h3` builds from the pixels are the `Origins` table |
| GhslProcessing.OneCellScan | python/ghsl_processing.py:126-134 | four pixels 11, 21, 11, 99 in one cell give one key with codes [11, 21, 11] |
| GhslProcessing.OneCellScenario | python/ghsl_processing.py:126-143 | the same pixels give the single row (cell, 11, 1) for every coin |
| PoisToH3.FlattenAppend | python/pois_to_h3.py:14-16 | flatten distributes over concatenation |
| PoisToH3.FlattenOfLeaves | python/pois_to_h3.py:14-16 | a list without nesting is returned unchanged |
| PoisToH3.FlattenRemovesNesting | python/pois_to_h3.py:14-16 | an extra level of nesting disappears, and flattening a flat result changes nothing |
| PoisToH3.FlattenKeepsLeaves | python/pois_to_h3.py:14-16 | the result has exactly as many items as the nested list has leaves |
| PoisToH3.Flatten | python/pois_to_h3.py:14-16 | `flatten` itself; its meaning is stated by `FlattenKeepsLeaves`, `FlattenOfLeaves`, `FlattenAppend` and `FlattenRemovesNesting` |
| PoisToH3.SwapCoord | python/pois_to_h3.py:24-31 | x and y exchanged, the dimension and z kept |
| PoisToH3.SwapCoords | python/pois_to_h3.py:35 | a ring keeps its length and each coordinate is swapped |
| PoisToH3.SwapRings | python/pois_to_h3.py:40-42 | the holes keep their number and each ring is swapped |
| PoisToH3.SwapPolygon | python/pois_to_h3.py:37-43 | the polygon branch: empty polygons unchanged, otherwise shell and holes swapped; `SwapPolygonTwice` and `SwapPolygonShape` state its properties |
| PoisToH3.SwapXY | python/pois_to_h3.py:18-49 | `swap_xy` itself; `SwapXYInvolution`, `SwapXYKeepsShape` and `SwapXYKeepsEmptiness` state its properties |
| PoisToH3.SwapHoles | python/pois_to_h3.py:40-42 | the in-place loop over `holes` swaps every ring |
| PoisToH3.SwapCoordsTwice | python/pois_to_h3.py:24-31 | swapping a ring twice restores it |
| PoisToH3.SwapPolygonTwice | python/pois_to_h3.py:37-43 | swapping a polygon twice restores it and keeps emptiness |
| PoisToH3.SwapXYKeepsEmptiness | python/pois_to_h3.py:21-22 | a geometry is empty after the swap iff it was before |
| PoisToH3.SwapXYInvolution | python/pois_to_h3.py:18-49 | `swap_xy` twice is the identity on every handled type, with or without z |
| PoisToH3.SwapPolygonShape | python/pois_to_h3.py:37-43 | a polygon keeps ring lengths, hole count and z |
| PoisToH3.SwapXYKeepsShape | python/pois_to_h3.py:21-47 | type, part counts, hole counts, ring lengths and z are preserved; empty geometries come back unchanged |
| PoisToH3.SameShapeReflexive | python/pois_to_h3.py:21-22 | an unchanged geometry has its own shape |
| PoisToH3.LineStringToHex | python/pois_to_h3.py:57-62 | fails (IndexError) exactly on a line without coordinates |
| PoisToH3.LineDependsOnEndpoints | python/pois_to_h3.py:57-62 | only the first and last vertices matter |
| PoisToH3.PointAxisSwap | python/pois_to_h3.py:70-71 | a point (x, y) is looked up as geo_to_h3(y, x) |
| PoisToH3.LineAxisSwap | python/pois_to_h3.py:86-87 | a line is the h3 line between the swapped end vertices |
| PoisToH3.AllShapelyGeoToH3 | python/pois_to_h3.py:64-92 | the dispatch itself; `PointAxisSwap`, `LineAxisSwap`, `UnhandledTypes`, `MultiPolygonConcat` and `MultiLineStringConcat` state each branch |
| PoisToH3.UnhandledTypes | python/pois_to_h3.py:73-92 | the dispatch gives no value for LinearRing, MultiPoint and GeometryCollection; a point fails iff it is empty, a line iff it has no vertex; polygons always succeed |
| PoisToH3.MultiPolygonConcat | python/pois_to_h3.py:73-79 | a multipolygon gives the concatenation of its parts' cells in part order, not deduplicated |
| PoisToH3.MultiLineStringConcat | python/pois_to_h3.py:81-87 | a multilinestring gives the concatenation of its lines' cells and fails if a line does |
| PoisToH3.OsmToManualCategory | python/pois_to_h3.py:116-121 | `mapping[tag]` when the tag is a key, the tag unchanged otherwise |
| PoisToH3.MatchingTerms | python/pois_to_h3.py:131 | the matches are no more than the terms |
| PoisToH3.MatchingTermsFirst | python/pois_to_h3.py:131-133 | no match iff no term is a substring; otherwise the first match is the first term in list order that is a substring |
| PoisToH3.TagConditions | python/pois_to_h3.py:124-137 | `tag_conditions` itself; `TagConditionsFirstMatch` states its result |
| PoisToH3.TagConditionsFirstMatch | python/pois_to_h3.py:124-137 | the first matching healthcare term wins; "sport" is checked only when none matches; otherwise None |
| PoisToH3.FirstPresent | python/pois_to_h3.py:146-153 | the first non-null of a list, None iff all are null |
| PoisToH3.PoiType | python/pois_to_h3.py:146-153 | the `poi_type` column of one record; `PoiTypeIsFirstPresent` states it |
| PoisToH3.PoiTypeIsFirstPresent | python/pois_to_h3.py:146-153 | the fillna chain equals the first non-null of amenity, shop, leisure, tag search |
| PoisToH3.RecordRows | python/pois_to_h3.py:162-168 | every row of a record has a category in the category set |
| PoisToH3.FillNa | python/pois_to_h3.py:147-153 | `fillna` keeps present values and fills missing ones from the other column |
| PoisToH3.ExplodeOne | python/pois_to_h3.py:162 | explode gives at least one row per record |
| PoisToH3.ExplodeOneCells | python/pois_to_h3.py:162 | a non-empty cover explodes to one row per cell, in order |
| PoisToH3.Explode | python/pois_to_h3.py:162 | explode keeps at least one row per record |
| PoisToH3.KeepCategories | python/pois_to_h3.py:164 | kept rows have a category in the set |
| PoisToH3.DropMissingCells | python/pois_to_h3.py:166 | kept rows have a cell and come from the input |
| PoisToH3.SelectColumns | python/pois_to_h3.py:168 | the selection keeps the number of rows |
| PoisToH3.KeepCategoriesAppend | python/pois_to_h3.py:164 | the category filter works row by row |
| PoisToH3.DropMissingAppend | python/pois_to_h3.py:166 | the null filter works row by row |
| PoisToH3.FiltersKeepPresent | python/pois_to_h3.py:164-166 | rows with a kept category and a cell pass both filters unchanged |
| PoisToH3.KeepCategoriesDropsAll | python/pois_to_h3.py:164 | rows with a dropped category are all removed |
| PoisToH3.OneRecordRows | python/pois_to_h3.py:162-168 | one record after explode, filters and selection gives its `RecordRows` |
| PoisToH3.PipelineColumns | python/pois_to_h3.py:162-168 | for the whole table, explode, filters and selection give each record's rows in record order |
| PoisToH3.SelectColumnsAppend | python/pois_to_h3.py:168 | the selection works row by row |
| PoisToH3.DestinationsByColumns | python/pois_to_h3.py:145-168 | with the category and cover columns computed, the record-wise rows are the rows of each record |
| PoisToH3.CategoryColumn | python/pois_to_h3.py:146-156 | the category of each record is `osm_to_manual_category` of its first non-null type |
| PoisToH3.CoverColumn | python/pois_to_h3.py:160 | the cover column holds every record's cells, or fails iff some record's conversion raises |
| PoisToH3.DfManipulations | python/pois_to_h3.py:139-168 | the method computes exactly `Destinations`: each record with a kept category contributes one row per covering cell, in order; an empty table or a raising geometry fails the call |
| PoisToH3.Destinations | python/pois_to_h3.py:139-168 | the reference table: None for an empty table, otherwise the record-wise rows; `EmptyTableFails`, `DestinationsFails`, `DestinationsFailsOnlyIf`, `DestinationsRows` and `SingleRecordRows` state its properties |
| PoisToH3.TableRows | python/pois_to_h3.py:145-168 | the rows of a table, record by record; `DestinationsByColumns` ties them to the column pipeline |
| PoisToH3.EmptyTableFails | python/pois_to_h3.py:152 | an empty POI table makes the call fail |
| PoisToH3.DestinationsFailsOnlyIf | python/pois_to_h3.py:152-160 | the call fails only for an empty table or a record whose geometry conversion raises |
| PoisToH3.DestinationsFails | python/pois_to_h3.py:160 | one raising record makes the whole table fail |
| PoisToH3.DestinationsRows | python/pois_to_h3.py:164 | every output row's category is in the category set |
| PoisToH3.SingleRecordRows | python/pois_to_h3.py:145-168 | a single record yields one row per covering cell with its category when the category is kept, nothing otherwise |
| HexCells.LeBytes | graph-ds/src/hexagon_graph/cell.rs:49-53 | `to_le_bytes` has the width of the type |
| HexCells.Id | graph-ds/src/hexagon_graph/cell.rs:46-55 | `id` itself; `FromIdOfId`, `IdOfFromId`, `IdInjective` and `IdSplit` state its properties |
| HexCells.FromId | graph-ds/src/hexagon_graph/cell.rs:67-86 | `from_id` itself; the inverse of `Id` by `FromIdOfId` and `IdOfFromId` |
| HexCells.FromIdOfId | graph-ds/src/hexagon_graph/cell.rs:46-86 | `from_id(c.id()) == c` for every cell |
| HexCells.IdOfFromId | graph-ds/src/hexagon_graph/cell.rs:46-86 | `from_id(n).id() == n` for every u64, so `id` is a bijection |
| HexCells.IdInjective | graph-ds/src/hexagon_graph/cell.rs:46-55 | equal ids iff equal cells |
| HexCells.Cmp | graph-ds/src/hexagon_graph/cell.rs:39-43 | `cmp` by id is Equal iff the cells are equal (consistent with the derived equality) |
| HexCells.PartialCmp | graph-ds/src/hexagon_graph/cell.rs:33-37 | `partial_cmp` is always `Some(cmp)` |
| HexCells.CmpIsTotalOrder | graph-ds/src/hexagon_graph/cell.rs:33-43 | `cmp` is antisymmetric, transitive and total |
| HexCells.WithLayer | graph-ds/src/hexagon_graph/cell.rs:62-65 | only the layer changes |
| HexCells.IdSplit | graph-ds/src/hexagon_graph/cell.rs:46-55 | the layer occupies the low 16 bits of the id, a/b/radius the high 48 |
| HexCells.IdWithoutLayer | graph-ds/src/hexagon_graph/cell.rs:57-60 | `id_without_layer`; `IdWithoutLayerClearsLayer` states it |
| HexCells.IdWithoutLayerClearsLayer | graph-ds/src/hexagon_graph/cell.rs:57-65 | `id_without_layer` is the id with its low 16 bits cleared, equal for cells differing only in layer, and decodes to the cell on layer 0 |
| HexCells.Opposite | graph-ds/src/hexagon_graph/cell.rs:169-219 | the opposite direction has the negated offset |
| HexCells.GetNeighbor | graph-ds/src/hexagon_graph/cell.rs:169-219 | `get_neighbor`; `NeighborOffset`, `OppositeCancels` and `WrapCancels` state its properties |
| HexCells.NeighborOffset | graph-ds/src/hexagon_graph/cell.rs:169-219 | each direction keeps the radius and moves (a, b, layer) by its offset, wrapping on i16 |
| HexCells.OppositeCancels | graph-ds/src/hexagon_graph/cell.rs:171-218 | N/S, NE/SW, SE/NW, UP/DOWN cancel, even across i16 wrap-around |
| HexCells.WrapCancels | graph-ds/src/hexagon_graph/cell.rs:171-218 | a wrapping step is undone by the opposite step |
| HexCells.GetAllNeighbors | graph-ds/src/hexagon_graph/cell.rs:153-167 | eight neighbours, all with the cell's radius |
| HexCells.AllDirectionsComplete | graph-ds/src/hexagon_graph/cell.rs:138-147 | the direction list holds every direction |
| HexCells.IsNeighbor | graph-ds/src/hexagon_graph/cell.rs:134-151 | `is_neighbor`; `IsNeighborIffListed`, `IsNeighborSymmetric` and `IsNeighborIrreflexive` state its properties |
| HexCells.IsNeighborIffListed | graph-ds/src/hexagon_graph/cell.rs:134-167 | `is_neighbor` is membership in `get_all_neighbors`, and false for differing radii |
| HexCells.IsNeighborSymmetric | graph-ds/src/hexagon_graph/cell.rs:134-151 | neighbourhood is symmetric |
| HexCells.IsNeighborIrreflexive | graph-ds/src/hexagon_graph/cell.rs:134-151 | no cell is its own neighbour |
| HexCells.AllNeighborsDistinct | graph-ds/src/hexagon_graph/cell.rs:153-167 | the eight neighbours are pairwise distinct |
| HexCells.StepsDistinct | graph-ds/src/hexagon_graph/cell.rs:171-218 | +1, -1 and no step give three different i16 values |
| GraphDs.FollowsParentsTail | graph-ds/src/lib.rs:115-118 | a backtrace minus its first step is the backtrace from that parent |
| GraphDs.BacktraceUnique | graph-ds/src/lib.rs:113-118 | the backtrace from a node is unique |
| GraphDs.SelfParentHasNoBacktrace | graph-ds/src/lib.rs:115-118 | a node that is its own parent has no finite backtrace, so the loop never ends |
| GraphDs.SelfParentPrefix | graph-ds/src/lib.rs:115-118 | following a self-parent stays at the node |
| GraphDs.Backtrace | graph-ds/src/lib.rs:113-118 | the loop returns the complete backtrace (`path[0]` is the parent of the target, each next one the parent of the previous, the target excluded), or runs out of fuel only when that backtrace is longer than the fuel |
| GraphDs.BacktraceExtends | graph-ds/src/lib.rs:115-117 | a complete backtrace extends each unfinished partial one by the next parent |
| GraphDs.Slot | graph-ds/src/lib.rs:97-108 | `Weak::upgrade` succeeds iff the slot is in range and holds a node |
| GraphDs.PushEdgeWellFormed | graph-ds/src/u64_graph.rs:25-33 | pushing an edge from a live node under its id keeps the edges well formed |
| GraphDs.GrowWellFormed | graph-ds/src/u64_graph.rs:39-45 | appending slots keeps the edges well formed |
| GraphDs.Graph.constructor | graph-ds/src/lib.rs:37-43 | `Graph::new` has no nodes, no edges and an empty node map |
| GraphDs.Graph.Upgrade | graph-ds/src/lib.rs:129-130 | upgrade of an edge end succeeds iff its slot holds a node |
| GraphDs.Graph.StartEntries | graph-ds/src/lib.rs:82-90 | one queue entry per edge of `start`, with its weight or 1 |
| GraphDs.Graph.Expand | graph-ds/src/lib.rs:126-136 | the entries one expansion pushes; `ExpandEntries` states which |
| GraphDs.Graph.ExpandEntries | graph-ds/src/lib.rs:126-136 | an expansion queues exactly the listed edges whose target is alive and unexplored, each at the popped distance plus its weight (1 when missing) |
| GraphDs.Graph.ExpandSound | graph-ds/src/lib.rs:126-136 | every queued entry is a listed edge with an alive, unexplored target, at the popped distance plus its weight |
| GraphDs.Graph.ExpandComplete | graph-ds/src/lib.rs:126-136 | every listed edge with an alive, unexplored target is queued, at the popped distance plus its weight |
| GraphDs.Graph.QueueStartEdges | graph-ds/src/lib.rs:82-90 | the loop over the start edges produces `StartEntries` |
| GraphDs.Graph.QueueUnexplored | graph-ds/src/lib.rs:126-136 | the loop over a target's edges appends `Expand` to the back of the queue |
| GraphDs.Graph.RecordParent | graph-ds/src/lib.rs:108 | recording the source of a stored edge as parent keeps parents backed by edges |
| GraphDs.Graph.StartEdgesStored | graph-ds/src/lib.rs:82-90 | the initial queue holds stored edges |
| GraphDs.Graph.ExpandStored | graph-ds/src/lib.rs:126-136 | expansion queues only stored edges |
| GraphDs.Graph.ClosedStart | graph-ds/src/lib.rs:79-90 | before the loop every live out-edge of the only explored node, `start`, is queued |
| GraphDs.Graph.ClosedPopDead | graph-ds/src/lib.rs:93-99 | skipping an entry whose target was dropped keeps every live out-target of an explored node explored or queued |
| GraphDs.Graph.ClosedPopLive | graph-ds/src/lib.rs:93-136 | exploring a popped live target and queueing its unexplored out-edges keeps every live out-target of an explored node explored or queued |
| GraphDs.Graph.WalkStaysIn | graph-ds/src/lib.rs:92-138 | a set of nodes closed under live edges holds every node reachable by a walk from one of them |
| GraphDs.Graph.Exhausted | graph-ds/src/lib.rs:92-140 | once the queue is empty the recorded nodes are closed under live edges and include every node reachable from `start` |
| GraphDs.Graph.Bfs | graph-ds/src/lib.rs:64-141 | error iff `start` has no adjacency list; the keys of `distances` are `start` and the nodes with a parent; every parent is the source of a stored edge into its child; a returned path is the complete backtrace from `end`; no path with `end` given means `end` has no parent and is in `distances` only as `start`; when the queue empties, every live out-target of a recorded node is recorded, so every node reachable from `start` has a distance, and a reachable `end` other than `start` is always found; well-formed edges never hit the `unwrap` panic |
| U64Graph.WithEndpoint | graph-ds/src/u64_graph.rs:15-22 | the resolved slot holds a node afterwards, at most one slot is appended, old slots and the edges are unchanged |
| U64Graph.Resolve | graph-ds/src/u64_graph.rs:15-22 | the slot an endpoint ends up in; `BuildEdgeEffect` states it (reuse of an occupied slot, otherwise the appended one) |
| U64Graph.AddNodeState | graph-ds/src/u64_graph.rs:38-51 | the state after `add_node`; `AddNodeKeepsValid` states it |
| U64Graph.BuildEdgeState | graph-ds/src/u64_graph.rs:7-36 | the state after `build_and_add_egde`; `BuildEdgeEffect` and `BuildEdgeKeepsValid` state it |
| U64Graph.RemoveNodeState | graph-ds/src/u64_graph.rs:53-64 | the state or error after `remove_node`; `RemoveNodeEffect` states it |
| U64Graph.AddNode | graph-ds/src/u64_graph.rs:39-51 | appends one node whose id is the old length and whose layer is the argument's; returns the new slot |
| U64Graph.BuildAndAddEdge | graph-ds/src/u64_graph.rs:7-36 | the new state is `BuildEdgeState` and the result is `Ok(true)` |
| U64Graph.RemoveNode | graph-ds/src/u64_graph.rs:53-64 | fails with "node not found" and changes nothing, or succeeds with the state of `RemoveNodeState` |
| U64Graph.SearchValid | graph-ds/src/lib.rs:97-108 | a search on a graph these operations built never panics, and errs iff `start` has no adjacency list |
| U64Graph.AddNodeKeepsValid | graph-ds/src/u64_graph.rs:39-51 | `add_node` keeps ids equal to slots and edges well formed; exactly one slot appended, old ones unchanged, the new node has id old length and the given layer |
| U64Graph.BuildEdgeKeepsValid | graph-ds/src/u64_graph.rs:7-36 | `build_and_add_egde` keeps the invariant |
| U64Graph.BuildEdgeEffect | graph-ds/src/u64_graph.rs:15-35 | an occupied slot at the requested id is reused, otherwise a node with the old length as id and the given layer is appended; the edge joins those slots and ends `edges[start id]`; other lists and old slots unchanged; at most two nodes are added |
| U64Graph.AbsentSelfLoopMakesTwoNodes | graph-ds/src/u64_graph.rs:15-22 | a self-loop on an absent id creates two nodes and the edge 0 → 1 |
| U64Graph.FreshStartCapturesEnd | graph-ds/src/u64_graph.rs:15-22 | an absent start takes slot 0, so a requested end id 0 reuses it: a self-loop 0 → 0 |
| U64Graph.RemoveNodeEffect | graph-ds/src/u64_graph.rs:53-64 | fails iff the id is out of range or the slot is empty; on success only that slot is emptied and that node's list deleted, the length kept |
| U64Graph.RemoveNodeKeepsValid | graph-ds/src/u64_graph.rs:53-64 | `remove_node` keeps the invariant |
| U64Graph.RemoveNodeTwiceFails | graph-ds/src/u64_graph.rs:55-62 | a second `remove_node` of the same id fails |
| HexagonGraph.Endpoint | graph-ds/src/hexagon_graph.rs:23-38 | a successful lookup yields a live slot, only appends slots and keeps the edges |
| HexagonGraph.BiInsert | graph-ds/src/hexagon_graph.rs:63 | `BiMap::insert` on the cell → slot direction; `BiInsertEffect` states it |
| HexagonGraph.AddNodeState | graph-ds/src/hexagon_graph.rs:55-67 | the state after `add_node`; `AddNodeMapped` states it |
| HexagonGraph.BuildEdgeState | graph-ds/src/hexagon_graph.rs:13-53 | the state after `build_and_add_egde`, or the panic; `BuildEdgeNodes`, `BuildEdgeMapsEndpoints`, `BuildEdgeEdges` and `ValidBuildSucceeds` state it |
| HexagonGraph.AddNode | graph-ds/src/hexagon_graph.rs:56-67 | pushes the node, inserts (cell, old length) into the node map, returns the new slot |
| HexagonGraph.BuildAndAddEdge | graph-ds/src/hexagon_graph.rs:13-53 | the new state is `BuildEdgeState`, `Ok(true)` when it succeeds, and a panic (None) otherwise |
| HexagonGraph.BiInsertEffect | graph-ds/src/hexagon_graph.rs:63 | `BiMap::insert` maps the cell to the slot, removes the pairs that used either, keeps the others, and keeps the map injective |
| HexagonGraph.ValidInjective | graph-ds/src/hexagon_graph.rs:56-67 | a node map that points to nodes is injective |
| HexagonGraph.AddNodeMapped | graph-ds/src/hexagon_graph.rs:56-67 | `add_node` appends exactly one slot at index old `nodes.len()` holding the node, maps its cell there, remaps no other cell, keeps earlier slots, and keeps the map pointing to nodes |
| HexagonGraph.AddNodeKeepsValid | graph-ds/src/hexagon_graph.rs:56-67 | `add_node` keeps the invariant |
| HexagonGraph.MappedEndpoint | graph-ds/src/hexagon_graph.rs:23-38 | a mapped cell keeps its slot, an absent one gets the new last slot mapped to it, and the slot holds the cell |
| HexagonGraph.ValidBuildSucceeds | graph-ds/src/hexagon_graph.rs:23-52 | on a valid graph `build_and_add_egde` never panics |
| HexagonGraph.BuildPanicsOnDanglingMap | graph-ds/src/hexagon_graph.rs:23-26 | a cell mapped to a missing or empty slot makes it panic |
| HexagonGraph.BuildEdgeKeepsValid | graph-ds/src/hexagon_graph.rs:13-53 | `build_and_add_egde` keeps the invariant |
| HexagonGraph.BuildEdgeNodes | graph-ds/src/hexagon_graph.rs:23-38 | nodes are created only for endpoints absent from the node map (one for an absent self-loop); old slots unchanged |
| HexagonGraph.BuildEdgeMapsEndpoints | graph-ds/src/hexagon_graph.rs:23-38 | afterwards both endpoints are in the node map, and mapped cells keep their slots |
| HexagonGraph.BuildEdgeEdges | graph-ds/src/hexagon_graph.rs:42-50 | the new edge is last in the list of `from` and joins the slots of `from` and `to` |
| HexagonGraph.BuildEdgeKeepsOtherLists | graph-ds/src/hexagon_graph.rs:42-50 | the lists of other cells are unchanged |
| HexagonGraph.RepeatedBuildAddsNoNodes | graph-ds/src/hexagon_graph.rs:13-53 | building the same edge twice adds no node the second time and appends a second copy |
| Osm.AnyTagMatches | graph-ds/src/hexagon_graph/osm.rs:34 | true iff some tag matches |
| Osm.TagValueMatches | graph-ds/src/hexagon_graph/osm.rs:91-123 | `tag_value_matches`; the key-by-key lemmas below state it |
| Osm.UnlistedKeyNeverMatches | graph-ds/src/hexagon_graph/osm.rs:121 | keys outside the table never match |
| Osm.HighwayExclusions | graph-ds/src/hexagon_graph/osm.rs:93-96 | "highway" fails exactly for the six excluded values, on both layers |
| Osm.AccessExclusions | graph-ds/src/hexagon_graph/osm.rs:97 | "access" fails exactly for private and no |
| Osm.FootOnlyWalking | graph-ds/src/hexagon_graph/osm.rs:98-104 | "foot" matches iff walking and the value is not private or no |
| Osm.CyclingKeysOnlyCycling | graph-ds/src/hexagon_graph/osm.rs:105-118 | "bicycle" and "cycleway" match only when cycling, each with its own exclusions |
| Osm.MisspelledKeysAlwaysMatch | graph-ds/src/hexagon_graph/osm.rs:119-120 | "bycicle_road" and "bycicle" always match |
| Osm.LayerDependentKeys | graph-ds/src/hexagon_graph/osm.rs:91-123 | only "foot", "bicycle" and "cycleway" depend on the layer |
| Osm.WalkingSlowerThanCycling | graph-ds/src/hexagon_graph/osm.rs:22-25 | crossing a cell takes longer walking than cycling |
| Osm.TransitionWeight | graph-ds/src/hexagon_graph/osm.rs:22-25 | minutes per cell for the layer; `WalkingSlowerThanCycling` compares the layers |
| Osm.PathPoints | graph-ds/src/hexagon_graph/osm.rs:45-56 | the cells of a way; `PathPointsMembers` states which |
| Osm.Successful | graph-ds/src/hexagon_graph/osm.rs:50-51 | exactly the computed cells of a grid path are kept |
| Osm.Edges | graph-ds/src/hexagon_graph/osm.rs:58-69 | at most one edge per window of two points |
| Osm.EdgesSound | graph-ds/src/hexagon_graph/osm.rs:58-69 | every edge joins two consecutive, distinct points and carries the layer and the weight |
| Osm.EdgesComplete | graph-ds/src/hexagon_graph/osm.rs:58-69 | every pair of consecutive distinct points gives an edge |
| Osm.PathPointsMembers | graph-ds/src/hexagon_graph/osm.rs:45-56 | a cell is on the path iff it was computed on the grid path of a consecutive pair; failed grid paths contribute nothing |
| Osm.AllPathsFailNoEdges | graph-ds/src/hexagon_graph/osm.rs:50-54 | a way whose grid paths all fail yields no edges |
| Osm.ElementEdgesSound | graph-ds/src/hexagon_graph/osm.rs:32-78 | no edges from non-ways or from ways without a matching tag; otherwise edges between distinct path cells with the layer and weight |
| Osm.ElementEdges | graph-ds/src/hexagon_graph/osm.rs:32-78 | one element's edges; `ElementEdgesSound` states them |
| Osm.ProcessElements | graph-ds/src/hexagon_graph/osm.rs:29-84 | all edges of a file; `ProcessElementsAppend` states them |
| Osm.ProcessElementsAppend | graph-ds/src/hexagon_graph/osm.rs:29-84 | the file's edges are each element's edges, in element order |

## Left out

- Raster I/O and coordinate reference systems: `reproj_bounding_box`, `crop_tif_image`, `reproject_tif` and the pixel → coordinate transform in `tif_to_h3`. Pixels arrive as (row, col, code) and `cellOf` stands for the coordinate transform followed by `geo_to_h3`.
- h3 semantics: `geo_to_h3`, `polyfill`, `h3_line`, `h3_set_to_multi_polygon`, `grid_path_cells` and `to_cell` are uninterpreted parameters. Point-in-polygon is not modelled.
- `np.random.choice` is a boolean parameter per vote, not a random source. The model does not state that the choice is uniform.
- CSV writes (`to_csv`), the cached read in `get_pois_h3`, the pyrosm query, geocoding in `city_boundaries_to_h3`, and the plotting functions `plot_h3_and_geo` and `h3_list_to_multi_poly`: file, network and plotting I/O.
- `df_manipulations` also adds the columns `poi_type`, `no_header` and `category` to the caller's DataFrame, and rewrites `tags` with `astype(str)`. Only the returned table is modelled.
- `swap_xy` raising `ValueError` on an unknown type: the geometry datatype has no other type.
- Floating point: coordinates and weights are reals; f64 rounding is not modelled. `HexCell::from_carthesian`, `as_carthesian` and `get_vertices` are float trigonometry.
- Concurrency: `Graph::matrix_bfs_distance` and the rayon `par_map_reduce` of `process_osm_pbf`. The model concatenates element edges in element order. The parallel reduction may order them differently.
- The PBF reader, `edge_length_m` and the `LatLng::new(..).unwrap()` panic on an invalid coordinate in `process_osm_pbf`: a way arrives as its tags and node cells.
- Arc/Weak reference counting: a weak handle is a slot index. Nodes are never freed behind a live handle except through `remove_node`, which empties the slot.
- gtfs.rs, h3cell.rs, cli.rs, rejseplanen-worker and poi-extractor are not part of this model: feed reading, an h3o wrapper, command-line plumbing, an HTTP worker and GDAL I/O.
- Printing: the `Display` impl of `Edge<u64>` and the `println!` calls in `bfs` and `process_osm_pbf`.
- GraphDs.Graph.Bfs: runs with a fuel bound and reports `OutOfFuel` when the search or the backtrace exceeds it. The source loops forever on a self-parent, which `SelfParentHasNoBacktrace` shows has no finite backtrace. Its contract does not state the recorded distance values; `ExpandEntries` and `StartEntries` state what each queued entry carries. No shortest-distance claim is made, since a later pop overwrites a distance.
- GraphDs.Graph.Bfs: may report `OutOfFuel` for any fuel. The model does not prove that some fuel suffices, so termination of the search is not stated.
- GraphDs.Graph.Bfs: the `queue is empty` error after `pop_front` is unreachable under `while !q.is_empty()` and is not modelled.
- HexCells.GetNeighbor: uses release-build wrapping i16 arithmetic. A debug build panics on overflow instead.
- U64Graph.AddNode: `add_node`'s `Err("could not add node")` branch is unreachable right after a push and is not modelled. A `u64` id is an unbounded natural, so the `as u64`/`as usize` casts are the identity.
- HexagonGraph.BiInsertEffect: the node map is modelled in its cell → slot direction only. The slot → cell direction of the `BiMap` is implied by injectivity but is not a field.
- The type `Cell` that hexagon_graph.rs imports from `cell` is modelled as the `HexCell` that cell.rs defines.

# Geo-level time series: a Dafny model of the densify-and-join core

The system turns two sparse event tables into one dense, rectangular panel.
The tables are a response series and a cost series, each keyed by geo and date.
Its core is two functions of `create_df.py`:

- `create_dictionary` keeps the distinct `(geo, geo_name)` pairs of the response table, in first-seen order.
- `create_time_series` does the rest:
  - It builds the canonical index: the sorted distinct response geos crossed with every day from the first to the last response date.
  - It reindexes the response table and the cost table onto that index, with 0 where a label is absent.
  - It outer-merges the two dense tables on `(geo, date)`.
  - It left-merges the geo names of the dictionary.

The model is pure: record datatypes, functions over `seq`, and lemmas. It has one module per component:

- `Tables` (`tables.dfy`): the record types. Dates are day numbers, geo ids are integers, and values are integers that are carried but never computed on. The projections `Tables.ResponseCells` and `Tables.CostCells` select the columns a table is reindexed with and key its rows by `(geo, date)` (`create_df.py:42-43` with the `set_index` of lines 51-52). `GeoDictionary.Pairs` selects the `geo` and `geo_name` columns (`create_df.py:31`). These are plain column selections, and the contracts of the members that use them state the result.
- `GeoDictionary` (`dictionary.dfy`): the dictionary builder (drop-duplicates that keeps the first occurrence).
- `IndexGenerator` (`index.dfy`): the first and last response dates, the daily date axis, the sorted geo axis and their geo-major cross product.
- `Densifier` (`densifier.dfy`): reindexing with a fill value of 0.
- `Joiner` (`joiner.dfy`): the outer merge on `(geo, date)` and the left merge with the dictionary.
- `TimeSeries` (`pipeline.dfy`): `create_time_series` as a whole, with its failure cases, and the end-to-end properties.

Failures are values, not preconditions. Within the inputs the model covers, the source fails in three places, and `CreateTimeSeries` returns `Err` for each, in the order the source meets them:

- An empty response table has no first or last date, so building the date range fails (`EmptyResponses`).
- Reindexing a table whose `(geo, date)` labels repeat fails. This is checked for the response table first (`DuplicateResponseKey`), then for the cost table (`DuplicateCostKey`).

The members that need these conditions require them, and `CreateTimeSeries` reaches them only when they hold:

- `MinDate`, `MaxDate`, `CanonicalIndex` and `CanonicalIndexSize` require a non-empty response table.
- `Densify` requires a table with unique labels.
- `Join` requires the response labels in ascending order, unique cost labels, and the same label set on both sides.
- `MergedPanel` requires all three.

Two behaviours of the code are easy to miss:

- Cost rows outside the canonical index are dropped. The reindex at `create_df.py:52` keeps only index labels, so a cost row for a geo with no responses, or for a day outside the response span, never reaches the outer merge at line 54. `CostKeptIffInSpan` proves that a cost row reaches the panel exactly when its label is in the index.
- The dictionary is not one name per geo. The comment at `create_df.py:29` calls it a lookup between a geo's name and its number, but line 31 removes duplicate `(geo, geo_name)` pairs, not duplicate geos. A geo spelled two ways therefore gets two entries, and the left merge at line 56 repeats that geo's panel rows once per dictionary entry of the geo. `Enrich` attaches every dictionary name of a row's geo to a copy of that row. `NamesOfNoRepeats` shows that a repeat-free dictionary lists each spelling of a geo once, and `EnrichRowCount` gives the resulting row count. `EnrichAtMostOneName` shows that the row count and order are kept when no geo has more than one name.

The outer merge orders its rows by key. The canonical index is already in ascending lexicographic order (`FullIndexAscending`), so the merged panel keeps index order.

## Model

| member | source | states |
|---|---|---|
| GeoDictionary.Distinct | create_df.py:31 | drop-duplicates result has no repeated pair and holds exactly the pairs of its input |
| GeoDictionary.DistinctKeepsFirstSeenOrder | create_df.py:31 | kept pairs are ordered by where each first occurs in the input |
| GeoDictionary.DistinctUnique | create_df.py:31 | any repeat-free sequence of exactly the input's pairs in first-seen order is the drop-duplicates result, so the three properties fully specify it |
| GeoDictionary.Dictionary | create_df.py:30-32 | the dictionary holds exactly the (geo, geo_name) pairs of the response rows, with no entry repeated, ordered by where each pair first occurs in the response table |
| GeoDictionary.DictionaryGeosAreResponseGeos | create_df.py:30-32 | a geo has a dictionary entry if and only if it is a response geo |
| GeoDictionary.DictionaryGeosUnique | create_df.py:30-32 | when each geo has a single name in the responses, no two dictionary entries share a geo |
| IndexGenerator.MinDate | create_df.py:46 | the first date is the date of some response row and no response date precedes it |
| IndexGenerator.MaxDate | create_df.py:47 | the last date is the date of some response row and no response date follows it |
| IndexGenerator.DateAxis | create_df.py:46-47 | the axis starts at the first day and ends at the last; each entry is one day after the previous; it has last - first + 1 entries; a day is on it if and only if it lies in the span |
| IndexGenerator.InsertSorted | create_df.py:48 | inserting a geo into an ascending repeat-free axis keeps it ascending and adds exactly that geo |
| IndexGenerator.GeoAxis | create_df.py:48 | the geo axis is strictly ascending (each geo once) and holds exactly the response geos |
| IndexGenerator.FullIndex | create_df.py:49 | the cross product has \|geos\| * \|dates\| labels, and a label is in it if and only if its geo is on the geo axis and its date on the date axis |
| IndexGenerator.FullIndexAt | create_df.py:49 | entry k of the cross product is (geos[k / \|dates\|], dates[k % \|dates\|]), i.e. geo-major |
| IndexGenerator.FullIndexAscending | create_df.py:49 | over ascending axes the cross product is strictly ascending by (geo, date), so it has no repeated label |
| TimeSeries.CanonicalIndex | create_df.py:46-49 | the canonical index is ascending, and a label is in it if and only if its geo is a response geo and its date lies between the first and last response date |
| TimeSeries.CanonicalIndexSize | create_df.py:46-49 | the canonical index has (number of distinct response geos) * (last date - first date + 1) labels |
| IndexGenerator.DistinctGeoCount | create_df.py:48 | the geo axis has exactly as many entries as there are distinct response geos |
| IndexGenerator.SortedCardinality | create_df.py:48 | a strictly ascending axis has as many distinct values as entries |
| Densifier.ValueAt | create_df.py:51-52 | the looked-up value is the value of a row with that label, or 0 when no row has it |
| Densifier.Densify | create_df.py:51-52 | reindexing gives one row per index label, in index order; a label present in the source carries the source's value, an absent label carries 0, and a source label outside the index is not in the result |
| TimeSeries.DensifiedResponses | create_df.py:51 | the reindexed response table holds each response under its (geo, date) and 0 under every other label |
| TimeSeries.DensifiedCosts | create_df.py:52 | the reindexed cost table holds each cost under its (geo, date) and 0 under every other label |
| Joiner.Join | create_df.py:54 | the outer merge of two tables with the same label set has one row per label, ascending by label, carrying the response of the left table and the cost the right table holds under that label |
| TimeSeries.AlignedJoin | create_df.py:54 | merging two tables reindexed onto the same labels pairs their rows position by position |
| TimeSeries.MergedPanel | create_df.py:42-55 | the merged panel has one row per canonical-index label in index order; each row holds the response and the cost recorded under its label, or 0 where a table has none |
| TimeSeries.ResponsesAllKept | create_df.py:46-51 | every response row reaches the panel under its own label with its own value |
| TimeSeries.CostKeptIffInSpan | create_df.py:46-52 | a cost row reaches the panel if and only if its geo is a response geo and its date lies within the response span; any other cost row is dropped |
| Joiner.NamesOfNoRepeats | create_df.py:56 | in a dictionary without repeated entries, the names matched for a geo do not repeat, so there is one per distinct spelling |
| Joiner.NamesOf | create_df.py:56 | the names matched for a geo are exactly the names the dictionary lists with that geo |
| Joiner.Attach | create_df.py:56 | a left-merged row is repeated once per matching name, carrying its key and values, or kept once with no name when nothing matches |
| Joiner.Enrich | create_df.py:56 | the left merge has at least as many rows as the panel; every panel row is in it with its key, response and cost; every output row is a panel row with its key, response and cost; every panel row is in it with each dictionary name of its geo (how many copies is stated by `EnrichRowCount`); every attached name is a dictionary name of that geo; and a row is left unnamed only when the dictionary does not list its geo |
| Joiner.EnrichOne | create_df.py:56 | the left merge of a single panel row is that row with each name `NamesOf` matches for its geo, in that order, or the row unnamed; with EnrichConcat this determines the whole merge |
| Joiner.EnrichRowCount | create_df.py:56 | the left merge makes, of each panel row, one row per dictionary entry of its geo (a repeated entry gives a repeated row), or one row when the geo has none |
| Joiner.EnrichConcat | create_df.py:56 | the left merge works row by row in panel order: merging two concatenated panels gives the two merges concatenated |
| Joiner.EnrichAtMostOneName | create_df.py:56 | when no panel geo has more than one dictionary name, the left merge keeps row count and row order and attaches the geo's name, or no name when it has none |
| Joiner.EnrichKeepsUnnamed | create_df.py:56 | a panel row whose geo has no dictionary entry is kept with no name |
| TimeSeries.PanelGeosInDictionary | create_df.py:31-56 | every panel geo has an entry in the dictionary built from the same response table |
| TimeSeries.OneNamePerListedGeo | create_df.py:56 | in a dictionary with one entry per geo, a listed geo matches exactly one name |
| TimeSeries.PanelGeosNamedOnce | create_df.py:31-56 | when each response geo has a single name, every panel geo matches exactly one dictionary name |
| TimeSeries.CreateTimeSeries | create_df.py:35-58 | fails if and only if the response table is empty or either table repeats a (geo, date) label: an empty table first, then a repeated response label, then a repeated cost label. On success every row of the merged panel is in the result with its label, response and cost, and is in it with each dictionary name of its geo; every result row is such a row; every attached name is a dictionary name of that geo; and a row is unnamed only when the dictionary does not list its geo |
| TimeSeries.TimeSeriesWithDictionary | create_df.py:35-58 | with the dictionary built from the responses and one name per geo, the run succeeds with exactly one row per canonical-index label, in index order, carrying that label's response and cost and the geo's response-table name |

## Left out

- `read` (`create_df.py:16-27`) and `main` (`create_df.py:61-101`) are not part of this model. They cover folder globbing, CSV reading and writing, environment variables and logging, which are all I/O.
- The `TMPDIR` environment update at `create_df.py:7` is not modelled.
- Date parsing (`create_df.py:38-39`) is not modelled: dates arrive as day numbers. Unparseable dates, time-of-day parts and time zones are therefore outside the model. The in-place overwrite of the caller's `date` column is not modelled either.
- A missing column: the record types always carry the columns that `create_df.py:31` and `create_df.py:42-43` select (through `Tables.ResponseCells`, `Tables.CostCells` and `GeoDictionary.Pairs`). So the failure of selecting a column that is not there is not modelled.
- Joiner.Join: models the outer merge only when both sides carry the same set of labels, which is the only way `create_time_series` calls it. The general case is not modelled: rows present on one side only, their NaN fill, and the sort of an arbitrary key union.
- pandas column types are not modelled: values are integers, and float/int dtype changes and NaN have no counterpart.
- TimeSeries.CreateTimeSeries: its own contract states which rows the result holds and which names they carry, but not where each one sits. Position is stated by `Joiner.EnrichOne`, `Joiner.EnrichConcat` and `Joiner.EnrichRowCount` in general, and row by row by `TimeSeriesWithDictionary` under one name per geo.
- Joiner.NamesOf: its contract states which names match a geo, and `NamesOfNoRepeats` states that they do not repeat. Neither states that the names come in dictionary order, which only the definition gives.
- Geo ids are integers with the usual order. A missing (NaN) geo id, or a mix of id types that do not sort together, cannot be expressed.

# Stablecoin reserve shock: the date-keyed table plumbing

This project models the part of the stablecoin / Treasury-yield study that
sits between the data fetchers and the statistics libraries, and proves
properties of that model. Every operation works on tables of rows keyed by a
date:

- the DefiLlama stablecoin feed is normalised into records. This covers the
  timestamp window, where a bound of 0 is ignored, the `peggedUSD` defaults
  and the sort (`StablecoinIngest`, `fetch_stablecoin_caps.dfy`);
- the FRED series are fetched and each becomes one numeric column. The
  columns are outer-merged on the date and the result is sorted by date
  (`FredApi`, `fred_api.dfy`);
- the Treasury script derives `spread = DGS3 - DGS1` in place on the fetched
  table (`TreasurySpread`, `fetch_treasury_yields.dfy`);
- `collect_data` inner-merges the stablecoin and Treasury tables and keeps
  the study period 2024-11-01 to 2025-04-30 (`CollectData`,
  `collect_data.dfy`);
- the analysis script joins the date-sorted stablecoin table with the
  Treasury table and drops rows missing a key column. It then builds its
  report: the columns that exist, the 5- and 20-row lag pairing, the 30-row
  rolling window and the DGS10 key finding (`StablecoinTreasuryAnalysis`,
  `analyze_stablecoin_treasury.dfy`);
- the statistical-results script builds its input: one `market_cap` column,
  both indices truncated to calendar dates, an inner merge and a full
  `dropna()`. It then plans the Granger tests in both directions and picks
  the lag-1 F tests it prints (`StatisticalResults`,
  `generate_statistical_results.dfy`).

The shared pieces are:

- `Tables` (`tables.dfy`): rows, tables, inner join, `dropna` and column
  projection;
- `Sequences` (`sequences.dfy`): filter, insertion sort by key, sortedness
  and key sets;
- `Wrappers` (`wrappers.dfy`): `Option` and `Result`.

A table is a list of distinct column names and a sequence of rows. Each row
has an integer date key and one cell per column. A cell is `Option<real>`,
where `None` is pandas' NaN.

Library calls and numerics whose code is not in the repository are
parameters of the operations that use them:

- date parsing (`parseDate`) and date truncation (`dateOf`);
- `pd.to_numeric(errors="coerce")` (`toNumeric`);
- the FRED download of one series (`fetch`);
- Pearson's coefficient (`corr`);
- `grangercausalitytests` (`granger`).

Each script's error paths are modelled as `Result` failures, where the
script would raise:

- a missing `"date"` in a feed entry (`int(None)`);
- a series with no observations (`KeyError` on `"value"`);
- overlapping column names in `DataFrame.join`;
- merge suffixes that repeat a column name in `pd.merge`;
- a label missing from a `dropna` subset or a column selection;
- a missing lag-1 entry in a Granger result.

An empty input or an empty overlap raises nothing: the joins and merges give
an empty table, and the model does the same.

Duplicate dates:

- The inner joins model pandas' pairwise product: one row per matching pair,
  in left-row order.
- The FRED outer merge is modelled for series without repeated dates, which
  holds for daily FRED observations.

## Model

| member | source | states |
|---|---|---|
| `StablecoinIngest.InWindow` | scripts/ingest/fetch_stablecoin_caps.py:85-88 | an entry passes iff each truthy bound holds inclusively: start ≤ ts and ts ≤ end |
| `StablecoinIngest.ParseBound` | scripts/ingest/fetch_stablecoin_caps.py:80-81 | an absent or empty date string gives no bound; any other gives its parsed timestamp |
| `StablecoinIngest.PeggedUsd` | scripts/ingest/fetch_stablecoin_caps.py:90-91 | a missing object or a missing `peggedUSD` key gives 0; otherwise the stored value |
| `StablecoinIngest.InRangeRecords` | scripts/ingest/fetch_stablecoin_caps.py:83-97 | the records the loop appends: no more than the entries, each inside the window |
| `StablecoinIngest.InRangeRecordsOnePerEntry` | scripts/ingest/fetch_stablecoin_caps.py:83-97 | exactly one record per in-range entry, the k-th record built from the k-th in-range entry, and no other filtering |
| `StablecoinIngest.InRangeRecordsMembers` | scripts/ingest/fetch_stablecoin_caps.py:83-97 | window soundness (every record is inside the window) and completeness (every in-window entry yields its record) |
| `StablecoinIngest.InRangeRecordsSnoc` | scripts/ingest/fetch_stablecoin_caps.py:83-97 | one loop iteration appends the entry's record exactly when it is inside the window |
| `StablecoinIngest.ZeroBoundIgnored` | scripts/ingest/fetch_stablecoin_caps.py:80-88 | a bound equal to 0 filters exactly as an absent bound (truthiness test) |
| `StablecoinIngest.ProcessStablecoinData` | scripts/ingest/fetch_stablecoin_caps.py:65-102 | fails iff some entry lacks a date, naming the first such entry; otherwise the output is sorted by timestamp, a permutation of the in-range records, window-sound and window-complete (empty input gives empty output) |
| `FredApi.ValueOn` | scripts/utils/fred_api.py:76-86 | a series has a missing value on a date it does not observe; on an observed date the value is the coerced observation |
| `FredApi.SeriesRows` | scripts/utils/fred_api.py:76-80 | one row per observation, keyed by its date, with the single column named by the series id holding the coerced value |
| `FredApi.ExtendLeft` | scripts/utils/fred_api.py:86 | the merge keeps every left row in order and adds the right side's cells for its date |
| `FredApi.RightOnly` | scripts/utils/fred_api.py:86 | a right row is added iff its date is absent on the left, with missing values in the left columns |
| `FredApi.OuterMerge` | scripts/utils/fred_api.py:86 | the merged columns are the left then the right columns, and the merged index is the union of both indices |
| `FredApi.CellsAtSeries` | scripts/utils/fred_api.py:86 | looking up a date in one series' frame gives that series' value on the date |
| `FredApi.UnionDatesContains` | scripts/utils/fred_api.py:84-86 | every series' dates are among the merged dates |
| `FredApi.SeriesFrameMerged` | scripts/utils/fred_api.py:76-84 | the first series' frame already satisfies the merge invariant for that one series |
| `FredApi.SeriesFrameKeys` | scripts/utils/fred_api.py:76-80 | a series frame's index is exactly the series' dates |
| `FredApi.ExtendLeftCells` | scripts/utils/fred_api.py:86 | a kept left row gains the new column, holding the new series' value on its date, with its other values unchanged |
| `FredApi.RightOnlyCells` | scripts/utils/fred_api.py:86 | an added row has a date only the new series has, and every column holds that series' value (missing for the older series) |
| `FredApi.OuterMergeStep` | scripts/utils/fred_api.py:85-86 | one outer merge preserves the invariant: columns are the series so far, dates are unique, the index is the union of their dates, and each cell is its series' value on that date |
| `FredApi.RowFacts` | scripts/utils/fred_api.py:86 | the shape, dates and cell values of every row an outer merge produces |
| `FredApi.MergedUniqueKeys` | scripts/utils/fred_api.py:86 | the merged table has no repeated date |
| `FredApi.MergedKeySet` | scripts/utils/fred_api.py:86 | the merged index is the union of both indices |
| `FredApi.RightOnlyKeySet` | scripts/utils/fred_api.py:86 | the added rows' dates are exactly the right dates absent on the left |
| `FredApi.RightOnlyKeys` | scripts/utils/fred_api.py:86 | the added rows follow the right side's order, so they keep its unique dates |
| `FredApi.MergeAll` | scripts/utils/fred_api.py:83-86 | after merging all series: one column per series id in order, unique dates, the union of all dates, and each cell is its series' value on that date |
| `FredApi.SortIndexKeeps` | scripts/utils/fred_api.py:88-91 | sorting the index gives strictly ascending dates and keeps the index set, the shape and every cell |
| `FredApi.FetchTreasuryYields` | scripts/utils/fred_api.py:61-93 | fails iff some series has no observations, naming the first such series; otherwise columns are the series ids in order, dates are strictly ascending and form the union of all series' dates, and each cell is that series' coerced value on the date, missing where it has no observation |
| `TreasurySpread.Spread` | scripts/ingest/fetch_treasury_yields.py:47 | the spread is present iff both operands are, and then it is DGS3 minus DGS1 (spread + DGS1 = DGS3) |
| `TreasurySpread.WithSpread` | scripts/ingest/fetch_treasury_yields.py:47 | the same rows with the same dates in order, and the column set gains `spread` |
| `TreasurySpread.WithColumnDistinct` | scripts/ingest/fetch_treasury_yields.py:47 | the new column list has no duplicates and holds the old columns plus `spread` |
| `TreasurySpread.WithSpreadRow` | scripts/ingest/fetch_treasury_yields.py:47 | each row keeps its date and every other value, and gains the spread of its own DGS3 and DGS1 |
| `TreasurySpread.WithSpreadKeys` | scripts/ingest/fetch_treasury_yields.py:47 | the date index is unchanged |
| `TreasurySpread.WithSpreadWellFormed` | scripts/ingest/fetch_treasury_yields.py:47 | the table stays well-formed with the same row count, and exactly one column is added (none if `spread` already existed) |
| `TreasurySpread.YieldFrame.constructor` | scripts/ingest/fetch_treasury_yields.py:44 | the frame holds the fetched table |
| `TreasurySpread.YieldFrame.AddSpread` | scripts/ingest/fetch_treasury_yields.py:47 | a missing DGS3, then a missing DGS1, is reported and leaves the table unchanged; otherwise the table becomes its spread-extended version |
| `CollectData.Collect` | scripts/collect_data.py:11-14 | columns are both tables' columns, and there are no more rows than merged pairs |
| `CollectData.CollectKeysInBoth` | scripts/collect_data.py:11 | every output date appears in both input tables |
| `CollectData.CollectWindow` | scripts/collect_data.py:14 | every output date lies in 2024-11-01..2025-04-30 inclusive, and every merged pair inside that window is kept |
| `CollectData.CollectKeepsOrder` | scripts/collect_data.py:14 | the output is a subsequence of the merge, and is date-sorted when the stablecoin table is |
| `CollectData.CollectIdempotent` | scripts/collect_data.py:14 | filtering the output again changes nothing |
| `Tables.Matches` | scripts/analyze_stablecoin_treasury.py:36 | one joined row per right row with the same date, and only those |
| `Tables.MatchesPairwise` | scripts/analyze_stablecoin_treasury.py:36 | exactly one joined row per right row with the left row's date, in the right side's order (duplicate dates multiply) |
| `Tables.JoinRows` | scripts/analyze_stablecoin_treasury.py:36 | a row is in the inner join iff it merges a left row and a right row with equal dates |
| `Tables.JoinRowsConcat` | scripts/analyze_stablecoin_treasury.py:36 | the joined rows come grouped by left row, the groups in left-row order |
| `Tables.JoinKeysInBoth` | scripts/analyze_stablecoin_treasury.py:36 | every joined date is in both indices |
| `Tables.JoinRowsSorted` | scripts/analyze_stablecoin_treasury.py:30-36 | a date-sorted left side gives a date-sorted join |
| `Tables.ConcatDistinct` | scripts/analyze_stablecoin_treasury.py:36 | joining tables with disjoint columns gives distinct columns |
| `Tables.MergeCells` | scripts/analyze_stablecoin_treasury.py:36 | a merged row has one cell per column of either side |
| `Tables.JoinWellFormed` | scripts/analyze_stablecoin_treasury.py:36 | the join of well-formed tables with disjoint columns is well-formed |
| `Tables.Join` | scripts/analyze_stablecoin_treasury.py:36 | fails iff the column names overlap; otherwise the columns are the left columns then the right columns |
| `Tables.DropNaSubset` | scripts/analyze_stablecoin_treasury.py:39 | fails iff a subset label is not a column; otherwise it keeps exactly the rows with values in every subset column |
| `Tables.FirstMissing` | scripts/analyze_stablecoin_treasury.py:39 | the label reported is one of the requested labels that is absent |
| `Tables.DropNa` | scripts/generate_statistical_results.py:34 | keeps exactly the rows with a value in every column |
| `Tables.DropNaWellFormed` | scripts/generate_statistical_results.py:34 | dropping rows keeps a table well-formed |
| `Tables.Project` | scripts/generate_statistical_results.py:55-57 | the selected columns in the requested order, the same rows and dates, and unchanged values |
| `StablecoinTreasuryAnalysis.SortedStable` | scripts/analyze_stablecoin_treasury.py:30 | the same columns, rows sorted by date and a permutation of the input rows |
| `StablecoinTreasuryAnalysis.Cleaned` | scripts/analyze_stablecoin_treasury.py:36-39 | a cleaned table has the stablecoin then the Treasury columns, and every row has values in the three key columns |
| `StablecoinTreasuryAnalysis.CleanedFails` | scripts/analyze_stablecoin_treasury.py:36-39 | the script stops iff column names collide or a key column is in neither table; otherwise columns are stablecoin then Treasury |
| `StablecoinTreasuryAnalysis.CleanedRows` | scripts/analyze_stablecoin_treasury.py:36-39 | every remaining row has a date in both indices and values in `circulating_supply_usd`, `DGS10` and `DGS3MO` |
| `StablecoinTreasuryAnalysis.CleanedSorted` | scripts/analyze_stablecoin_treasury.py:30-39 | the cleaned rows are in ascending date order |
| `StablecoinTreasuryAnalysis.CleanedKeepsOtherGaps` | scripts/analyze_stablecoin_treasury.py:39 | every joined row complete in the key columns is kept, whatever other columns it lacks |
| `StablecoinTreasuryAnalysis.CleanedWellFormed` | scripts/analyze_stablecoin_treasury.py:36-39 | the cleaned table is well-formed |
| `StablecoinTreasuryAnalysis.ExistingColumns` | scripts/analyze_stablecoin_treasury.py:45-49 | a name is kept iff it is in the describe list and in the table |
| `StablecoinTreasuryAnalysis.ExistingColumnsOrder` | scripts/analyze_stablecoin_treasury.py:45-49 | the kept names are a subsequence of the describe list, so `circulating_supply_usd` comes first when present |
| `StablecoinTreasuryAnalysis.ExistingKeyColumns` | scripts/analyze_stablecoin_treasury.py:49-62 | with all key columns present, the list starts with the market cap and `DGS10`, `DGS3MO` are among the rest |
| `StablecoinTreasuryAnalysis.CleanedExistingColumns` | scripts/analyze_stablecoin_treasury.py:39-62 | after cleaning, the market cap leads the list and `DGS10`, `DGS3MO` are correlated against it |
| `StablecoinTreasuryAnalysis.Shift` | scripts/analyze_stablecoin_treasury.py:63 | same length; the first k entries are missing and entry i holds entry i − k |
| `StablecoinTreasuryAnalysis.PairedIndices` | scripts/analyze_stablecoin_treasury.py:55 | a row is paired iff both values are present, and the paired rows strictly increase (row order, no repeats) |
| `StablecoinTreasuryAnalysis.CompletePairs` | scripts/analyze_stablecoin_treasury.py:55 | the pairs handed to the coefficient are the paired rows' two values, in row order |
| `StablecoinTreasuryAnalysis.SeriesCorrelation` | scripts/analyze_stablecoin_treasury.py:55 | missing when no row has both values; otherwise the coefficient of the complete pairs |
| `StablecoinTreasuryAnalysis.LagCorrelation` | scripts/analyze_stablecoin_treasury.py:63-65 | missing when the lag is at least the column length; a defined value needs a row i ≥ k with the market cap at i and the other column at i − k |
| `StablecoinTreasuryAnalysis.LagPairedRows` | scripts/analyze_stablecoin_treasury.py:63-65 | lag k pairs row i of the market cap with row i − k of the other column, exactly for rows i ≥ k with both values present |
| `StablecoinTreasuryAnalysis.LagPairCount` | scripts/analyze_stablecoin_treasury.py:63-65 | at most n − k pairs, none when k ≥ n, and exactly n − k when no value is missing |
| `StablecoinTreasuryAnalysis.RollingAt` | scripts/analyze_stablecoin_treasury.py:70-73 | a defined entry i has i ≥ window − 1 and both values in every row of its window |
| `StablecoinTreasuryAnalysis.WindowComplete` | scripts/analyze_stablecoin_treasury.py:73 | a window with as many complete pairs as rows has no missing value |
| `StablecoinTreasuryAnalysis.RollingCorrelation` | scripts/analyze_stablecoin_treasury.py:73 | one entry per row |
| `StablecoinTreasuryAnalysis.RollingWarmUp` | scripts/analyze_stablecoin_treasury.py:70-73 | entries before the first full window are undefined |
| `StablecoinTreasuryAnalysis.RollingNeedsFullWindow` | scripts/analyze_stablecoin_treasury.py:70-73 | a defined entry i has i ≥ 29 and a complete window i − 29..i |
| `StablecoinTreasuryAnalysis.FullyPaired` | scripts/analyze_stablecoin_treasury.py:73 | as many pairs as rows means no value is missing |
| `StablecoinTreasuryAnalysis.RollingUsesWindow` | scripts/analyze_stablecoin_treasury.py:70-73 | a complete window's entry is the coefficient of exactly rows i − 29..i, in order |
| `StablecoinTreasuryAnalysis.AllPresentPairs` | scripts/analyze_stablecoin_treasury.py:73 | with no missing value, every row is paired, in order |
| `StablecoinTreasuryAnalysis.Classify` | scripts/analyze_stablecoin_treasury.py:141-147 | negative iff below −0.2, positive iff above 0.2, little to none otherwise (including ±0.2 and an undefined value) |
| `StablecoinTreasuryAnalysis.LagLinesLength` | scripts/analyze_stablecoin_treasury.py:62-66 | two lag lines per column |
| `StablecoinTreasuryAnalysis.LagLinesAt` | scripts/analyze_stablecoin_treasury.py:62-66 | lines 2m and 2m+1 are the 5-row and 20-row lines of the m-th column |
| `StablecoinTreasuryAnalysis.LagLinesShape` | scripts/analyze_stablecoin_treasury.py:62-66 | exactly two lines per column of `existing_cols[1:]`, 5-row then 20-row, in column order |
| `StablecoinTreasuryAnalysis.LagLinesNoFinding` | scripts/analyze_stablecoin_treasury.py:62-66 | the lag section holds only lag lines |
| `StablecoinTreasuryAnalysis.LagReport` | scripts/analyze_stablecoin_treasury.py:61-66 | the appending loop produces exactly the lag lines |
| `StablecoinTreasuryAnalysis.RollingReport` | scripts/analyze_stablecoin_treasury.py:69-82 | one saved line and one rolling series per column, in order; each series is the 30-row rolling correlation against the market cap, one entry per row |
| `StablecoinTreasuryAnalysis.KeyFinding` | scripts/analyze_stablecoin_treasury.py:140-147 | one finding line when `DGS10` exists, none otherwise |
| `StablecoinTreasuryAnalysis.ReportBody` | scripts/analyze_stablecoin_treasury.py:42-82 | the sections before the finding have 10 + 3 lines per correlated column: 7 preamble lines, 2 lag lines and 1 saved-plot line per column, 3 separators |
| `StablecoinTreasuryAnalysis.Report` | scripts/analyze_stablecoin_treasury.py:42-147 | the body plus one line when `DGS10` exists, and then the last line is the classification of the market-cap/DGS10 coefficient |
| `StablecoinTreasuryAnalysis.SectionsNoFinding` | scripts/analyze_stablecoin_treasury.py:50-82 | the summary, matrix, lag and rolling sections contain no finding |
| `StablecoinTreasuryAnalysis.ReportBodyNoFinding` | scripts/analyze_stablecoin_treasury.py:42-82 | nothing before the key finding is a finding |
| `StablecoinTreasuryAnalysis.ReportFinding` | scripts/analyze_stablecoin_treasury.py:39-147 | after cleaning, `DGS10` always exists, so the report ends with exactly one finding: the classification of the market-cap/DGS10 coefficient |
| `StablecoinTreasuryAnalysis.Analyze` | scripts/analyze_stablecoin_treasury.py:42-147 | the report lines built step by step equal the report, and one rolling series is built per column after the market cap |
| `StablecoinTreasuryAnalysis.RunAnalysis` | scripts/analyze_stablecoin_treasury.py:26-147 | fails exactly when cleaning fails; otherwise it returns the report of the cleaned table |
| `StatisticalResults.MarketCapSource` | scripts/generate_statistical_results.py:23-25 | no source iff neither `circulating_supply_usd` nor `market_cap` is a column; otherwise one of them |
| `StatisticalResults.MarketCapSide` | scripts/generate_statistical_results.py:20-28 | exactly one column, `market_cap`, one row per input row, with its date truncated and its value taken from the source column |
| `StatisticalResults.TruncateIndex` | scripts/generate_statistical_results.py:29 | the same columns and rows in order, each date truncated |
| `StatisticalResults.SuffixCells` | scripts/generate_statistical_results.py:32 | a `market_cap` cell moves to its suffixed name, and no other cell changes |
| `StatisticalResults.Suffixed` | scripts/generate_statistical_results.py:32 | one side after suffixing: `market_cap` renamed in the column list and in every row, nothing else changed |
| `StatisticalResults.MergedColumns` | scripts/generate_statistical_results.py:32 | the market-cap column then the Treasury columns; with no clash exactly `market_cap` + Treasury columns, with a clash no column is named `market_cap` |
| `StatisticalResults.LoadData` | scripts/generate_statistical_results.py:13-35 | fails iff neither market-cap name exists, or the merge's suffixes would repeat a Treasury column name (MergeError); otherwise the columns are the merged columns and no value is missing; when the Treasury table has its own `market_cap`, no `market_cap` column is left, so `run_granger_tests` fails |
| `StatisticalResults.Aligned` | scripts/generate_statistical_results.py:28-32 | the columns are the merged columns; a row is merged iff it pairs a stablecoin row and a Treasury row with the same truncated date: that date, the stablecoin value under `market_cap` (`market_cap_x` on a clash) and the Treasury cells (a Treasury `market_cap` as `market_cap_y`) |
| `StatisticalResults.ClashKeepsBothValues` | scripts/generate_statistical_results.py:32-34 | on a Treasury table with its own `market_cap`, the load succeeds with `market_cap_x` (the stablecoin value) and `market_cap_y` (the Treasury value), and no column `market_cap` |
| `StatisticalResults.LoadDataFails` | scripts/generate_statistical_results.py:23-32 | with neither market-cap name the load fails reporting `market_cap`; with one but colliding suffixes it fails with the merge's column error |
| `StatisticalResults.LoadDataShape` | scripts/generate_statistical_results.py:23-34 | the loaded table is well-formed, with `market_cap` followed by the Treasury columns |
| `StatisticalResults.LoadDataComplete` | scripts/generate_statistical_results.py:34 | no remaining row has a missing value in any column |
| `StatisticalResults.LoadDataKeysInBoth` | scripts/generate_statistical_results.py:28-32 | every row's date is the truncated date of a stablecoin row, whose value it carries, and of a Treasury row |
| `StatisticalResults.AlignedRowSource` | scripts/generate_statistical_results.py:28-32 | every merged row comes from a stablecoin row and a Treasury row on the same calendar date |
| `StatisticalResults.LoadDataSameDay` | scripts/generate_statistical_results.py:28-34 | two complete rows whose timestamps fall on the same day are merged into the output, under the merged column names |
| `StatisticalResults.AlignedMerges` | scripts/generate_statistical_results.py:32 | rows on the same truncated date are merged into one row, under the merged column names |
| `StatisticalResults.MergedRowComplete` | scripts/generate_statistical_results.py:34 | a merged row of complete sides has a value in every merged column, so it survives `dropna()` |
| `StatisticalResults.AlignedPair` | scripts/generate_statistical_results.py:28-34 | a complete pair on the same calendar date is kept after `dropna()` |
| `StatisticalResults.TestTablesSwapped` | scripts/generate_statistical_results.py:55-57 | the two tested tables have the same rows, with columns `[market_cap, col]` and `[col, market_cap]` |
| `StatisticalResults.TestPair` | scripts/generate_statistical_results.py:55-62 | when the test reports every lag 1..5, as `grangercausalitytests` with `maxlag=5` does, both directions have a lag-1 entry |
| `StatisticalResults.RunGrangerTests` | scripts/generate_statistical_results.py:48-64 | fails iff `market_cap` or a tested yield is missing, naming a missing label; otherwise the result has exactly the six yields, in order, each with both directions at maximum lag 5; when the test reports every lag, every entry has the lag-1 results the summary prints |
| `StatisticalResults.GrangerSummary` | scripts/generate_statistical_results.py:133-141 | one printed line per yield, in order, from the lag-1 F test of each direction; fails iff some test lacks a lag-1 entry |

## Left out

- Network access: the DefiLlama download with its retry, `requests.get` for FRED and the sample printer. The data they return is an input.
- File input and output: the parquet and CSV reads and writes, the report file, directory creation, logging, `print` and the `main`/`argparse` blocks.
- Plotting: every matplotlib and seaborn figure. The rolling series that would be plotted are returned instead.
- Library numerics, which are parameters: Pearson's coefficient, `grangercausalitytests` (a total function here, so its ValueError on too few rows for `maxlag=5` does not arise), `describe()` and the correlation matrix (kept as opaque report entries), the VAR fit, `pct_change` and rolling mean/std.
- Date and time conversion, which are parameters: `parse_date`, `unix_to_date`, `pd.to_datetime` and the truncation to `.date`. The `strptime` format check at scripts/utils/fred_api.py:55-59, the `FRED_API_KEY` check and the `datetime.now()` default are not modelled.
- StablecoinIngest.ProcessStablecoinData: only a missing `"date"` is an error. A date that `int()` cannot parse, and entries that are not objects, are not modelled.
- StablecoinIngest.ProcessStablecoinData: the relative order of records with equal timestamps is not stated, because pandas' default sort is not stable.
- StablecoinIngest.ProcessStablecoinData: when no entry is in range, pandas builds a table with no columns, so the analysis script's rename and `set_index("date")` would raise; the model returns an empty record sequence and does not follow that failure into the analysis.
- StablecoinTreasuryAnalysis.SortedStable: sorts with one fixed insertion sort, so rows with equal timestamps get one particular order, and the lag and rolling pairings follow it; `sort_index()` promises no order for ties. Its contract states only sortedness and permutation; on input that is already sorted, as the ingest produces, the two agree up to ties.
- FredApi.FetchTreasuryYields: requires each series to have no repeated date, as FRED's daily series do. pandas' behaviour on repeated dates is not modelled.
- FredApi.MergeAll: requires unique dates per series, for the same reason.
- FredApi.OuterMergeStep: requires unique dates in the new series, for the same reason.
- FredApi.FetchTreasuryYields: the conversion of the date column to datetimes at scripts/utils/fred_api.py:89 is folded into the integer date key.
- CollectData.Collect: requires disjoint non-date columns. pandas' `_x`/`_y` suffixing of shared names is not modelled.
- CollectData.CollectWindow: dates are whole days, so a datetime with a time of day on 2025-04-30, which pandas compares as later than the bare date and drops, is not expressible.
- StatisticalResults.GrangerSummary: the model does not assume the test's reported lags; `MissingLagOne` is reachable unless the test reports every lag 1..5, the case `RunGrangerTests` states.
- StatisticalResults.LoadDataShape: requires that the Treasury table has no `market_cap` column. The suffixed case is stated by `LoadData` and `Aligned`; this lemma states the usual case.
- StatisticalResults.LoadDataKeysInBoth: requires that the Treasury table has no `market_cap` column, because it reads the value under `market_cap`, which a clash renames.
- StatisticalResults.AlignedRowSource: requires that the Treasury table has no `market_cap` column, for the same reason.
- StatisticalResults.LoadData: the MergeError on suffixes that repeat a column name is the behaviour of pandas 2 (the dependency is unpinned); older pandas kept the duplicate names.
- StatisticalResults.LoadData: when the table has both `circulating_supply_usd` and `market_cap`, the rename yields two `market_cap` columns. The model keeps only the renamed one.
- StatisticalResults.RunGrangerTests: when both `market_cap` and a yield are missing, the label reported is the first one missing. pandas' exact KeyError message is not modelled.
- StablecoinTreasuryAnalysis.KeyFinding: the headline coefficient is the pairwise-complete correlation of the two columns. The matrix cell it is read from is the same value in pandas; the model does not compute the matrix itself.
- The test file tests/ingest/test_fetch_stablecoin_caps.py describes an older output schema and is not part of this model.
- The collectors `collect_stablecoin_data` and `collect_treasury_data` are not defined in the repository. Their tables are inputs of `CollectData.Collect`.
- The conversion of `timestamp` to datetimes at scripts/generate_statistical_results.py:20 is folded into the integer date key.

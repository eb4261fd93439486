# covid19_datasets core, modelled in Dafny

This project models two pipelines of the `covid19_datasets` package and proves properties of them.

**HMD excess mortality** (`covid19_datasets/hmd.py`). There is one raw table of weekly death counts per
country (ISO), sex and week. The pipeline computes:

- a baseline per (ISO, Sex, Week): the mean of each death-count column over the years 2015-2019, skipping
  missing values;
- the 2020 excess over that baseline;
- `Sex` and ISO relabelling, the column renaming, and a weekly-to-daily average.

On request it also resamples each (ISO, Sex) series to one row per day. That resampling back-fills the daily
average by at most seven days. A class-level cache holds the raw table once loaded.

**Combined dataset** (`covid19_datasets/combined.py`). Two excess-mortality sources (Economist and EuroStats)
are reconciled:

- each drops its excluded countries;
- the build aborts when a country survives both filters;
- otherwise the two are concatenated into one four-column schema.

Government policies are left-merged with mask policies. Every indicator is then forward-filled within its
country and zero-filled. The result is left-merged in turn with cases (then zero-filled), mobility, median
age, reference indicators and the excess table. A class-level cache holds the result.

Layout:

- `tables.dfy` (module `Tables`): missing cells, results, order-preserving selection, the pandas left join,
  and key uniqueness.
- `hmd.dfy` (module `Hmd`): the HMD pipeline and the `HMDExcessMortality` class.
- `combined.dfy` (module `Combined`): the reconciliation, interventions, the join chain and the `Combined` class.

Modelling conventions:

- Numbers are `real` and dates are day numbers (`int`).
- A missing cell (NaN) is `Option.None`.
- Each upstream adapter's table is a parameter, as is the calendar-week function `last_day_of_calenderweek`.
- One class object stands for each class-level slot.

## Model

| member | source | states |
|---|---|---|
| Tables.Filter | covid19_datasets/combined.py:58 | boolean-mask selection keeps exactly the rows satisfying the mask and never grows the table |
| Tables.FilterAppend | covid19_datasets/combined.py:58 | selection commutes with concatenation, so the surviving rows keep their original order |
| Tables.FilterUnique | covid19_datasets/combined.py:62-63 | selecting rows keeps a unique key unique |
| Tables.FilterMap | covid19_datasets/hmd.py:90 | a row-wise computation followed by dropping rows keeps exactly the values some row yields |
| Tables.MatchesOf | covid19_datasets/combined.py:84 | the right rows a key matches are exactly the right rows carrying that key |
| Tables.Lookup | covid19_datasets/combined.py:84 | a found partner carries the key; no partner is found iff no right row carries the key |
| Tables.LookupFirst | covid19_datasets/combined.py:84 | the partner found is the first right row carrying the key: no earlier right row has it |
| Tables.MatchesOfSelects | covid19_datasets/combined.py:84 | the rows a key matches are the mask selection of the right table on that key, so they keep the right table's order |
| Tables.JoinOneMatches | covid19_datasets/combined.py:84 | a left row is paired with each right row on its key once, in right order, and is kept once with no partner when there is none |
| Tables.LeftJoin | covid19_datasets/combined.py:84 | a left merge has at least as many rows as the left table and every output row's left part is a left row; the full characterisation is LeftJoinKeepsLeft, LeftJoinUnique and JoinOneMatches |
| Tables.LeftJoinKeepsLeft | covid19_datasets/combined.py:84 | a left merge keeps every left row and adds none of its own; each pairing is with a right row on the same key, or with nothing when the key has no right row |
| Tables.LeftJoinUnique | covid19_datasets/combined.py:84 | with at most one right row per key, a left merge keeps the left rows one for one and in order |
| Tables.LeftJoinLeftParts | covid19_datasets/combined.py:94-98 | the left parts of a left merge's output are exactly the left table's rows |
| Tables.LeftJoinSource | covid19_datasets/combined.py:94-98 | every output row of a left merge comes from a row of the left table, whose position is returned |
| Hmd.Mean | covid19_datasets/hmd.py:82-85 | the mean exists iff there is at least one present value, and times the count it equals the sum |
| Hmd.Baseline | covid19_datasets/hmd.py:82-85 | a baseline exists in a column iff some reference-year row of the stratum-week has a value there; its value is the Mean of those values (BaselineIgnoresOtherRows, BaselineOfConstant) |
| Hmd.WindowValuesPresent | covid19_datasets/hmd.py:82-83 | a stratum-week has reference values in a column iff some 2015-2019 row of it has a value there |
| Hmd.WindowValuesAppend | covid19_datasets/hmd.py:82-83 | the reference-year values of a stratum-week collect row by row |
| Hmd.BaselineIgnoresOtherRows | covid19_datasets/hmd.py:81-85 | a row outside 2015 <= Year < 2020, or of another (ISO, Sex, Week), does not change the baseline |
| Hmd.NoReferenceRowsNoBaseline | covid19_datasets/hmd.py:82-85 | a stratum-week without a reference-year row has no baseline |
| Hmd.BaselineOfConstant | covid19_datasets/hmd.py:82-85 | when every reference-year value of a stratum-week is v, the baseline is v |
| Hmd.MeanOfConstant | covid19_datasets/hmd.py:82-85 | the mean of a non-empty list of equal values is that value |
| Hmd.ExcessOf | covid19_datasets/hmd.py:86-97 | only a 2020 row yields a record, and exactly when some column has both a 2020 value and a baseline; each column is the 2020 value minus the baseline; the date is the week's last day; Sex and ISO are relabelled; the daily average times 7 is the weekly total |
| Hmd.Excess | covid19_datasets/hmd.py:86-90 | the weekly table never has more rows than the raw table and holds exactly the records some raw row yields by ExcessOf |
| Hmd.ExcessRecords | covid19_datasets/hmd.py:86-95 | the weekly table holds exactly the records the 2020 rows yield, each with a consistent daily average |
| Hmd.NoBaselineDropped | covid19_datasets/hmd.py:90 | a 2020 row whose stratum-week has no reference-year row is dropped |
| Hmd.BaselineExample | covid19_datasets/hmd.py:82-85 | worked case: reference totals 10, 20, 30, 40, 50 give a baseline of 30 (a 2014 row is outside the window) |
| Hmd.ExcessExample | covid19_datasets/hmd.py:86-95 | worked case continued: a 2020 total of 45 gives an excess of 15 and a daily average of 15/7, and the raw Sex code b becomes Total |
| Hmd.NormalizeSex | covid19_datasets/hmd.py:92 | no raw code b, m or f survives the relabelling, and every other label is kept |
| Hmd.NormalizeIso | covid19_datasets/hmd.py:97 | DEUTNP never survives the relabelling, and every other code is kept |
| Hmd.DailyAverage | covid19_datasets/hmd.py:95 | the daily average is present iff the weekly total is, and seven times it is the weekly total |
| Hmd.NormalizeLabelsIdempotent | covid19_datasets/hmd.py:92-97 | relabelling Sex and ISO twice is relabelling once; Sex ends in {Total, Male, Female} iff it started in the six known labels |
| Hmd.ExcessHeaderRenaming | covid19_datasets/hmd.py:14-21 | the excess header renames exactly the six death-count columns as COLUMN_NAMES says, keeps ISO, Sex, Week and DATE, ends with the daily average, and has no duplicate name |
| Hmd.NextValue | covid19_datasets/hmd.py:48 | the first present entry at or after a position, or none when all later entries are missing |
| Hmd.BackFilled | covid19_datasets/hmd.py:48 | the back-fill keeps the length and every present entry |
| Hmd.BackFilledAt | covid19_datasets/hmd.py:48 | an entry is v iff the nearest present entry at or after it is v and at most `limit` positions on |
| Hmd.BackFill | covid19_datasets/hmd.py:48 | the in-place backward pass leaves the array equal to the back-filled column |
| Hmd.MinDate | covid19_datasets/hmd.py:44 | the earliest week-end date of a group |
| Hmd.MaxDate | covid19_datasets/hmd.py:45 | the latest week-end date of a group |
| Hmd.Resample | covid19_datasets/hmd.py:42-49 | reindexing fails iff two records share a date; otherwise there is one row per consecutive day from six days before the first week-end to the last |
| Hmd.Reindexed | covid19_datasets/hmd.py:46-48 | one row per day of the group's span; what each day holds is stated by ReindexedWeek, ReindexedGap, ReindexedDailyAverageSound and ReindexedDailyAverageComplete |
| Hmd.WeekOnDistinct | covid19_datasets/hmd.py:46 | with distinct dates, a record's own date reindexes to that record |
| Hmd.ReindexedWeek | covid19_datasets/hmd.py:46-47 | a record's day lies in the range and carries its columns and daily average |
| Hmd.ReindexedGap | covid19_datasets/hmd.py:46-47 | a day on which no week ends has every death-count column missing |
| Hmd.ResampleKeepsWeeks | covid19_datasets/hmd.py:46-47 | after resampling, each record's day carries its columns and every other day has them missing |
| Hmd.AvgSeriesAt | covid19_datasets/hmd.py:46-47 | a present reindexed daily average comes from the record ending on that day |
| Hmd.ReindexedDailyAverageSound | covid19_datasets/hmd.py:48 | a back-filled daily average comes from the nearest later week-end with one, at most seven days on |
| Hmd.ReindexedDailyAverageComplete | covid19_datasets/hmd.py:48 | the nearest later week-end with a daily average, at most seven days on, fills the day |
| Hmd.ResampleDailyAverage | covid19_datasets/hmd.py:48 | a day has daily average v iff the nearest week-end at or after it with a daily average has v and is at most seven days later |
| Hmd.Distinct | covid19_datasets/hmd.py:101 | the group keys are those of the table, each once |
| Hmd.GroupKeys | covid19_datasets/hmd.py:101 | every (ISO, Sex) of the table is a group, and no group appears twice |
| Hmd.GroupOf | covid19_datasets/hmd.py:101 | a group holds exactly the records of its (ISO, Sex), and is non-empty |
| Hmd.DailyOfFails | covid19_datasets/hmd.py:99-105 | resampling a list of groups fails iff one of them has two records on one date |
| Hmd.DailyOfCons | covid19_datasets/hmd.py:100-102 | the daily table is the groups' daily series one after another |
| Hmd.ReindexedInSpan | covid19_datasets/hmd.py:44-47 | each row of a group's daily series belongs to the group and lies in its span |
| Hmd.DailyOfRowsInSpan | covid19_datasets/hmd.py:99-105 | every daily row belongs to a listed group and lies in that group's span |
| Hmd.DailyOfIndex | covid19_datasets/hmd.py:99-105 | day d of a listed group's span sits at a returned position of the daily table, with that group's ISO and Sex |
| Hmd.DailyOfCoversSpan | covid19_datasets/hmd.py:99-105 | every day of every listed group's span has a daily row |
| Hmd.ReindexedUniqueDays | covid19_datasets/hmd.py:46-47 | a group's daily series has one row per day |
| Hmd.DailyOfKeys | covid19_datasets/hmd.py:100-102 | every daily row carries one of the listed groups |
| Hmd.DailyOfDistinctDays | covid19_datasets/hmd.py:99-105 | with distinct groups, no two daily rows share (ISO, Sex, DATE) |
| Hmd.DailyTableOnePerDay | covid19_datasets/hmd.py:99-105 | the daily table has exactly one row per (ISO, Sex, day) of each group's span and no other rows |
| Hmd.DailyTableFails | covid19_datasets/hmd.py:99-105 | the daily table fails iff some (ISO, Sex) group has two records on one date |
| Hmd.DailyTable | covid19_datasets/hmd.py:99-105 | the resampled table of every (ISO, Sex) group; its failure cases are stated by DailyTableFails and its rows by DailyTableOnePerDay |
| Hmd.ExcessOutput | covid19_datasets/hmd.py:76-107 | the weekly table when `daily` is false, otherwise the daily table; its parts are stated by Excess, ExcessRecords, DailyTableFails and DailyTableOnePerDay |
| Hmd.HMDExcessMortality.constructor | covid19_datasets/hmd.py:57 | the class slot starts empty |
| Hmd.HMDExcessMortality.Init | covid19_datasets/hmd.py:59-68 | the table is reused iff one is stored and no reload is forced; otherwise the download replaces it, and a failed download leaves the slot unchanged |
| Hmd.HMDExcessMortality.GetRawData | covid19_datasets/hmd.py:70-74 | returns the stored table |
| Hmd.HMDExcessMortality.GetData | covid19_datasets/hmd.py:76-107 | computes the weekly or daily output from the stored table; the weekly records are consistent |
| Combined.EconomistFiltered | covid19_datasets/combined.py:58 | the Economist rows left are exactly those whose ISO is not in the Economist exclusion list |
| Combined.EuroStatsFiltered | covid19_datasets/combined.py:62-63 | the EuroStats rows left are exactly the SEX = Total, AGE = Total rows whose ISO is not in the EuroStats exclusion list |
| Combined.OverlapWitness | covid19_datasets/combined.py:71-72 | the ISO sets intersect iff some country has rows in both filtered sources |
| Combined.ExcessMortalityData | covid19_datasets/combined.py:55-79 | the build fails iff the filtered sources share a country, and the error names exactly the shared ISOs; otherwise the table is all Economist rows, then all EuroStats rows, in order and projected with EuroStats' columns renamed, and its length is the sum |
| Combined.ExcessMortalityDataAsWritten | covid19_datasets/combined.py:71-78 | the code as written fails in exactly the same cases, and otherwise yields the same table |
| Combined.ExcessOverlapReportsTypeError | covid19_datasets/combined.py:73 | with a country in both sources, the code as written fails with the message error, not the intended error naming the country |
| Combined.ExcessSourcesDisjoint | covid19_datasets/combined.py:58-78 | no ISO appears in both parts of the concatenation, and neither part has an ISO its source excludes |
| Combined.ExcessUnique | covid19_datasets/combined.py:71-78 | when each source has one row per key, the reconciled table has one row per (ISO, DATE) |
| Combined.ProjectEconomistUnique | covid19_datasets/combined.py:69-76 | Economist rows unique on (ISO, DATE) stay unique after the projection to the shared schema |
| Combined.ProjectEuroStatsUnique | covid19_datasets/combined.py:62-69 | all-sexes, all-ages EuroStats rows unique on their key are unique on (ISO, DATE) after the renaming projection |
| Combined.MergeMasks | covid19_datasets/combined.py:83-84 | every merged row has the indicator columns plus Masks |
| Combined.MergeMasksOneForOne | covid19_datasets/combined.py:83-84 | with one mask row per key, the merge keeps the policy rows one for one, in order, with their indicators |
| Combined.MergeMasksCell | covid19_datasets/combined.py:84 | the Masks cell is the matching mask row's value, or missing when no mask row has the key |
| Combined.LastSeen | covid19_datasets/combined.py:86 | a value found is the latest present earlier value of the same group; none is found iff every earlier row of the group is missing |
| Combined.GroupFFill | covid19_datasets/combined.py:86 | the filled column has the column's length; its cells are stated by GroupFFillAt |
| Combined.GroupFFillAt | covid19_datasets/combined.py:86 | a present cell is kept; a missing cell takes the latest earlier present value of its own group, and stays missing if there is none |
| Combined.FFillColumn | covid19_datasets/combined.py:86 | the one-pass fill that remembers the last value per country equals the grouped forward fill |
| Combined.InterventionsData | covid19_datasets/combined.py:82-87 | one row per merged row, in order, with the same ISO, DATE and CountryName, and every indicator filled |
| Combined.InterventionsFill | covid19_datasets/combined.py:86 | a cell keeps a present value; otherwise it takes the latest earlier value of the same country, never another country's; otherwise it is 0 |
| Combined.CasesMerge | covid19_datasets/combined.py:92 | after fillna(0) every row has all the case columns |
| Combined.CasesMergeOneForOne | covid19_datasets/combined.py:92 | with one cases row per key, the interventions rows are kept one for one, in order |
| Combined.CasesMergeValues | covid19_datasets/combined.py:92 | a case column holds the matching row's value, or 0 when it is missing or there is no match |
| Combined.CasesMergeRow | covid19_datasets/combined.py:92 | with one cases row per key, row i holds the zero-filled columns of the cases row with its (ISO, DATE), or zeros |
| Combined.CreateData | covid19_datasets/combined.py:90-101 | the build fails exactly when, and with the error with which, the corrected excess reconciliation fails (see Findings and Left out) |
| Combined.CasesMergeAnchors | covid19_datasets/combined.py:92 | the cases merge keeps exactly the interventions rows |
| Combined.JoinChain | covid19_datasets/combined.py:94-99 | the merges after the cases merge drop no row; the rows are stated by JoinChainFromAnchors, JoinChainCoversAnchors and JoinChainOneForOne |
| Combined.JoinChainFromAnchors | covid19_datasets/combined.py:94-99 | every row after the later merges extends one of their input rows |
| Combined.JoinChainSource | covid19_datasets/combined.py:94-99 | row i after the later merges extends a returned row of their input |
| Combined.JoinChainCoversAnchors | covid19_datasets/combined.py:94-99 | the later merges keep every input row |
| Combined.CreateDataKeepsAnchors | covid19_datasets/combined.py:90-101 | the combined table keeps every interventions row and has no row that does not extend one |
| Combined.MergesKeepAnchors | covid19_datasets/combined.py:92-99 | the cases merge and the later merges keep every interventions row and add no row that does not extend one |
| Combined.JoinChainOneForOne | covid19_datasets/combined.py:94-99 | with one row per key in each right table, row i of the chain is interventions row i with its unique partners |
| Combined.JoinChainUnique | covid19_datasets/combined.py:94-99 | with unique right tables, the later merges keep their rows one for one; the excess columns come from the matching excess row, or are missing |
| Combined.CreateDataOneRowPerPolicy | covid19_datasets/combined.py:90-101 | with one row per key in every source, the combined table has one row per policy row, in order, with its ISO, DATE and CountryName; a unique (ISO, DATE) in the policies makes the (ISO, DATE) index unique |
| Combined.CreateDataExcessColumns | covid19_datasets/combined.py:98 | the excess columns of each combined row come from the excess row with the same (ISO, DATE), or are missing |
| Combined.MergedExcessColumns | covid19_datasets/combined.py:92-99 | with unique right tables the excess columns of every merged row come from the excess row with its (ISO, DATE), or are missing |
| Combined.Combined.constructor | covid19_datasets/combined.py:109 | the class slot starts empty |
| Combined.Combined.Init | covid19_datasets/combined.py:111-119 | the table is rebuilt iff none is stored or a rebuild is forced; a failed build or unavailable sources leave the slot unchanged |
| Combined.Combined.GetData | covid19_datasets/combined.py:121-125 | returns the stored table and changes nothing, so repeated calls agree |

## Left out

- Loading: `_load_dataset` (covid19_datasets/hmd.py:24-39) reads a CSV from the network, drops the ratio
  columns, the `Split` and `SplitSex` columns and the `Forecast` column, and renames `CountryCode` to ISO. `HMDExcessMortality.Init` takes its result as a parameter. None stands for a read that raises.
- The source adapters (Oxford policies, mask policies, OWID cases and ages, World Bank, mobility, Economist,
  EuroStats): `_policies_data` … `_mobility_data` (covid19_datasets/combined.py:25-52) become the fields of
  `Sources`. Those are each adapter's tables after its housekeeping. The fixed drop lists
  (covid19_datasets/combined.py:16-20) have no behaviour and are reflected only by the fields the row types
  carry. `Combined.Init` gets None when any adapter fails.
- `last_day_of_calenderweek` (from `utils`) is not part of this model: it is the parameter `lastDay`.
- Logging: no behaviour.
- Float semantics and dtypes: values are exact `real` numbers.
- pandas index mechanics are replaced by explicit record fields: `set_index`, `reset_index`, the `level_2`
  rename, and the final (ISO, DATE) index.
- Column-name collisions in a merge (pandas' `_x`/`_y` suffixes): every right table's columns are kept
  apart in their own field.
- Thread safety of the class-level caches: the code has no concurrency.
- Hmd.Excess: records follow the raw table's row order. pandas' `current - baseline` sorts the aligned
  (ISO, Sex, Week) index, and that order is not modelled.
- Hmd.DailyTable: (ISO, Sex) groups appear in order of first appearance. pandas' `groupby` sorts them, and
  that order is not modelled.
- Hmd.DailyTable: when one group's reindex raises, the whole daily table fails with that group's error.
  pandas might raise for another failing group first; only the first failing group in the model's group
  order is reported.
- Combined.CreateData: the chain uses the corrected reconciliation `ExcessMortalityData`. So when the two
  excess sources share a country it fails with `DuplicatedIsos` naming the shared ISOs, where the code as
  written raises the TypeError of covid19_datasets/combined.py:73 (see Findings).
  `ExcessMortalityDataAsWritten` fails in the same cases, with `MessageTypeError`.
- Hmd.HMDExcessMortality.GetRawData / Combined.Combined.GetData: the source returns the cached DataFrame
  itself, by reference, so a caller that changes the result in place also changes the class-level cache and
  every later caller sees that change. The model's tables are immutable values, so "returns the stored table
  and changes nothing" holds only for callers that do not mutate what they receive.
- Combined.ExcessMortalityDataAsWritten: the TypeError the message raises is a `MessageTypeError` result
  instead of an exception.

## Findings

| source | as written | input that shows it | evidently intended | confidence | as-written member | corrected member |
|---|---|---|---|---|---|---|
| covid19_datasets/combined.py:73 | the error message adds a set to a string, which raises TypeError before the ValueError | one Economist row and one EuroStats (Total, Total) row, both for ISO "XYZ" | raise ValueError naming the duplicated ISOs | not executed | Combined.ExcessOverlapReportsTypeError | Combined.ExcessMortalityData |

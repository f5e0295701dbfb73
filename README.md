# Baby-name aggregation scans, modelled in Dafny

`BabyNames.py` reads the US baby-name statistics: one record `(state, sex, year, name, count)` per line of
the per-state files. It sorts the records by name, and two left-to-right scans then merge each run of
neighbouring records with the same name into one row:

- `merging_by_name(data, years)` keeps the records whose year is in `years`. For each run it emits a row
  `[name, F count, M count, entropy]`. The entropy is the gender-ambiguity score `-pF ln pF - pM ln pM`.
- `build_name_counts_year_matrix(data)` ignores sex. For each run it emits a row
  `[name, total count, count in 1910, ..., count in 2014]`. The per-year counts live in a 105-slot array
  indexed by `year - 1910`.

The report then compares each name's 1980 and 2014 columns. It computes percentage changes twice: by a
strict rule that gives 0 to a name absent in the base year, and by an inclusive rule that divides by
1 in that case.

The model has five modules:

- `Records`: the record type, the sums and filters over record sequences, and the name order.
- `Grouping`: the pure specification of a run scan. `Grow` is one step; `Runs` is the whole scan.
  The module proves that `Runs` is the unique decomposition into maximal runs, and what `Runs` gives on
  data sorted by name.
- `MergeByName` and `YearMatrix`: the two scans. Each is an imperative method with the Python loop's
  variables. Each is proved equal to a specification function built on `Runs`, and the properties are
  lemmas about that function. In `YearMatrix` the year vector is an `array` that the loop updates in
  place and replaces by a fresh zero array at each new name, as `np.zeros` does.
- `PercentChange`: the two percentage rules as exact fractions, the loops that fill the change arrays,
  and lemmas that relate the two rules.

Points where the code's behaviour is easy to misread, and what the model does:

- **The last run is always emitted.** The post-loop test `if current_name == name` always passes once a
  record has been merged: in `merging_by_name`, once a record has passed the year filter; in
  `build_name_counts_year_matrix`, once the loop has run. Both scans keep `current_name == name` from
  that point on (the loop invariant `name == currentName`), so the post-loop flush always fires and
  the last run is always emitted (`FinalGroupEmitted`, `ScanFlushes`, `BuildFlushes`).
- **No merged record raises NameError.** In `merging_by_name`, `name` is bound only inside the year
  filter (BabyNames.py:63). When no record passes the filter, or `data` is empty, the post-loop test reads
  an unbound `name` and raises `NameError`. The same happens in `build_name_counts_year_matrix` on empty
  `data`. The model returns `Err(NameUnbound)` (`MergeFailsOnlyWithoutRecords`, `MatrixFailures`).
- **Empty names are dropped.** The flush test `if current_name:` is a truthiness test. A run whose
  name is the empty string is therefore dropped, unless it is the last run, which the post-loop flush
  emits unconditionally (`Named`, `Emitted`). The lemmas about counts assume non-empty names.
- **Sex other than F or M is not modelled.** In `merging_by_name`, a record of another sex adds to
  neither counter, and when it opens a run the counters keep the previous run's values
  (BabyNames.py:79-84). The model's `Sex` has only `F` and `M`, so this case does not arise.
- **Years are not range-checked.** `year_count[year - 1910]` uses numpy indexing. Years 1805..1909
  silently land in the slot of the year 105 later. Years outside 1805..2014 raise `IndexError`, which
  the model returns as `Err(IndexOutOfRange)` (`YearSlot`, `MatrixFailures`).

## Model

| member | source | states |
|---|---|---|
| Records.InYearsSnoc | BabyNames.py:62 | a record enters the filtered sequence exactly when its year is in `years` |
| Records.InYearsAll | BabyNames.py:148-149 | when every year is wanted, the year filter keeps every record |
| Records.SortedIsGrouped | BabyNames.py:143 | data sorted by name has all records of each name next to each other |
| Records.InYearsKeepsSorted | BabyNames.py:62-63 | filtering by year keeps the data sorted by name |
| Records.SexCountsSplitTotal | BabyNames.py:65-68 | with sex F or M, the female and male counts add up to the total count |
| Grouping.Grow | BabyNames.py:64-84 | one scan step: the record joins the open run when it has the run's name and opens a run otherwise; the last run then carries the record's name |
| Grouping.Runs | BabyNames.py:61-84 | the runs of a sequence: none for no records, never more runs than records, the last run named after the last record |
| Grouping.RunsDecompose | BabyNames.py:64-84 | the runs are non-empty, consist of one name each, flatten back to the input in order, and neighbouring runs have different names |
| Grouping.RunDecompositionUnique | BabyNames.py:64-84 | any decomposition into maximal runs of one name is the one the scan builds |
| Grouping.RunsCharacterized | BabyNames.py:64-84 | a sequence of runs is a maximal-run decomposition of the input if and only if it is the scan's |
| Grouping.RunCount | BabyNames.py:64-78 | there is one run per name change, plus one |
| Grouping.RunNamesAreNames | BabyNames.py:78 | the runs are named by exactly the names of the records |
| Grouping.GroupedRunsHaveDistinctNames | BabyNames.py:64-78 | on grouped data no two runs share a name |
| Grouping.GroupedRunsCollectTheirName | BabyNames.py:64-84 | on grouped data each run holds all the records of its name, in order |
| Grouping.Emitted | BabyNames.py:69-92 | the emitted runs are non-empty and end with the last run |
| Grouping.EmittedAllWhenNamed | BabyNames.py:70 | without empty names, every run passes the `if current_name:` test and is emitted |
| Grouping.EmittedRunsAreRuns | BabyNames.py:69-92 | only runs of the scan are emitted |
| MergeByName.GenderEntropy | BabyNames.py:71-76 | the entropy is zero exactly when one of the counts is zero; otherwise both ratios lie strictly between 0 and 1 |
| MergeByName.Summaries | BabyNames.py:77 | one row per run, in order, holding the run's name, its female and male counts and their entropy |
| MergeByName.JoinRun | BabyNames.py:64-68 | a record with the open name adds its count to the counter of its sex, and the scan state then describes the grown runs |
| MergeByName.OpenRun | BabyNames.py:69-84 | a record with a new name flushes the open run if its name is truthy, then opens a run with its own count |
| MergeByName.ScanFlushes | BabyNames.py:85-92 | the post-loop flush completes the table with the last run |
| MergeByName.MergedByName | BabyNames.py:48-94 | what `merging_by_name` returns: only NameError as failure; otherwise a non-empty table with at most one row per filtered record. `MergeFailsOnlyWithoutRecords`, `MergeConservesCounts`, `OneRowPerMaximalRun` and `SortedMergeGroupsByName` give its meaning |
| MergeByName.MergingByName | BabyNames.py:48-94 | the loop returns exactly `MergedByName`: the table, or NameError when no record is in the wanted years |
| MergeByName.MergeFailsOnlyWithoutRecords | BabyNames.py:61-85 | the scan fails if and only if no record has a wanted year, and the failure is NameError |
| MergeByName.FinalGroupEmitted | BabyNames.py:85-92 | with at least one filtered record, the last row is the last run and carries the last record's name |
| MergeByName.OutOfRangeRecordIgnored | BabyNames.py:62-63 | removing a record outside the wanted years does not change the result |
| MergeByName.SummariesConserveCounts | BabyNames.py:64-84 | the female and male columns of the rows of some runs sum to the female and male counts of their records |
| MergeByName.MergeConservesCounts | BabyNames.py:64-92 | without empty names, the female and male columns sum to the filtered records' counts of each sex, and together to all their counts |
| MergeByName.OneRowPerMaximalRun | BabyNames.py:64-92 | without empty names, there is one row per maximal run of equal names, in order; rows number name changes plus one, and neighbouring rows differ in name |
| MergeByName.SortedMergeGroupsByName | BabyNames.py:64-92 | on sorted data, each name of a filtered record has exactly one row, with the female and male counts of all its filtered records; the entropy is zero exactly for a single-gender name |
| YearMatrix.YearSlot | BabyNames.py:113 | numpy indexing of `year - 1910`: defined exactly for 1805..2014; a record lands in its own year's slot exactly for 1910..2014; earlier years wrap 105 slots on |
| YearMatrix.NoCounts | BabyNames.py:108 | a year vector of 105 zero slots |
| YearMatrix.Zeros | BabyNames.py:108 | `np.zeros` gives a fresh array of 105 zeros |
| YearMatrix.SeriesOf | BabyNames.py:116-128 | one row per run, in order, holding the run's name, total count and year vector |
| YearMatrix.BuildJoins | BabyNames.py:111-113 | adding a record to the open run's total and year slot describes the grown runs |
| YearMatrix.BuildOpens | BabyNames.py:114-123 | flushing a truthy open run and restarting from a zero vector with the record's count describes the grown runs |
| YearMatrix.JoinRun | BabyNames.py:111-113 | the in-place update `year_count[year - 1910] += count` together with the running total |
| YearMatrix.OpenRun | BabyNames.py:114-123 | the flush, the fresh zero array and the record's count in its slot |
| YearMatrix.BuildFlushes | BabyNames.py:124-128 | the post-loop flush completes the matrix with the last run |
| YearMatrix.NameCountsYearMatrix | BabyNames.py:97-130 | what `build_name_counts_year_matrix` returns: on success a non-empty matrix with at most one row per record, each row with 105 year slots. `MatrixFailures`, `RowTotalsAreYearSums`, `MatrixConservesCounts` and `SortedMatrixCounts` give its meaning |
| YearMatrix.BuildNameCountsYearMatrix | BabyNames.py:97-130 | the loop returns exactly `NameCountsYearMatrix`: the matrix, IndexError at the first record whose year cannot be indexed, or NameError on no data |
| YearMatrix.MatrixFailures | BabyNames.py:113-124 | NameError exactly for no data; IndexError exactly when some year is outside 1805..2014 |
| YearMatrix.VectorSumIsTotal | BabyNames.py:112-123 | the year vector of indexable records sums to their total count |
| YearMatrix.RowTotalsAreYearSums | BabyNames.py:112-128 | every row has 105 year slots, and its total is the sum of them |
| YearMatrix.SeriesConserveCounts | BabyNames.py:112-123 | the totals of the rows of some runs sum to the counts of their records |
| YearMatrix.MatrixConservesCounts | BabyNames.py:109-128 | without empty names, the row totals sum to the counts of all records |
| YearMatrix.SlotCountsItsYear | BabyNames.py:113 | within 1910..2014, slot `s` holds the count of the records of year 1910 + s |
| YearMatrix.SortedMatrixNames | BabyNames.py:109-128 | on sorted data with non-empty names and years in 1910..2014, the scan succeeds, row names are distinct, and they are exactly the records' names |
| YearMatrix.SortedMatrixCounts | BabyNames.py:109-128 | on such data, each row's total is the count of all records of its name, and each slot is the count of that name in that year |
| YearMatrix.EmittedRowsCountTheirYears | BabyNames.py:113 | the slots of each emitted row count the run's records of each year |
| YearMatrix.MatrixAgreesWithMerge | BabyNames.py:48-130 | over all years, the matrix and the merged table have the same rows in the same order, and each row's total is its female plus male counts |
| YearMatrix.MatrixIgnoresSex | BabyNames.py:110-123 | records that differ only in sex give the same matrix |
| PercentChange.StrictChange | BabyNames.py:192-195 | the strict rule always yields a positive denominator |
| PercentChange.InclusiveChange | BabyNames.py:218-233 | the inclusive rule always yields a positive denominator: the base, or 1 for an absent base. `InclusiveChangeMeaning` gives its value |
| PercentChange.StrictChangeMeaning | BabyNames.py:192-207 | for a present base, `base * (1 + change) == other`; for an absent base, the change is exactly 0 |
| PercentChange.InclusiveChangeMeaning | BabyNames.py:218-233 | `(base or 1) * change == other - base` |
| PercentChange.RulesAgreeOnPresentNames | BabyNames.py:192-221 | the two rules agree if and only if the base is present or the other count is 0 |
| PercentChange.InclusiveAtLeastStrict | BabyNames.py:192-221 | the inclusive change is never below the strict one, and is above it exactly for a name absent in the base year and present in the other |
| PercentChange.ChangeAtLeastMinusOne | BabyNames.py:193-221 | no change is below -100% |
| PercentChange.ChangeSign | BabyNames.py:193-221 | the inclusive change is positive exactly when the count grew and zero exactly when it stayed; the strict change is positive exactly when it grew from a present base |
| PercentChange.Column | BabyNames.py:186-187 | `count_by_year[:, year - 1910]`: one entry per row, each that row's slot of the year |
| PercentChange.ColumnCountsItsYear | BabyNames.py:182-187 | on sorted data, the column of a year holds each row name's count in that year |
| PercentChange.StrictChanges | BabyNames.py:190-195 | each entry of the filled array is the strict change of its row |
| PercentChange.InclusiveChanges | BabyNames.py:216-221 | each entry of the filled array is the inclusive change of its row |
| PercentChange.PopularityChanges | BabyNames.py:186-233 | the four arrays hold each row's increase and decrease by both rules; a decrease takes 2014 as the base |

## Left out

- `load_data` (BabyNames.py:24-45) reads the directory listing and the files, and coerces fields with
  `int()`. I/O and Python's integer parser are not part of this model; the scans take the records as a
  sequence.
- The sort by name (BabyNames.py:143) is numpy's `argsort`. It is not modelled; the lemmas that need
  sorted data take `SortedByName` as a precondition.
- `MergeByName.GenderEntropy`: the logarithms are not evaluated. `Entropy` is `Zero` or
  `Binary(female, male)`, the counts the logarithms would be taken of.
- The year vector is a numpy float array. It is modelled as an `array<nat>`, because the counts are
  whole numbers.
- `PercentChange.StrictChange` and `PercentChange.InclusiveChange` are exact fractions. The report prints
  100 times the float quotient, so its rounding and the `%d` truncation are not modelled.
- The ranking and reporting in `__main__` (BabyNames.py:152-178, 196-199, 208-211, 222-225, 234-237)
  are not modelled: `argsort` by count, by entropy and by change, the `> 1000` filter and the top-5
  prints. This is library code and output.
- A sex value other than F or M cannot be expressed, because `Sex` has only those two. In the source,
  such a record carries over the previous run's counts when it opens a run (BabyNames.py:79-84).
- Counts are unbounded naturals. Python integers do not overflow, and the float vector's precision
  limit is far above the data's counts.

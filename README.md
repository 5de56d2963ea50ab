# Chain-ladder engine of the delinquency-vintage dashboard

This project models the actuarial core of `app.py` and proves properties of that model. The core has these steps:

1. `create_mob_dataframe` turns a vintage matrix (cohort × calendar period) into observations. Each observation is a cohort, a period, a months-on-book (MOB) age and a value.
2. The pivot turns those observations into a cohort × MOB table.
3. `calculate_development_factors` averages, for each age transition 1..24, the ratios value(t) / value(t-1) of the cohorts that can take part.
4. `mob_to_date` maps a cohort and a MOB to a `YYYY-MM` calendar label.
5. `project_cohort` lists the observed values of one cohort. It then carries the last value forward by the factors up to a target MOB.

Modules:
- `Common` holds `Option`, `Result` and the error kinds. A Python exception, or the source's error message, becomes an `Err`.
- `Labels` covers label parsing, the month arithmetic and `mob_to_date`.
- `Reshape` covers `create_mob_dataframe`.
- `Pivoting` covers the pivot.
- `Factors` covers `calculate_development_factors`.
- `Projection` covers `project_cohort`.

Modelling choices:
- Values are exact `real`s.
- A cell or pivot entry that is NaN is a key missing from a map.
- The loops of the source are methods, each proved equal to a specification function. The properties are proved about those functions.

Two policies of the code differ from what a reader of the method might expect, and the model follows the code:
- **A missing factor.** A chain-ladder design could stop the projection at the first MOB without a factor. The code instead skips that MOB, keeps the running value and goes on (app.py:132). `Projection.MissingFactorSkipped` exhibits this, and `Projection.ProjectFromComplete` proves it in general.
- **Negative MOBs.** A period before its cohort's origin could be dropped as meaningless. The code keeps it, with a negative MOB (app.py:58-66). `Reshape.NegativeMobKept` exhibits this.

## Model

| member | source | states |
|---|---|---|
| Labels.ParseLabel | app.py:55-57 | A label is read iff chars 0-3 and chars 5-6 are both non-empty digit strings; otherwise `int()` fails. The year read is at most 9999 and the month at most 99. |
| Labels.MonthsOnBook | app.py:58 | For calendar months, the MOB is 0 exactly at the cohort's own month and positive exactly for later months. |
| Labels.TargetMonth | app.py:97-100 | The calendar month is always 1..12. It lies exactly `mob` months after the cohort, for any integer `mob`. MOB 0 gives the cohort's own month. |
| Labels.TargetMonthOfMonthsOnBook | app.py:58 | The calendar mapping inverts the MOB computation of `create_mob_dataframe`: the month `MonthsOnBook(c, p)` after cohort `c` is `p` again. |
| Labels.MobToDate | app.py:95-101 | `mob_to_date` yields a label iff the cohort label can be read. |
| Labels.Pad2Digits | app.py:101 | `:02d` of a number below 100 is two digits that read back as the number. |
| Labels.FormatYearMonthLayout | app.py:101 | The label is the year's digits, a dash, and the month as exactly two digits that read back as the month. A minus sign leads exactly for a negative year. |
| Labels.ParseFormatYearMonth | app.py:101 | A formatted `YYYY-MM` label of a four-digit year parses back to the same year and month. |
| Labels.MobToDateRoundTrip | app.py:95-101 | For a readable cohort and a four-digit target year, the label produced reads back as the month `mob` months after the cohort. |
| Labels.SevenDigitYearMisread | app.py:97-101 | Worked example: the label written for May of year 1000000 is `1000000-05`, and it reads back as year 1000, month 0, not as the month written. |
| Reshape.CreateMobDataframe | app.py:48-68 | The nested loops return exactly `MobData(m)`: the observations cohort by cohort, or the first error met. An error is an unreadable label, or a cell lookup on a repeated cohort. |
| Reshape.CohortObservations | app.py:56-66 | The inner loop over periods returns exactly the observations of one cohort's row. It fails on the first unreadable period label, or at the first cell lookup when the cohort is repeated. |
| Reshape.MobDataFails | app.py:55-60 | The conversion succeeds iff every cohort label is readable, every period label is readable when there is a cohort, and no cohort is repeated when there is a period. A failure names a malformed label or a repeated cohort of the matrix. |
| Reshape.MobDataCells | app.py:54-66 | On success the observations are exactly the present cells. There is one per cell, in row-major order. Each carries its cohort, period and value, and MOB `(py-cy)*12 + (pm-cm)`. Absent cells emit nothing. |
| Reshape.RepeatedCohortFails | app.py:59-60 | Worked example: a cohort listed twice fails with an ambiguous cell lookup, although every label and cell is well formed. |
| Reshape.NegativeMobKept | app.py:58-66 | A period two months before its cohort gives an observation with MOB -2; it is not dropped. |
| Reshape.ParseMarch2023 | app.py:55-57 | Worked example: `2023-03` and `2023-01` read as those year-months. |
| Pivoting.InsertColumn | app.py:461-463 | Adding a MOB to the sorted column list keeps it strictly increasing, and the result holds exactly the old columns plus that MOB. |
| Pivoting.Pivot | app.py:461-463 | The pivot's MOB columns are strictly increasing. |
| Pivoting.PivotFrame | app.py:461-463 | With no observation the pivot fails (pandas finds no `cohorte` column). Otherwise it is the well-formed pivot of the observations, with at least one cohort and one column. |
| Pivoting.PivotContents | app.py:461-463 | The pivot holds exactly the observations. A cohort is a row iff it was observed. A (cohort, MOB) entry exists iff it was observed, and it holds the observed value. |
| Pivoting.PivotShape | app.py:461-463 | The index lists each row's cohort once. The columns are exactly the observed MOBs. |
| Pivoting.PivotValid | app.py:461-463 | The pivot of unique observations is a well-formed pivot. Every MOB a cohort holds is a column, every cohort holds some column, and every column is held by some cohort. |
| Factors.ContributorsAmong | app.py:80 | A cohort is selected iff it is listed, has a row, has value(t-1) > 0 and has a value at t. |
| Factors.Contributors | app.py:80 | `valid_mask` selects exactly the cohorts of the index with value(t-1) > 0 and a value at t. |
| Factors.Ratios | app.py:82 | There is one ratio per contributing cohort, in order. Each is that cohort's value at t divided by its positive value at t-1. |
| Factors.MinOf | app.py:87 | The minimum is an element and is at most every element. |
| Factors.MaxOf | app.py:88 | The maximum is an element and is at least every element. |
| Factors.Mean | app.py:83 | The mean lies between the minimum and the maximum of the ratios. |
| Factors.CalculateDevelopmentFactors | app.py:71-92 | `factors_detail` has key `t` iff `t` is in 1..24 and transition `t` has an entry, and that entry is `EntryAt(p, t)`. `factors` has the same keys and holds each entry's mean. |
| Factors.EntryCount | app.py:79-89 | On a pivot, transition `t` has an entry iff some cohort takes part. Then `n` is exactly the number of such cohorts, so `n >= 1`. Each of them is listed once. |
| Factors.FactorSummary | app.py:80-89 | An entry summarises exactly the ratios value(t)/value(t-1) of the contributing cohorts. `n` counts them and `mean` is their sum over `n`. `min` and `max` are ratios bounding all the others, and `min <= mean <= max`. |
| Factors.ZeroDenominatorExcluded | app.py:80-82 | Worked example: a cohort whose value at t-1 is 0 does not take part; the entry comes from the other cohort alone. |
| Projection.Dropna | app.py:111 | `dropna()` keeps exactly the columns at which the cohort holds a value, in increasing order. |
| Projection.ObservedMobs | app.py:111 | The cohort's observed MOBs are increasing, and are exactly the columns it holds a value at. |
| Projection.ProjectCohort | app.py:104-144 | `project_cohort` returns exactly `ProjectionOf`: the error cases, or the observed rows followed by the forward loop. |
| Projection.AppendObserved | app.py:118-127 | The loop over observed MOBs returns one Observado row per MOB, in order. |
| Projection.ProjectForward | app.py:129-142 | The forward loop returns exactly `ProjectFrom` from `last_mob + 1`, starting from `last_value`. |
| Projection.ProjectFromShape | app.py:131-142 | Every projected row is a Proyectado row of the cohort for a MOB in range that has a factor. It carries that factor and its calendar label. The MOBs strictly increase. |
| Projection.ProjectFromComplete | app.py:131-142 | Every MOB in range that has a factor gets a projected row: a missing factor is skipped, not a stop. |
| Projection.ProjectFromValues | app.py:130-139 | Each projected value is the start value carried forward through the MOBs up to and including its own. |
| Projection.CompoundIsProduct | app.py:130-139 | Carrying a value forward equals multiplying it by the product of the factors met; a MOB without a factor counts as 1. |
| Projection.LastMobIsMax | app.py:111-113 | On a pivot a cohort always has an observed MOB. The last of them (`iloc[-1]`) is the largest (`index.max()`), so the two reads agree. |
| Projection.ProjectionErrors | app.py:107-108 | An unknown cohort gets the "Cohorte … no encontrada" error. On a pivot, a known cohort fails iff its label cannot be read. |
| Projection.ProjectionObserved | app.py:118-127 | The first rows are exactly the observed values: one Observado row per MOB holding a value. Each copies the value, has no factor and has the label of `mob_to_date`. |
| Projection.ProjectFromPart | app.py:130-142 | The forward loop yields exactly the Proyectado rows for MOBs past the last observed one that have a factor. Each has its factor, its `mob_to_date` label and value last × product of factors. |
| Projection.ProjectionProjected | app.py:129-142 | After the observed rows come exactly the projected rows past the last observed MOB, valued from the last observed value. |
| Projection.ProjectionIncreasing | app.py:119-142 | The MOBs of the whole projection strictly increase. |
| Projection.ProjectionNothingAhead | app.py:130-131 | A target at or before the last observed MOB adds no projected row: the projection is exactly the observed rows. |
| Projection.MissingFactorSkipped | app.py:131-133 | Worked example: with factors at MOBs 1 and 3 only, rows come out at MOBs 1 and 3, and the value passes through MOB 2 unchanged. |

## Left out

- The standard deviation in `factors_detail` (app.py:86) is not modelled. It needs a square root, and pandas gives NaN for a single ratio.
- Floating-point rounding is not modelled. Values are exact reals, so sums, ratios and products are exact.
- Labels.ParseLabel accepts only non-empty ASCII digit strings. Python's `int()` also takes a sign, surrounding whitespace, underscores and non-ASCII digits, and those forms are not modelled.
- Month numbers are not range-checked, as in the source. Months 0 or 13 are read as they are.
- Labels.MobToDateRoundTrip is stated only for four-digit target years. The f-string writes other years without padding, and those do not read back as the same month. Most fail to parse, and some parse as a different month. A seven-digit year is read as its first four digits with month 0 (`Labels.SevenDigitYearMisread`). In Python a five-digit year gives the month slice `-0`, which `int()` reads as 0; the model rejects that slice because it does not read signs.
- Pivoting.Pivot lists cohorts in first-appearance order, while pandas sorts the index. Only the order of `Contributors` depends on this. The count, mean, minimum and maximum do not depend on it for exact reals.
- Pivoting.Pivot takes unique (cohort, MOB) pairs as a precondition. The model does not reproduce pandas' duplicate-entry exception. Such pairs arise from two period labels of the same month, which pandas keeps apart by renaming a repeated column header.
- Projection.ProjectionOf tests `cohorte in df_pivot.index` through the rows of the pivot. On a well-formed pivot the two hold the same cohorts.
- The DataFrame wrappers are left out. A result is a sequence of rows, and `(None, message)` is an `Err`.
- CSV ingestion and `parse_pct` are left out: they are I/O and float parsing.
- The Plotly charts, HTML tables, metrics panel, DOM event handlers and the global `data_store` are left out: they are presentation and browser I/O.

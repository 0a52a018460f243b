# Retail KPI pipeline — a Dafny model

This project models the batch chain of a retail KPI pipeline. The chain turns long-format manual
observations about retail companies into a wide retailer-year fact table. It then adds KPIs
(revenue per employee, year-over-year revenue growth), six data-quality flags, a 0–100 readiness
score, and a confidence-weighted revenue per employee. The model also covers the company
dimension builder and the two PASS/FAIL quality validators.

Each stage is a function from an in-memory input table to a `Result`:

- The input is `Tables.Table`, a list of column names plus rows of text cells. A cell is
  `Option<string>`, with `None` for NaN.
- A stage whose input file does not exist receives `None` and fails with `InputMissing`.
- A required-columns check fails with `ColumnsMissing(names)`.
- Reading an absent column fails with `ColumnMissing(name)` at the first absent column, in the
  order the source reads them.

Every stage except the confidence weighter also has a method that does the work step by step, the
way the source does. Each such method is proved equal to its stage function. The weighter is a
single row-wise expression and is modelled by functions only.

The modules follow the pipeline:

| file | module | stage |
|---|---|---|
| `static_table.dfy` | `StaticTable` | company dimension builder: whitespace normalisation, country aliases, defaults, issues |
| `facts.dfy` | `RetailerYearFacts` | observation normalisation, pivot with `max`, `last_updated` max, sort |
| `kpis.dfy` | `Kpis` | numeric coercion, sort, revenue per employee, grouped growth |
| `readiness.dfy` | `Readiness` | six flags, penalty score with clip, summary report |
| `weighting.dfy` | `Weighting` | `confidence_weighted_rpe` |
| `checks.dfy` | `Checks` | the check record and the completeness count both validators share |
| `validate_dimension.dfy` | `DimensionValidation` | company dimension validator |
| `validate_facts.dfy` | `FactValidation` | fact table validator |
| `text.dfy`, `numbers.dfy`, `seqs.dfy`, `tables.dfy`, `wrappers.dfy` | | strings, number parsing and printing, sequence utilities, tables, Option/Result |

## How the model represents the source

- **Whitespace and case.**
  - Whitespace is the ASCII set Python's `str.split()` uses: 9–13, 28–31 and 32.
  - `" ".join(s.strip().split())` is `Text.Normalize`.
  - Upper and lower case are the ASCII mappings.
- **Numbers.**
  - Numbers are exact `real`s.
  - `pd.to_numeric(errors="coerce")` is `Numbers.ParseNumber`: an optional sign, digits and an
    optional fraction. Any other text becomes `None`.
- **Missing cells and text.**
  - `astype(str)` turns a NaN cell into the text `"nan"`. `fillna("")` turns it into `""`.
  - Both are modelled exactly.
  - As a consequence, an absent `company_id` in the dimension builder becomes `"NAN"`. The empty-id
    issue does not report it (`StaticTable.AbsentIdBecomesNan`).
- **Duplicates and order.**
  - pandas `duplicated()` and `unique()` keep the first occurrence.
  - `sort_values` and the pivot's ordering are stable insertion sorts (`Seqs.SortBy`) over total
    preorders.
  - Text compares lexicographically by code point. Missing values sort last.
- **Dropped pivot keys.**
  - `pivot_table` drops keys and metric columns that have no present value (its default `dropna`).
  - The uniqueness and coverage lemmas of the fact table are stated over the observations that
    carry a value.
- **Stage behaviour worth stating.**
  - The KPI stage does not fail when `employees` is absent. It only leaves out
    `revenue_per_employee` (pipeline/model/01_compute_kpis.py:27).
  - The flagger does fail on that table, with a KeyError.
  - The fact table has one row per key with at least one parsed value, not one per distinct key.
  - No row can raise all six flags, because `missing_revenue` and `negative_revenue` exclude each
    other, and so do the two employee flags. `Readiness.ClipNeverBinds` proves that the raw penalty
    therefore never exceeds 100. `Readiness.ClipBindsWithoutExclusion` shows that the clip only
    matters for a flag record no row produces.

## Model

| member | source | states |
|---|---|---|
| Text.Words | pipeline/extract/01_build_static_table.py:26 | definition of `str.split()`: the maximal runs of non-whitespace characters, each a non-empty word |
| Text.Strip | pipeline/extract/01_build_static_table.py:26 | `str.strip()`: the result neither starts nor ends with whitespace |
| Text.Normalize | pipeline/extract/01_build_static_table.py:25-26 | definition of `_normalize_whitespace` and `_norm`: the words joined by single spaces |
| Text.NormalizeIsNormalized | pipeline/extract/01_build_static_table.py:25-26 | the normalised text has no leading or trailing whitespace, no whitespace other than single spaces, and no two spaces in a row |
| Text.NormalizeIdempotent | pipeline/extract/01_build_static_table.py:25-26 | normalising twice gives the same text as normalising once |
| Text.NormalizeKeepsWords | pipeline/extract/01_build_static_table.py:25-26 | normalising keeps the words of the text, in order; only the whitespace between them changes |
| Text.NormalizeEqualIff | pipeline/transform/01_build_retailer_year_facts.py:28-29 | two texts normalise to the same string exactly when they have the same words |
| Text.MapNormalizeWords | pipeline/extract/01_build_static_table.py:55-57 | upper- or lower-casing a normalised text gives the original words, each case-mapped |
| Text.StripEmptyIff | pipeline/quality_engine/02_validate_retailer_year_facts.py:28 | `strip()` gives "" exactly for whitespace-only text |
| Text.StripNormalized | pipeline/transform/01_build_retailer_year_facts.py:51 | the extra `strip()` after `_norm` changes nothing |
| Text.UpperKeepsNormalized | pipeline/extract/01_build_static_table.py:57 | upper-casing a normalised id keeps it normalised |
| Text.StrLtTransitive | pipeline/transform/01_build_retailer_year_facts.py:87 | the text order used by the sorts is transitive |
| Text.StrLtTotal | pipeline/transform/01_build_retailer_year_facts.py:87 | any two different texts are ordered one way or the other |
| Numbers.ParseNumber | pipeline/transform/01_build_retailer_year_facts.py:64 | definition of `pd.to_numeric(..., errors="coerce")` on text: an optional sign and a decimal, anything else absent |
| Numbers.ForeignCharNotANumber | pipeline/transform/01_build_retailer_year_facts.py:64 | text holding a character other than a digit, a sign or '.' coerces to absent |
| Numbers.NanIsAbsent | pipeline/transform/01_build_retailer_year_facts.py:60 | the text "nan" coerces to an absent number |
| Numbers.ParseNatToString | pipeline/quality_engine/02_validate_retailer_year_facts.py:23 | a count printed in decimal parses back to the same number |
| Tables.MissingColumns | pipeline/transform/01_build_retailer_year_facts.py:38 | the missing list holds exactly the required columns the table lacks, in required order |
| Tables.NoMissingColumns | pipeline/transform/01_build_retailer_year_facts.py:38-43 | the missing list is empty exactly when every required column is present |
| Tables.ReadColumns | pipeline/model/01_compute_kpis.py:22-24 | reading columns one after another fails exactly when one is absent, naming the first absent one |
| Tables.AddColumns | pipeline/quality_engine/03_flag_anomalies_and_readiness.py:28-52 | assigning new columns keeps the existing ones first, in order, and adds exactly the new names |
| Seqs.DuplicateCount | pipeline/quality_engine/01_validate_retailer_dimension.py:25 | the `duplicated()` count is the length minus the number of distinct values |
| Seqs.NoDuplicatedIffDistinct | pipeline/quality_engine/01_validate_retailer_dimension.py:25-26 | no entry is flagged as duplicated exactly when all entries differ |
| Seqs.RepeatsOrder | pipeline/extract/01_build_static_table.py:80 | the values at duplicated positions come in order of first repeat: an earlier one already repeats in some prefix where a later one does not |
| Seqs.CountTrueDisjoint | pipeline/quality_engine/02_validate_retailer_year_facts.py:28 | adding the sums of two masks that are never set together counts each position once |
| Seqs.SortBySorted | pipeline/model/01_compute_kpis.py:24 | the sort yields an ordered sequence under any total preorder |
| Seqs.SortBy | pipeline/model/01_compute_kpis.py:24 | the sort is a permutation of its input |
| StaticTable.CleanCountry | pipeline/extract/01_build_static_table.py:29-39 | definition of `_clean_country`: normalise, then look the text up among the five aliases |
| StaticTable.AliasTargetsNormalized | pipeline/extract/01_build_static_table.py:32-38 | every alias target is normalised and is not itself an alias key |
| StaticTable.CleanCountryKeepsNonAliases | pipeline/extract/01_build_static_table.py:29-39 | `_clean_country` returns the normalised input unless it is an alias key, the alias's country when it is; the result is always normalised |
| StaticTable.CleanCountryIdempotent | pipeline/extract/01_build_static_table.py:29-39 | cleaning a cleaned country changes nothing |
| StaticTable.CleanRow | pipeline/extract/01_build_static_table.py:54-68 | the id is normalised and upper-case and holds the input's words upper-cased; the name is normalised and keeps its words; the country is `_clean_country` of the input text (normalising it first changes nothing); notes are kept or default to ""; status is "active"; both stamps are the run date |
| StaticTable.AbsentIdBecomesNan | pipeline/extract/01_build_static_table.py:55-57 | an absent id comes out as "NAN", not as empty |
| StaticTable.DuplicateIds | pipeline/extract/01_build_static_table.py:80 | definition of `df["company_id"][duplicated()].unique()` |
| StaticTable.DuplicateIdsOrder | pipeline/extract/01_build_static_table.py:80 | of two listed duplicate ids, the earlier one already repeats among some first rows where the later one does not |
| StaticTable.DuplicateIdsSpec | pipeline/extract/01_build_static_table.py:80 | the duplicate list holds exactly the ids occurring twice, each once, and of any two the earlier one repeats first among the rows |
| StaticTable.DuplicateIdsNonEmpty | pipeline/extract/01_build_static_table.py:80-82 | the duplicate list is non-empty exactly when some id occurs twice |
| StaticTable.EmptyValueIssues | pipeline/extract/01_build_static_table.py:73-78 | an empty-values issue is raised for a column exactly when some cleaned row has that field empty |
| StaticTable.Issues | pipeline/extract/01_build_static_table.py:71-82 | each issue is present exactly when its condition holds; the duplicate-id issue comes last and carries the duplicate list |
| StaticTable.StaticTableOf | pipeline/extract/01_build_static_table.py:42-96 | a missing file or missing required columns (named in order) fail; otherwise the seven output columns come in their fixed order, every row is cleaned, and the issues are returned beside the table |
| StaticTable.CleanAll | pipeline/extract/01_build_static_table.py:54-58 | the cleaning loop yields the cleaned rows, in order |
| StaticTable.CollectIssues | pipeline/extract/01_build_static_table.py:71-82 | the appended issue list equals the issues of the cleaned rows |
| StaticTable.BuildStaticTable | pipeline/extract/01_build_static_table.py:42-96 | the builder's result equals the stage function |
| RetailerYearFacts.MetricName | pipeline/transform/01_build_retailer_year_facts.py:48-51 | definition of the `metric_name` cleaning: `fillna("")`, normalise, strip, lower-case |
| RetailerYearFacts.MetricValue | pipeline/transform/01_build_retailer_year_facts.py:58-64 | definition of the `metric_value` cleaning: `astype(str)`, commas removed, stripped, coerced |
| RetailerYearFacts.CleanObservation | pipeline/transform/01_build_retailer_year_facts.py:47-64 | the id is normalised, upper-case and holds the input's words upper-cased; name and year are normalised and keep their words; the metric name holds its words lower-cased; the value is the cleaned `metric_value` parsed; the raw value and `last_updated` are kept |
| RetailerYearFacts.MetricNameCanonical | pipeline/transform/01_build_retailer_year_facts.py:48-51 | the metric name is the lower-cased, whitespace-normalised text |
| RetailerYearFacts.MetricNameWords | pipeline/transform/01_build_retailer_year_facts.py:48-51 | the metric name is normalised and holds the raw name's words, lower-cased |
| RetailerYearFacts.SameMetricColumnIff | pipeline/transform/01_build_retailer_year_facts.py:47-51 | two metric names land in the same column exactly when they agree after lower-casing and whitespace normalisation |
| RetailerYearFacts.ThousandsSeparatorRemoved | pipeline/transform/01_build_retailer_year_facts.py:58-64 | "1,250" parses to 1250 |
| RetailerYearFacts.UnparseableValueAbsent | pipeline/transform/01_build_retailer_year_facts.py:58-64 | any `metric_value` whose comma-free, stripped text holds a character other than a digit, a sign or '.' becomes absent; every observation is kept, in place, with its raw text |
| RetailerYearFacts.NotANumberAbsent | pipeline/transform/01_build_retailer_year_facts.py:58-64 | example: the text "n/a" gives an absent value |
| RetailerYearFacts.PresentKeys | pipeline/transform/01_build_retailer_year_facts.py:67-72 | the keys listed are exactly those of observations that carry a value |
| RetailerYearFacts.MaxValue | pipeline/transform/01_build_retailer_year_facts.py:67-72 | the fact value is absent exactly when no matching observation has a value; otherwise it is one of their values and no smaller than any |
| RetailerYearFacts.MaxOfDuplicates | pipeline/transform/01_build_retailer_year_facts.py:71 | values 10 and 25 for the same key and metric give 25 |
| RetailerYearFacts.LatestUpdate | pipeline/transform/01_build_retailer_year_facts.py:75-77 | `last_updated` is absent exactly when none of the key's observations has one; otherwise it is one of theirs and lexicographically no smaller than any |
| RetailerYearFacts.Pivot | pipeline/transform/01_build_retailer_year_facts.py:67-84 | definition of the pivot with `max`, the merge with the `last_updated` maximum, and the run-date stamps |
| RetailerYearFacts.FactKeysUnique | pipeline/transform/01_build_retailer_year_facts.py:67-79 | no two output rows share a (company_id, company_name, year) key |
| RetailerYearFacts.FactKeysFromObservations | pipeline/transform/01_build_retailer_year_facts.py:67-79 | every output row's key is the key of some observation with a value |
| RetailerYearFacts.FactKeysCoverObservations | pipeline/transform/01_build_retailer_year_facts.py:67-72 | every observation with a value has its key among the output rows |
| RetailerYearFacts.FactRowsSorted | pipeline/transform/01_build_retailer_year_facts.py:87 | output rows are ordered by (company_id, year), both compared as text |
| RetailerYearFacts.FactRowContents | pipeline/transform/01_build_retailer_year_facts.py:67-84 | each row holds exactly the metric columns, each the max of its observations, the latest `last_updated`, and the run date twice |
| RetailerYearFacts.MetricColumnsSpec | pipeline/transform/01_build_retailer_year_facts.py:67-72 | the metric columns are distinct, sorted, and exactly the metric names with a present value |
| RetailerYearFacts.FactLeTotalPreorder | pipeline/transform/01_build_retailer_year_facts.py:87 | the (company_id, year) sort key is a total preorder |
| RetailerYearFacts.FactsOf | pipeline/transform/01_build_retailer_year_facts.py:32-87 | a missing file, or missing required columns named in required order, fail; otherwise the output is the pivot of the normalised observations |
| RetailerYearFacts.NormalizeRows | pipeline/transform/01_build_retailer_year_facts.py:45-64 | the normalisation loop yields the cleaned observations, in order |
| RetailerYearFacts.BuildFacts | pipeline/transform/01_build_retailer_year_facts.py:32-87 | the builder's result equals the stage function |
| Kpis.Rpe | pipeline/model/01_compute_kpis.py:27-28 | the ratio is present exactly when both operands are and the head count is not 0; it times employees gives revenue |
| Kpis.PctChange | pipeline/model/01_compute_kpis.py:32 | growth is present exactly when both revenues are and the previous one is not 0; previous × (1 + growth) = current |
| Kpis.LastOfCompany | pipeline/model/01_compute_kpis.py:32 | finds the closest earlier row of the same company, or reports that there is none |
| Kpis.Growth | pipeline/model/01_compute_kpis.py:32 | growth needs a company id and an earlier row of that company; a company's first row has none; when a closest earlier row of the same company exists, growth is exactly the change against it |
| Kpis.GrowthFromPreviousRow | pipeline/model/01_compute_kpis.py:24-32 | on rows sorted by (company_id, year), growth compares with the immediately preceding row when it is the same company, and is absent otherwise; it never uses another company's row |
| Kpis.GrowthExample | pipeline/model/01_compute_kpis.py:32 | revenues 100, 150, 300 in 2020, 2021, 2023 give growth absent, 0.5, 1.0 |
| Kpis.KpiLe | pipeline/model/01_compute_kpis.py:24 | definition of the sort key: company id, then numeric year, missing values last |
| Kpis.KpiLeTotalPreorder | pipeline/model/01_compute_kpis.py:24 | the (company_id, numeric year) key with missing values last is a total preorder |
| Kpis.KpiColumns | pipeline/model/01_compute_kpis.py:27-32 | existing columns stay first; `revenue_per_employee` is added only with revenue and employees, growth only with revenue |
| Kpis.KpisOf | pipeline/model/01_compute_kpis.py:11-32 | a missing file, then an absent `year`, then an absent `company_id` fail; otherwise the row count is unchanged |
| Kpis.KpiRowsSorted | pipeline/model/01_compute_kpis.py:24 | output rows are sorted by (company_id, year) |
| Kpis.KpiRowsPermuted | pipeline/model/01_compute_kpis.py:17-24 | leaving out the two new fields, the output rows are a permutation of the parsed input rows, each carrying its own cells' parsed values |
| Kpis.KpiRatios | pipeline/model/01_compute_kpis.py:26-32 | each row's ratio is its own revenue over its own employees; its growth is against the preceding row of the same company |
| Kpis.ParseRows | pipeline/model/01_compute_kpis.py:17-22 | the coercion pass parses every row, in order |
| Kpis.WithRatios | pipeline/model/01_compute_kpis.py:26-32 | each row gets its own ratio columns, computed over the sorted rows |
| Kpis.AddRatioColumns | pipeline/model/01_compute_kpis.py:26-32 | the previous-row loop over sorted rows computes the same ratios as the grouped definition |
| Kpis.ComputeKpis | pipeline/model/01_compute_kpis.py:11-35 | the calculator's result equals the stage function |
| Readiness.FlagsOf | pipeline/quality_engine/03_flag_anomalies_and_readiness.py:28-40 | a negative flag holds exactly for a present negative value; missing and negative never hold together |
| Readiness.Extreme | pipeline/quality_engine/03_flag_anomalies_and_readiness.py:36-40 | definition of the plausibility test: present and outside the bounds |
| Readiness.RpeExtremeBounds | pipeline/quality_engine/03_flag_anomalies_and_readiness.py:35-36 | the ratio is flagged exactly when present and outside [0, 1000]; 0 and 1000 are not flagged |
| Readiness.YoyExtremeBounds | pipeline/quality_engine/03_flag_anomalies_and_readiness.py:39-40 | growth is flagged exactly when present and outside [-0.5, 2.0]; -0.5 and 2.0 are not flagged |
| Readiness.Penalty | pipeline/quality_engine/03_flag_anomalies_and_readiness.py:44-50 | definition of the summed deductions of the raised flags |
| Readiness.Clip | pipeline/quality_engine/03_flag_anomalies_and_readiness.py:52 | the clipped value lies in the bounds and equals the input when the input does |
| Readiness.Score | pipeline/quality_engine/03_flag_anomalies_and_readiness.py:44-52 | the score is in [0, 100] and a multiple of 10 |
| Readiness.ClipNeverBinds | pipeline/quality_engine/03_flag_anomalies_and_readiness.py:28-52 | with missing and negative exclusive, the penalty is at most 100 and the score is exactly 100 minus the penalty |
| Readiness.ClipBindsWithoutExclusion | pipeline/quality_engine/03_flag_anomalies_and_readiness.py:44-52 | all six flags would give a raw -60, clipped to 0 |
| Readiness.ScoreExamples | pipeline/quality_engine/03_flag_anomalies_and_readiness.py:44-50 | no flags scores 100; missing revenue and employees alone scores 40 |
| Readiness.ScoreMonotone | pipeline/quality_engine/03_flag_anomalies_and_readiness.py:45-52 | raising more flags never raises the score |
| Readiness.Deduct | pipeline/quality_engine/03_flag_anomalies_and_readiness.py:45-50 | one in-place `-=` subtracts the points at every flagged row and leaves the others |
| Readiness.ClipAll | pipeline/quality_engine/03_flag_anomalies_and_readiness.py:52 | the in-place clip bounds every entry |
| Readiness.ScoreRows | pipeline/quality_engine/03_flag_anomalies_and_readiness.py:44-52 | filling with 100, six deductions and the clip give each row's score |
| Readiness.Mean | pipeline/quality_engine/03_flag_anomalies_and_readiness.py:64 | the mean is absent exactly for no rows |
| Readiness.MeanBounds | pipeline/quality_engine/03_flag_anomalies_and_readiness.py:64 | a mean of scores in [0, 100] lies in [0, 100] |
| Readiness.MissingRevenueCount | pipeline/quality_engine/03_flag_anomalies_and_readiness.py:61 | `missing_revenue_rows` is at most the row count and 0 exactly when every revenue is present |
| Readiness.MissingEmployeesCount | pipeline/quality_engine/03_flag_anomalies_and_readiness.py:62 | `missing_employees_rows` is at most the row count and 0 exactly when every head count is present |
| Readiness.YoyAvailableCount | pipeline/quality_engine/03_flag_anomalies_and_readiness.py:63 | `yoy_available_rows` is at most the row count and equals it exactly when every growth is present |
| Readiness.AverageScoreBounds | pipeline/quality_engine/03_flag_anomalies_and_readiness.py:64 | the average score is absent for no rows and otherwise in [0, 100] |
| Readiness.ReportOf | pipeline/quality_engine/03_flag_anomalies_and_readiness.py:59-64 | definition of the five report metrics, in order |
| Readiness.BuildReport | pipeline/quality_engine/03_flag_anomalies_and_readiness.py:59-64 | the appended report equals the five metrics, in order |
| Readiness.ReadinessOf | pipeline/quality_engine/03_flag_anomalies_and_readiness.py:14-64 | fails exactly when a read column is absent, naming the first; keeps the columns first and adds the flag columns; one flagged row per input row |
| Readiness.FlaggedScores | pipeline/quality_engine/03_flag_anomalies_and_readiness.py:44-52 | every flagged row scores 100 minus its penalty, within [0, 100] |
| Readiness.ParseRows | pipeline/quality_engine/03_flag_anomalies_and_readiness.py:20-25 | the coercion pass parses every row, in order |
| Readiness.FlagAndScore | pipeline/quality_engine/03_flag_anomalies_and_readiness.py:14-64 | the flagger's result equals the stage function |
| Weighting.Weighted | pipeline/model/02_apply_confidence_weighting.py:18-20 | the weighted ratio is absent exactly when the ratio or the score is; 100 × weighted = rpe × score |
| Weighting.WeightedBounded | pipeline/model/02_apply_confidence_weighting.py:19 | for a score in [0, 100], the weighted ratio is no larger in magnitude than the ratio and keeps a non-negative ratio non-negative |
| Weighting.WeightedExamples | pipeline/model/02_apply_confidence_weighting.py:18-20 | score 100 keeps the ratio; score 0 gives 0; 50 at score 80 gives 40 |
| Weighting.WeightRow | pipeline/model/02_apply_confidence_weighting.py:18-20 | definition: the cells as read and the weighted ratio of the row's parsed cells |
| Weighting.ApplyWeighting | pipeline/model/02_apply_confidence_weighting.py:11-20 | fails only on a missing file; rows and cells are unchanged; the column is added only when both source columns exist |
| Weighting.WeightedAbsentIff | pipeline/model/02_apply_confidence_weighting.py:17-20 | where the column is added, a row's value is absent exactly when its ratio or score is |
| Checks.CountDetailRoundTrip | pipeline/quality_engine/01_validate_retailer_dimension.py:22 | the count can be read back from its `key=n` detail text |
| Checks.MissingCount | pipeline/quality_engine/01_validate_retailer_dimension.py:21 | definition of the null sum plus the blank sum |
| Checks.MissingCheck | pipeline/quality_engine/01_validate_retailer_dimension.py:21-22 | definition of one `missing_<col>` check: PASS exactly when the count is 0, the count in the details |
| Checks.MissingCountSpec | pipeline/quality_engine/01_validate_retailer_dimension.py:21 | the null sum plus the blank sum counts each absent-or-blank cell once: at most the rows, and 0 exactly when none is missing |
| Checks.MissingCheckPasses | pipeline/quality_engine/02_validate_retailer_year_facts.py:27-33 | a missing check passes exactly when no cell of its column is absent or blank |
| Checks.AppendMissingChecks | pipeline/quality_engine/01_validate_retailer_dimension.py:20-22 | the column loop appends one missing check per column, or stops at the first absent column |
| DimensionValidation.UniqueIdCheck | pipeline/quality_engine/01_validate_retailer_dimension.py:25-26 | definition of `unique_company_id`: the `duplicated()` count and its verdict |
| DimensionValidation.UniqueIdCheckSpec | pipeline/quality_engine/01_validate_retailer_dimension.py:25-26 | duplicates = rows − distinct ids; the check passes exactly when the ids are pairwise different |
| DimensionValidation.DimensionReport | pipeline/quality_engine/01_validate_retailer_dimension.py:11-26 | a missing file, or the first absent identity column, fails; otherwise exactly four checks in fixed order |
| DimensionValidation.MissingChecksSpec | pipeline/quality_engine/01_validate_retailer_dimension.py:20-22 | each of the first three checks passes exactly when its column has no absent or blank cell |
| DimensionValidation.UniqueCheckSpec | pipeline/quality_engine/01_validate_retailer_dimension.py:25-26 | the fourth check passes exactly when the ids are distinct |
| DimensionValidation.ValidateDimension | pipeline/quality_engine/01_validate_retailer_dimension.py:11-26 | the validator's result equals the report function |
| FactValidation.RowsCheck | pipeline/quality_engine/02_validate_retailer_year_facts.py:20-24 | `rows_gt_0` passes exactly when the table has a row |
| FactValidation.UniqueKeyCheck | pipeline/quality_engine/02_validate_retailer_year_facts.py:36-41 | definition of `unique_company_year`: the `duplicated()` count over (company_id, year) and its verdict |
| FactValidation.UniqueKeyCheckSpec | pipeline/quality_engine/02_validate_retailer_year_facts.py:36-41 | duplicates = rows − distinct (company_id, year) pairs; the check passes exactly when the pairs are distinct |
| FactValidation.YearCheck | pipeline/quality_engine/02_validate_retailer_year_facts.py:45-51 | definition of the year check: the count of years that do not parse or fall outside 2000..2026 |
| FactValidation.YearCheckSpec | pipeline/quality_engine/02_validate_retailer_year_facts.py:45-51 | the year check passes exactly when every year parses and lies in 2000..2026 |
| FactValidation.MetricChecks | pipeline/quality_engine/02_validate_retailer_year_facts.py:54-73 | definition of one metric column's checks |
| FactValidation.MetricChecksSpec | pipeline/quality_engine/02_validate_retailer_year_facts.py:54-73 | an absent column gives only a failing existence check; a present one gives coverage (passing exactly when some value parses) then no-negative (passing exactly when no parsed value is below 0) |
| FactValidation.EmptyTableFailsCoverage | pipeline/quality_engine/02_validate_retailer_year_facts.py:64-67 | on an empty table coverage fails |
| FactValidation.FactsReport | pipeline/quality_engine/02_validate_retailer_year_facts.py:11-33 | a missing file, or the first absent identity column, fails |
| FactValidation.MetricChecksNames | pipeline/quality_engine/02_validate_retailer_year_facts.py:54-73 | the metric checks' names follow the columns, column by column |
| FactValidation.FactsReportOrder | pipeline/quality_engine/02_validate_retailer_year_facts.py:17-73 | the checks come as rows, three missing checks, uniqueness, year range, then revenue's and employees' checks |
| FactValidation.IdentityChecksSpec | pipeline/quality_engine/02_validate_retailer_year_facts.py:27-33 | each identity check passes exactly when its column has no absent or blank cell |
| FactValidation.AppendMetricChecks | pipeline/quality_engine/02_validate_retailer_year_facts.py:54-73 | the loop with `continue` appends the metric checks of each column in order |
| FactValidation.ValidateFacts | pipeline/quality_engine/02_validate_retailer_year_facts.py:11-73 | the validator's result equals the report function |

## Left out

- File and console I/O are not modelled: `read_csv`/`to_csv`, directory creation, the dimension
  builder's log file (`write_log`), `print`, and `main`'s exception-to-return-code handling. Tables
  are passed in and returned in memory, and a missing input file is a `None` input.
- The run date (`datetime.today()`) is a parameter.
- The CSV round trip between stages is not modelled, including how pandas prints numbers. Each
  stage starts from text cells.
- The dashboard (`pipeline/dashboards/app.py`) is not part of this model.
- Numbers.ParseNumber: accepts only an optional sign, digits and an optional fraction. Exponents,
  `inf`, surrounding whitespace and the other spellings `pd.to_numeric` accepts become absent.
- Kpis.Rpe: a head count of 0 gives an absent ratio. pandas gives ±inf or NaN there.
- Kpis.PctChange: a previous revenue of 0 gives absent growth. pandas gives ±inf or NaN there.
- Kpis.Growth: does not model `pct_change`'s default forward-fill of missing revenue. Growth is
  absent unless both revenues are present. The fill behaviour depends on the pandas version.
- Kpis.KpiRowsSorted: states sortedness and `Kpis.KpiRowsPermuted` states the permutation. The
  stability of the sort among equal keys is fixed by the insertion sort but not stated.
- RetailerYearFacts.FactRowsSorted: the same holds for the fact table's order among equal keys.
- Readiness.Mean: the average score is an exact quotient (sum over count), not a floating-point
  mean. For no rows it is absent where pandas gives NaN.
- Weighting.ApplyWeighting: the weighter reads its file without `dtype=str`. The model parses each
  cell with `ParseCell`. Where a column holds non-numeric text, pandas would raise instead.
- StaticTable.Issues: the issue message texts are represented by the `Issue` datatype rather than
  as formatted strings.
- RetailerYearFacts.FactsOf: the `ValueError` message lists the found columns too. The model
  carries only the missing names.
- RetailerYearFacts.Pivot: a metric name that equals a key or metadata column name
  (`company_id`, `last_updated`, …) would make the merged pandas table collide. The model keeps
  metrics in their own map.
- Case mapping and whitespace classes are ASCII only.

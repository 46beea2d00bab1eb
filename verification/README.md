# Fairness audit pipeline for predictive process monitoring — a Dafny model

The repository audits a next-outcome classifier trained on prefixes of a hiring event log
(does a case end in "Make Job Offer"?) for group fairness. Its scripts run in stages:

- **01** (`01_build_aequitas_inputs.py`) sorts the log, labels every case, reduces the
  demographic attributes to one value per case, maps activities to tokens `A01`, `A02`, …
  and builds one prefix table per prefix length (3, 5, 10) and encoding (`simple` = activity
  tokens, `complex` = activity tokens and resources). The written table has the columns
  `case, PrefixLen, Act1..Actk, [Res1..Resk], <audit columns>, label, score`.
- **01b** (`01b_export_activity_map.py`) writes the token legend.
- **02A** (`02A_make_aequitas_csvs.py`) turns each scored table into an audit input:
  `label` becomes `label_value`, and the attribute columns are rendered as text.
- **02B** (`02B_run_aequitas_audit.py`) picks a reference group per attribute and names the
  disparity report of each input.
- **03** (`03_summarize_reports.py`) reads every `*_disparities.csv` report and recovers
  prefix length and encoding from its name. It reshapes each report to one record per
  (group, metric) and classifies every record: four-fifths violation, severity tier, harm
  direction and small support. It then combines the records, keeps the violations and
  ranks the worst deviations per configuration.
- **03b** (`03b_key_findings.py`) reads the summary back and derives three views: the
  per-configuration PPR (selection-rate) violation counts, their split between audit and
  slot columns, and the ten stable PPR records farthest from parity.

The model is pure: tables are `Frame`s (column names plus rows of cells), the log is a
sequence of `Event`s, file contents are parameters, and each stage is a function or a short
method. The modules follow the stages:

| module | file | stage |
|---|---|---|
| `Basics`, `Text`, `Decimal`, `Frames`, `Ranking` | `basics.dfy`, `text.dfy`, `decimal.dfy`, `frames.dfy`, `ranking.dfy` | shared helpers |
| `EventLog` | `event_log.dfy` | 01: ordering, traces, labels, case-level attributes |
| `PrefixTables` | `prefix_table.dfy` | 01: activity tokens and prefix tables |
| `ActivityMap` | `activity_map.dfy` | 01b |
| `FileNames` | `file_names.dfy` | file names across 01, 02A, 02B and 03 |
| `AequitasCsvs` | `aequitas_csvs.dfy` | 02A |
| `AequitasAudit` | `aequitas_audit.dfy` | 02B |
| `Classify`, `Reports` | `classify.dfy`, `reports.dfy` | 03 |
| `KeyFindings` | `key_findings.dfy` | 03b |

Python's semantics are written out where they matter:
- every comparison with NaN is false;
- `fillna(0) < 30` makes a missing size small;
- `melt` is metric-major;
- `pd.concat([])` raises;
- the `re.I` and `str.lower`/`str.upper` mappings are ASCII;
- `groupby` drops missing keys unless `dropna=False`;
- `astype(str)` turns a missing cell into the text `"nan"`.

Where the code and the repository's written description differ, the model follows the code:
- A report row whose size is missing is flagged as small support (line 125 of
  `03_summarize_reports.py` fills it with 0).
- A missing attribute cell in 02A becomes `"nan"`, never `"Unknown"`. `astype(str)` runs
  before `fillna`, so the `fillna` never fires.
- A case's demographic value is its first non-missing value (`groupby().first()`), not the
  value of its first event.
- `bin_age` of a missing age returns `"65+"`, because every comparison with NaN is false.

## Model

| member | source | states |
|---|---|---|
| EventLog.RowBeforeStrictTotal | 01_build_aequitas_inputs.py:31-33 | The sort key (case, timestamp with unparseable times last, original row) is a strict total order on rows: irreflexive, total on distinct rows, transitive. |
| EventLog.SortedLog | 01_build_aequitas_inputs.py:31-33 | The sorted log is a permutation of all row numbers, ordered by that key. |
| EventLog.Trace | 01_build_aequitas_inputs.py:33 | A case's trace holds exactly the rows of that case, and no others, in timestamp-then-row order. |
| EventLog.TraceLength | 01_build_aequitas_inputs.py:68-70 | A trace is as long as the case has events, and it is non-empty exactly when the case occurs in the log. |
| EventLog.CaseIds | 01_build_aequitas_inputs.py:36-41 | The grouped case ids are strictly ascending and are exactly the cases that occur in the log. |
| EventLog.AnyOffer | 01_build_aequitas_inputs.py:38 | True exactly when some listed event is "Make Job Offer". |
| EventLog.LabelIff | 01_build_aequitas_inputs.py:36-41 | The label is 0 or 1, and it is 1 exactly when some event of the case, at any position, is "Make Job Offer". |
| EventLog.LabelFromPrefix | 01_build_aequitas_inputs.py:36-41 | An offer inside a prefix forces label 1: the label is a property of the whole case, seen from any prefix. |
| EventLog.FirstNonNull | 01_build_aequitas_inputs.py:46 | `first()` yields a value that occurs with only missing values before it, and yields nothing exactly when every value is missing. |
| EventLog.ToCat | 01_build_aequitas_inputs.py:18-22 | The result is "T" exactly for the true words, "F" exactly for the false words (case-insensitive), and the input unchanged otherwise. |
| EventLog.ToCatIdempotent | 01_build_aequitas_inputs.py:18-22 | Mapping twice gives the same as mapping once. |
| EventLog.BinAge | 01_build_aequitas_inputs.py:10-16 | "unk" exactly for an unparseable age; a missing age gives "65+"; a number falls in exactly one of the four bands, with bounds 30, 45 and 65. |
| EventLog.BinAgeMonotone | 01_build_aequitas_inputs.py:10-16 | An older age never falls in a younger band. |
| EventLog.SensColumns | 01_build_aequitas_inputs.py:44-59 | Each audit column is present exactly when its raw demographic column exists, and no other name is listed. The names have no repeats and follow the fixed order gender, citizen, age, German-speaking, religion. |
| EventLog.SensFromOrdered | 01_build_aequitas_inputs.py:44-59 | Columns added one spec entry at a time, for a spec without repeated names, come out in spec order and name only spec entries. |
| EventLog.SensValuesAligned | 01_build_aequitas_inputs.py:44-59 | The i-th audit value of a case comes from the raw column behind the i-th audit name: the binned first age, or the first text mapped by `to_cat`. |
| PrefixTables.ActivityNames | 01_build_aequitas_inputs.py:62 | The activity list is strictly ascending and holds exactly the non-missing activities of the log. |
| PrefixTables.Act2Tok | 01_build_aequitas_inputs.py:63 | The token map is defined exactly on the log's activities, and the i-th activity in sorted order gets token i. |
| PrefixTables.Act2TokInjectiveOrdered | 01_build_aequitas_inputs.py:62-63 | Distinct activities get distinct tokens, and token positions follow the alphabetical order of the activities. |
| Decimal.TokenShape | 01_build_aequitas_inputs.py:63 | Token i is "A" followed by at least two digits whose value is i+1, zero-padded to two digits below 10. |
| Decimal.TokenInjective | 01_build_aequitas_inputs.py:63 | Different positions never share a token. |
| Decimal.ZFillFacts | 01_build_aequitas_inputs.py:63 | `zfill` pads to the width without changing the digits' value and keeps the original as a suffix. |
| Decimal.NatToStringRoundTrip | 01_build_aequitas_inputs.py:132 | `str(k)` of a natural number reads back as k. |
| Decimal.NatToStringInjective | 01_build_aequitas_inputs.py:132 | Different prefix lengths give different `str(k)`. |
| PrefixTables.QualifyingIds | 01_build_aequitas_inputs.py:68-71 | The kept cases are exactly the listed cases whose trace has at least k events, and they stay in ascending order. |
| PrefixTables.BuildPrefixTableFails | 01_build_aequitas_inputs.py:81-83 | Building fails exactly when the complex encoding is asked for and the log has no resource column. |
| PrefixTables.BuildPrefixTableMembership | 01_build_aequitas_inputs.py:68-71 | A case has a row exactly when it occurs in the log, k is at least 1, and it has at least k events. |
| PrefixTables.BuildPrefixTableOrder | 01_build_aequitas_inputs.py:77 | The rows are in strictly ascending case order, as the pivot index is. |
| PrefixTables.BuildPrefixTableRowCount | 01_build_aequitas_inputs.py:68-71 | The table has one row per qualifying case. |
| PrefixTables.BuildPrefixTableSlots | 01_build_aequitas_inputs.py:72-91 | Each row has k activity slots, plus k resource slots under the complex encoding only. Slot i holds the token and resource of the case's i-th event, and a missing activity stays missing. The label is the whole case's label, the audit values are the case's values, and PrefixLen is k. |
| PrefixTables.PrefixRowsAgreeAcrossK | 01_build_aequitas_inputs.py:36-41 | The same case in tables of two prefix lengths has the same label, the same audit values and the same token in every shared slot. |
| PrefixTables.CaseLevelSplit | 01_build_aequitas_inputs.py:108-111 | Disjoint row sets of a table hold disjoint case sets, so a row split is a case-level split. |
| PrefixTables.ScoredColumnsLayout | 01_build_aequitas_inputs.py:102-125 | The written columns are case, PrefixLen, the slots, the audit columns, then label and score. |
| PrefixTables.BuiltScoredColumns | 01_build_aequitas_inputs.py:88-125 | For a built table, that layout's audit columns are exactly the present audit columns of the log. |
| PrefixTables.SlotsAreFeatures | 01_build_aequitas_inputs.py:102 | Every slot column is a feature column, because it starts with "Act" or "Res". |
| PrefixTables.NonFeatureNames | 01_build_aequitas_inputs.py:102 | No audit or bookkeeping column is a feature column. |
| ActivityMap.Legend | 01b_export_activity_map.py:5-6 | The legend has one row per distinct activity, and every activity of the log appears in it. |
| ActivityMap.LegendRowCount | 01b_export_activity_map.py:5-6 | The legend is exactly as long as the number of distinct activities. |
| ActivityMap.LegendOrderAndTokens | 01b_export_activity_map.py:5-6 | Legend rows are in strictly ascending activity order, the token of row i names position i, and tokens differ row to row. |
| ActivityMap.LegendAgreesWithAct2Tok | 01b_export_activity_map.py:5-6 | Every legend row pairs an activity with the token the table builder gives it. |
| AequitasCsvs.SensAllDistinct | 02A_make_aequitas_csvs.py:15 | The audit column list has no repeats. |
| AequitasCsvs.AuditNamesAreNotSlots | 02A_make_aequitas_csvs.py:15-23 | No audit column name starts with "Act" or "Res", so none is picked up twice. |
| AequitasCsvs.PresentNames | 02A_make_aequitas_csvs.py:23 | The present audit columns are those of the fixed list that the table has. For a list without repeats, as the fixed list is, they keep list order and have no repeats. |
| Frames.FilterKeepsColumnOrder | 02A_make_aequitas_csvs.py:21-23 | Filtering a column list without repeats keeps the kept columns in their original order. |
| AequitasCsvs.AttrColumnsMembers | 02A_make_aequitas_csvs.py:21-25 | A column is an attribute exactly when it starts with "Act" or "Res" or is an audit column. |
| AequitasCsvs.AttrColumnsDistinct | 02A_make_aequitas_csvs.py:21-25 | A table without repeated columns yields attributes without repeats. |
| AequitasCsvs.AttrColumnsExclude | 02A_make_aequitas_csvs.py:21-25 | case, PrefixLen, label, score and label_value are never attributes. |
| AequitasCsvs.AttrColumnsOfBuiltTable | 02A_make_aequitas_csvs.py:21-25 | On a table written by stage 01, the attributes are the activity slots, then the resource slots, then the audit columns. |
| AequitasCsvs.MakeAequitasFrame | 02A_make_aequitas_csvs.py:28-39 | Fails exactly when label or score is missing; otherwise it fails on the first of label and score that has a cell that is neither an integer nor a whole float such as 1.0 (`astype(int)` accepts both). On success the columns are label_value, score and the attributes, with one output row per input row. |
| AequitasCsvs.AequitasFrameCells | 02A_make_aequitas_csvs.py:31-39 | Each output row carries the input's label and score converted to integers (a whole float 1.0 becomes 1), and each attribute cell as `astype(str)` text: a missing cell becomes "nan" and a whole float keeps its ".0". |
| Frames.FloatAndIntCells | 02A_make_aequitas_csvs.py:35-39 | A whole float converts to the same integer as the integer cell, yet its text differs from every integer's text: it is that integer's text followed by ".0". |
| AequitasCsvs.OutputColumnsDistinct | 02A_make_aequitas_csvs.py:31 | The output header has no repeated names. |
| AequitasCsvs.AequitasFrameWellFormed | 02A_make_aequitas_csvs.py:31-39 | Every output row is as wide as the header. |
| FileNames.TableFileNamed | 02A_make_aequitas_csvs.py:8-12 | The six input names are exactly `prefix{k}_{enc}.csv` for the configurations that stage 01 writes. |
| FileNames.AeqOfTable | 02A_make_aequitas_csvs.py:41 | Replacing ".csv" with "_aeq.csv" in a table name gives the table name with tag `{enc}_aeq`. |
| FileNames.AeqNameOfStem | 02A_make_aequitas_csvs.py:41 | For a stem without dots, the audit input name is the stem plus "_aeq.csv". |
| FileNames.AuditFileSpelled | 02B_run_aequitas_audit.py:12-16 | The six audit inputs are exactly `prefix{k}_{enc}_aeq.csv` for the same configurations. |
| FileNames.AuditFileNamed | 02B_run_aequitas_audit.py:12-16 | The file list of 02B is the 02A output name of each 02A input. |
| FileNames.FileListsAgree | 02B_run_aequitas_audit.py:12-16 | For each configuration, the three stages agree on the file names, and the report name parses back to that configuration. |
| FileNames.DisparitiesNameOfStem | 02B_run_aequitas_audit.py:54-55 | The report of an input named stem + ".csv" is named stem + "_disparities.csv". |
| FileNames.ReportNameOfPipeline | 02B_run_aequitas_audit.py:54-55 | The report of configuration (k, enc) is `prefix{k}_{enc}_aeq_disparities.csv`. |
| AequitasAudit.CountOccurrences | 02B_run_aequitas_audit.py:20 | The count is the number of times the value occurs. |
| AequitasAudit.MostFrequent | 02B_run_aequitas_audit.py:20-25 | The result occurs in the column, and no value occurs more often. |
| AequitasAudit.ChooseReference | 02B_run_aequitas_audit.py:18-25 | The reference is "T" for a `_cat` column that has "T", and "45-64" for `age_group` when present. Otherwise it is a most frequent value, and an empty column has none. |
| AequitasAudit.ReferenceIsObserved | 02B_run_aequitas_audit.py:18-25 | There is a reference exactly when the column is non-empty, and it is a value of the column. |
| AequitasAudit.AuditAttributes | 02B_run_aequitas_audit.py:37 | The attributes are exactly the columns other than label_value and score. For a table without repeated columns they keep table order. |
| AequitasAudit.ChooseReferences | 02B_run_aequitas_audit.py:40 | One reference per attribute, each chosen by the priority rule; an empty table with attributes fails on the first attribute. |
| AequitasAudit.PlanAudit | 02B_run_aequitas_audit.py:27-40 | The failure order is missing columns, then a label_value, then a score that `astype(int)` rejects (a whole float is accepted), then an empty column. On success the attributes come with one reference each. |
| AequitasAudit.AttrColumnsAreAttributes | 02B_run_aequitas_audit.py:37 | Every attribute 02A writes counts as an attribute for 02B. |
| AequitasAudit.AuditAttributesOfAequitasFrame | 02B_run_aequitas_audit.py:36-37 | On an audit input written by 02A, 02B audits exactly 02A's attribute columns, in the same order. |
| FileNames.DigitRunEnd | 03_summarize_reports.py:37 | `\d+` is greedy: the run is all digits, and it stops before a non-digit or the end. |
| FileNames.EncodingAt | 03_summarize_reports.py:37-39 | An encoding found is "simple" or "complex" and matches the text there without regard to case. |
| FileNames.FirstSome | 03_summarize_reports.py:37 | The search returns the leftmost match, and nothing exactly when no position matches. |
| FileNames.ParseFname | 03_summarize_reports.py:34-41 | The parsed name is the leftmost match in the base name; the encoding is lower-case "simple" or "complex"; nothing is returned exactly when no position matches. |
| FileNames.ParseReportName | 03_summarize_reports.py:34-39 | The report name of (k, enc) parses to (k, enc). |
| FileNames.FileNameRoundTrip | 03_summarize_reports.py:34-39 | Parsing the name that 02A and 02B derive from `prefix{k}_{enc}.csv` gives back (k, enc). |
| FileNames.ReportNamesDistinct | 03_summarize_reports.py:34-39 | Different configurations never share a report name. |
| FileNames.ParseRequiresReportSuffix | 03_summarize_reports.py:37-41 | A base name with no `_disparities.csv` tail at any position parses to nothing. |
| Reports.FindFirst | 03_summarize_reports.py:11-16 | The result is the first candidate present, and nothing exactly when none is present. |
| Reports.Detect | 03_summarize_reports.py:78-82 | Detection finds a column exactly when some candidate is a (lower-cased) column, and the column it finds is `find_first`'s. |
| Reports.LowerNames | 03_summarize_reports.py:77 | Column names are lower-cased one by one, in order. |
| Reports.KnownMetricNames | 03_summarize_reports.py:19-29 | Both PPR spellings read as "PPR", and every mapped metric is a good metric or an error rate. |
| Reports.UnknownMetricName | 03_summarize_reports.py:110 | An unmapped disparity column whose stem holds no `_disparity` is named by its stem in upper case. |
| Text.ReplaceOnlyTrailing | 03_summarize_reports.py:110 | `str.replace` on a text ending in the pattern, with no other occurrence starting earlier, removes just that trailing occurrence. |
| Reports.KnownColumnsAreDisparities | 03_summarize_reports.py:93-95 | Every mapped column name ends in "_disparity". |
| Reports.UseColumns | 03_summarize_reports.py:93-96 | The chosen metrics are disparity columns of the report. If any mapped column exists, they are exactly the mapped ones; otherwise they are all the disparity columns. None are chosen exactly when the report has no disparity column. For a report without repeated columns they have no repeats and keep column order. |
| Reports.KnownAmongDisparities | 03_summarize_reports.py:93-95 | Keeping the mapped names among the disparity columns is the same as keeping, in one pass, the columns that are both. |
| Reports.MetricColumnsOrdered | 03_summarize_reports.py:93-96 | For a report without repeated columns, both candidate lists have no repeats and keep column order. |
| Reports.ReportLayout | 03_summarize_reports.py:81-102 | A report is skipped for lacking an attribute or group column, or else for lacking a disparity column, each exactly in that case. Otherwise the layout points at the detected attribute, group and size columns (a size exactly when one is present) and at the chosen metrics, in order. |
| Reports.Stamp | 03_summarize_reports.py:73 | Prefix length and encoding are both present exactly when the name parses, and then they are the parsed pair. |
| Reports.MakeRecord | 03_summarize_reports.py:109-127 | A record keeps its configuration, attribute, group, size and disparity, names its metric, and is classified; small support is set by the size rule. |
| Reports.RecordAt | 03_summarize_reports.py:102-127 | The record for metric m and row r carries that row's attribute, group and size and that metric's cell as its disparity. Without a size column it has no size and no small-support flag; with one, a missing size is flagged and a present size is flagged exactly when it is below 30. |
| Reports.Block | 03_summarize_reports.py:105-107 | The block for one metric has one record per report row, in row order. |
| Reports.Melt | 03_summarize_reports.py:105-107 | The long form has (number of metrics) × (number of rows) records. |
| Reports.MeltClassified | 03_summarize_reports.py:109-127 | Every record of the long form is classified and stamped with the report's configuration. |
| Reports.ReadReport | 03_summarize_reports.py:72-139 | A report is skipped exactly when its layout says so, for the same reason. It fails exactly when it is laid out but holds non-numeric text in a size or metric cell; otherwise it is kept. |
| Reports.ReportRecordAt | 03_summarize_reports.py:102-125 | Record m × rows + r of a kept report is row r read under metric m: same attribute, group and size, that metric's disparity and name. With a size column, its small-support flag is set for a missing size, and for a present size exactly when it is below 30. |
| Reports.ReportLength | 03_summarize_reports.py:105-107 | A kept report yields exactly (chosen metrics) × (rows) records. |
| Reports.ReportRecordsClassified | 03_summarize_reports.py:109-127 | Every record of a kept report is classified and carries the report's own configuration. |
| Reports.Combine | 03_summarize_reports.py:72-142 | Fails exactly when some report failed, and then with the first failure. Otherwise the records are exactly those of the kept reports, and none when no report was kept. |
| Reports.CombineAppend | 03_summarize_reports.py:142 | Combining two runs of reports that both go through gives the first run's table followed by the second's. |
| Reports.CombineOne | 03_summarize_reports.py:72-142 | A single report gives its own records when kept, an empty table when skipped, and its error when it fails. |
| Reports.Outcomes | 03_summarize_reports.py:72-139 | There is one outcome per report file, in file order, each that file's reading. |
| Reports.Summarize | 03_summarize_reports.py:67-146 | No files is an error of its own. All files skipped is "nothing to combine", exactly in that case. A failure is the first file's failure. Otherwise the summary holds exactly the kept reports' records, and it is the combination of all outcomes in file order. |
| Reports.SummaryClassified | 03_summarize_reports.py:113-142 | Every summary record is classified and carries the configuration of one of the report files. |
| Reports.Violations | 03_summarize_reports.py:152 | The violations table holds exactly the flagged records, and its size is their count. |
| Reports.Group | 03_summarize_reports.py:166 | A configuration's group holds exactly the records with that configuration, missing keys included, and its size is the number of such records. |
| Reports.ViolationCount | 03_summarize_reports.py:170 | A configuration's count is the number of its rows in the violations table, and at most its group size. |
| Reports.WorstThree | 03_summarize_reports.py:166-169 | At most three records of the configuration, in descending deviation with missing last. No record left out deviates more than a listed one, and a group of three or fewer is listed whole. No record is listed more often than it occurs in the group. |
| Ranking.SortDesc | 03_summarize_reports.py:169 | `sort_values(ascending=False)` gives a descending permutation of its input, with missing keys last. |
| Ranking.TopN | 03_summarize_reports.py:169 | `head(n)` of the sorted records gives min(n, size) records from the input, in descending order, none outranked by a record left out. |
| Ranking.TopNMembers | 03b_key_findings.py:23-24 | Every listed record is an input record, and when there are at most n inputs all of them are listed. |
| Classify.Deviation | 03_summarize_reports.py:157-161 | The deviation is present exactly when the disparity is, is never negative, and is the distance of the disparity from 1. |
| Classify.ViolationIffOutsideBand | 03_summarize_reports.py:117 | A record is a violation exactly when its disparity lies outside the closed band [0.8, 1.25]. Both ends and a missing disparity are not violations. |
| Classify.BandIsReciprocal | 03_summarize_reports.py:116-117 | For a positive ratio the band is the four-fifths rule: a violation exactly when the ratio or its reciprocal is below 0.8. |
| Classify.Severity | 03_summarize_reports.py:43-51 | Empty exactly for a missing disparity. Otherwise low, moderate, high or severe, each exactly for its deviation range, with bounds 0.10, 0.25 and 0.50. |
| Classify.SeverityPartition | 03_summarize_reports.py:43-51 | Every present disparity gets exactly one of the four distinct tiers. |
| Classify.SeverityMonotone | 03_summarize_reports.py:43-51 | A larger deviation never gets a milder tier. |
| Classify.SeverityOfViolation | 03_summarize_reports.py:43-51 | A violation below the band is at least moderate, and one above it at least high. A ratio inside the band is never severe and is high only at exactly 1.25. |
| Classify.Harm | 03_summarize_reports.py:53-61 | Empty exactly for a missing disparity. For PPR, PPV and TPR it is under below 1 and over otherwise; for error rates it is higher above 1 and lower otherwise; for any other metric it is diff. |
| Classify.HarmIgnoresCase | 03_summarize_reports.py:56 | The direction does not depend on the metric name's letter case. |
| Classify.HarmOfViolation | 03_summarize_reports.py:53-61 | A violating good-metric ratio is under or over on the side it left the band; an error-rate ratio is lower or higher. Parity reads as over or lower. |
| Classify.SmallSupport | 03_summarize_reports.py:124-127 | Never flagged without a size column. With one, a missing size is flagged, and a present size exactly when it is below 30. |
| Classify.SmallSupportMonotone | 03_summarize_reports.py:124-127 | If a group of some size is flagged, every smaller group is flagged too. |
| KeyFindings.SensitiveAreAuditColumns | 03b_key_findings.py:4 | The sensitive set is exactly stage 01's audit columns. |
| KeyFindings.PprView | 03b_key_findings.py:7 | The PPR view holds exactly the records whose metric reads "PPR" in upper case, and its size is their count. |
| KeyFindings.PprCount | 03b_key_findings.py:8-9 | A configuration's sum of violation flags is the number of its flagged PPR records. |
| KeyFindings.PprCounts | 03b_key_findings.py:8-9 | The count table has an entry exactly for each configuration of a PPR record with both keys, and each entry is that configuration's flagged PPR count. |
| KeyFindings.SplitCount | 03b_key_findings.py:13-15 | The count for one configuration and one value of is_sensitive is the number of flagged PPR records of that configuration with that value. |
| KeyFindings.SensitiveSplit | 03b_key_findings.py:13-15 | The audit-column and slot-column counts of a configuration add up to its total count. |
| KeyFindings.StableIsSupported | 03b_key_findings.py:20-22 | A stable record has a known size of at least 30. For a classified record with a known size, stable means not flagged as small support. |
| KeyFindings.Candidates | 03b_key_findings.py:20-22 | The candidates are exactly the stable PPR records, and there are as many as the summary holds. |
| KeyFindings.WorstTen | 03b_key_findings.py:19-24 | The list holds at most ten stable PPR records, and fewer only when fewer exist, in descending deviation. No stable PPR record left out deviates more than a listed one, counting repeated copies one by one, and no record is listed more often than it occurs among the candidates. |
| KeyFindings.PprViolationHarm | 03b_key_findings.py:7 | A flagged PPR record has a disparity, and its direction is under exactly below 0.8 and over exactly above 1.25. |

## Left out

- Reading and writing CSV files, `glob`, `os.makedirs`, every `print`, the console health check of label and score means, and the write location of the activity map. These are I/O. The file contents are parameters, and the sorted `glob` result is the given list of reports.
- The SystemExit raised when there are no reports. It is modelled as the `NoReports` error.
- The one-hot encoding, the train/test split and the decision tree of stage 01. The classifier and the random split cannot be modelled. The score is an input column, and only the split's case-level property is stated (`PrefixTables.CaseLevelSplit`).
- The Aequitas `Group`/`Bias` calls of 02B. They are a foreign library. The disparity report they produce is the input of stage 03, as a frame of values.
- Floating-point arithmetic. Disparities and sizes are reals, and NaN is an absent value.
- Frames.CellText: a float cell holds a whole number only. Fractional floats (Python's shortest `repr`), whole values of 10^16 or more (written in exponent form) and -0.0 are not modelled.
- Frames.CellInt: `astype(int)` truncating a fractional float is not modelled, for the same reason; a whole float converts exactly.
- AequitasCsvs.AequitasFrameCells: an attribute column read as floats is modelled for whole values only, as `Frames.CellText` is.
- AequitasAudit.TextColumn: the same restriction applies to the attribute text 02B counts.
- The demographic strings of an `Event` are the text of each cell as read (`str` of the parsed value). A 0/1 column with a gap is read as floats, so its values are "1.0" and "0.0", which `to_cat` leaves unchanged.
- `pd.to_datetime` parsing. A timestamp is already an optional integer, with an unparseable time as none.
- Unicode case mapping. `str.lower`, `str.upper` and `re.I` are modelled on ASCII letters only.
- Reports.ReadReport: numeric text in a size or metric cell is treated as non-numeric, not converted. Two columns that become the same after lower-casing are excluded by the precondition `Readable`.
- Ranking.TopN: the order among records with equal deviation is not stated, because pandas' default sort is not stable.
- AequitasAudit.MostFrequent: which of several equally frequent values `value_counts` lists first is not stated, only that none is more frequent.
- KeyFindings.Stable: the branch for a summary without `group_n` cannot be reached, because stage 03 always adds the column.
- The printed order of `groupby` output and of the grp1/grp2 tables. Counts are a map (`KeyFindings.PprCounts`) or per-configuration functions. grp2 lists only the (configuration, is_sensitive) pairs that occur, which the model does not enumerate.
- Events with a missing case id. Every event carries an integer case id. In stage 01 a row without a case is dropped by every `groupby("case")` (01_build_aequitas_inputs.py:36-46 and 68-71), yet its activity still receives a token at line 62. The model has no such rows.
- FileNames.DigitRunEnd: `\d` is read as the ASCII digits 0-9. Python's `\d` on text also accepts other Unicode decimal digits.
- The top-three console listing of 03 for configurations with missing keys. `Reports.WorstThree` covers them through `Group`, but the printed layout is not modelled.

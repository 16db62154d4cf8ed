# Head CT report findings dashboard: label pipeline

This project models the data pipeline of `streamlit_app.py`, a one-page
dashboard that summarises annotated head CT radiology reports. The dashboard:

- reads every `reports_*.db` batch file and merges their `reports` tables;
- counts the reviewed reports and shows the count as progress;
- normalises three kinds of annotation labels (findings, medical devices and
  artifacts) and tallies them with `value_counts` for bar charts.

The model is split into modules that follow the script's stages:

- `Text` holds the Python string operations the script relies on:
  - `str.lower`, `str.split()`, `' '.join` and `str.strip`;
  - the substring test `in`, `str.split(sep)` and `sep.join`;
  - literal `str.replace`.
  Each is written as a function on `seq<char>` with lemmas that say what it
  computes (round trips, lengths, what is left unchanged).
- `StopWords` holds the three stop-word lists and the normaliser:
  lower-case, split on whitespace, drop the stop words, re-join with single
  spaces.
- `Rows` holds the table rows. Columns the script does not read are kept as
  an opaque map of cells.
- `Reports` covers batch selection, the batch-reading loop, the
  concatenation and the reviewed count.
- `Devices` covers the column rename, the loop that splits compound device
  labels on `' and '`, and the two synonym rewrites.
- `Tally` holds `value_counts` as a map from label to count, and the sum of
  a tally.
- `Dashboard` holds the script from the loaded tables to the five figures.
  Each label column is overwritten step by step, as the script does.

The file system and sqlite are not modelled as I/O; they are inputs to the
model:

- the directory listing is a sequence of names;
- the batch files are a map from file name to the rows of its `reports`
  table, where a missing entry stands for a file without that table;
- the three annotation tables are given as read.

## Model

| member | source | states |
|---|---|---|
| Text.Lower | streamlit_app.py:68 | `str.lower` keeps the length, makes the string lower-case, and maps exactly the capitals A-Z down (every other character is unchanged) |
| Text.LowerOfLower | streamlit_app.py:70 | lower-casing is idempotent, so the lambda's `word.lower()` of an already lower-cased token is the token itself |
| Text.Split | streamlit_app.py:70 | `str.split()` yields only non-empty tokens that hold no whitespace |
| Text.SplitJoin | streamlit_app.py:70 | splitting a single-space join of tokens gives the tokens back |
| Text.Join | streamlit_app.py:70 | `' '.join` of a token list, one space between tokens; its laws are Text.SplitJoin and Text.JoinSingleSpaced |
| Text.SplitLeadingSpace | streamlit_app.py:70 | leading whitespace produces no token |
| Text.SplitAllSpace | streamlit_app.py:70 | a whitespace-only label splits to no tokens |
| Text.SplitAppendSpace | streamlit_app.py:70 | a whitespace run between two strings separates their tokens: the tokens of the whole are those of the left part, then those of the right part |
| Text.JoinSingleSpaced | streamlit_app.py:70 | `' '.join` of tokens has no leading, trailing or doubled whitespace |
| Text.SplitAllLower | streamlit_app.py:68-70 | the tokens of a lower-case string are lower-case |
| Text.Strip | streamlit_app.py:90 | `str.strip` returns a slice of its input with no whitespace at either end, where only whitespace was cut from both sides |
| Text.SplitOn | streamlit_app.py:87 | `s.split(sep)` has one more piece than `sep` has non-overlapping occurrences in `s` |
| Text.EndsWith | streamlit_app.py:30 | the suffix test `f.endswith('.db')`; Reports.BatchNameShape states it in context |
| Text.Contains | streamlit_app.py:86 | the substring test `sep in s`; Text.ContainsIffCount states it |
| Text.ContainsIffCount | streamlit_app.py:86 | `sep in s` holds exactly when the occurrence count is positive |
| Text.SplitOnFirst | streamlit_app.py:87 | splitting at the first occurrence gives the text before it, then the split of the rest |
| Text.JoinSplitOn | streamlit_app.py:87 | re-joining the pieces with the separator gives back the label |
| Text.ReplaceIsSplitJoin | streamlit_app.py:96-97 | literal `str.replace` is split on the target, then join with the replacement |
| Text.ReplaceAbsent | streamlit_app.py:96-97 | a string without the target is left unchanged by `str.replace` |
| Text.ReplaceAll | streamlit_app.py:96-97 | each replaced non-overlapping occurrence changes the length by the difference of the pattern lengths |
| StopWords.FindingStopWords | streamlit_app.py:69 | the findings stop words, as listed in the script |
| StopWords.DeviceStopWords | streamlit_app.py:102 | the devices stop words, as listed in the script |
| StopWords.ArtifactStopWords | streamlit_app.py:109 | the artifacts stop words, as listed in the script |
| StopWords.DropStopWordsCount | streamlit_app.py:70 | the comprehension keeps no stop word, and keeps every other token as often as it occurs |
| StopWords.DropStopWordsAppend | streamlit_app.py:70 | filtering works token by token, so the kept tokens stay in order |
| StopWords.DropStopWordsKeepsAll | streamlit_app.py:70 | a token list without stop words is unchanged |
| StopWords.DropStopWordsEmpty | streamlit_app.py:70 | the filter empties the list exactly when every token is a stop word |
| StopWords.DropStopWords | streamlit_app.py:70 | the comprehension never adds tokens |
| StopWords.StripStopWords | streamlit_app.py:70 | the lambda returns a single-spaced label |
| StopWords.Normalise | streamlit_app.py:68-70 | a normalised label is lower-case and single-spaced |
| StopWords.NormaliseSpec | streamlit_app.py:68-70 | the tokens of a normalised label are the lower-cased tokens of the input less the stop words, in order and with their multiplicities |
| StopWords.KeptTokens | streamlit_app.py:70 | the kept tokens are tokens, lower-case when the input is, and none is a stop word |
| StopWords.NormaliseIdempotent | streamlit_app.py:68-70 | normalising a normalised label changes nothing |
| StopWords.NormaliseClean | streamlit_app.py:68-70 | a label of lower-case tokens with no stop word, single-spaced, comes out unchanged |
| StopWords.NormaliseSameLower | streamlit_app.py:68 | the normaliser sees only the lower-cased label |
| StopWords.NormaliseToEmpty | streamlit_app.py:68-70 | a label normalises to the empty category exactly when all its tokens are stop words |
| StopWords.FindingExample | streamlit_app.py:68-70 | "Tiny Left Posterior Effusion" is tallied as "effusion" |
| Reports.BatchNameShape | streamlit_app.py:30 | a name is selected exactly when it has the form `reports_<anything>.db` |
| Reports.IsReportBatch | streamlit_app.py:30 | the name test `startswith('reports_') and endswith('.db')`; Reports.BatchNameShape characterises it |
| Reports.SelectBatches | streamlit_app.py:30 | the selected names are exactly the listed batch files, and there are no more of them than listed names |
| Reports.SelectBatchesAppend | streamlit_app.py:30 | the selection works name by name: selecting from two listings in turn gives the two selections in listing order |
| Reports.ReadBatches | streamlit_app.py:31-37 | a successful read holds one table per batch; a failed read fails on a missing `reports` table |
| Reports.ReadBatchesSpec | streamlit_app.py:31-37 | the batch loop succeeds exactly when every batch has a `reports` table, and then holds the tables in batch order; otherwise it fails on the first batch without one |
| Reports.CollectBatches | streamlit_app.py:31-37 | the loop computes the result of reading the batches in order, stopping at the first failure |
| Reports.FailureSticks | streamlit_app.py:35 | once a read fails, the loop's result is that failure |
| Reports.FlattenLength | streamlit_app.py:38 | the concatenated frame has as many rows as all batches together |
| Reports.Flatten | streamlit_app.py:38 | the rows of all frames, frame after frame; Reports.FlattenLength and Reports.BatchRowsKept state it |
| Reports.Concat | streamlit_app.py:38 | `pd.concat` of no frames fails; otherwise the merged frame has as many rows as all frames together |
| Reports.BatchRowsKept | streamlit_app.py:38 | concatenation keeps the rows of any two batches with their multiplicities; nothing is deduplicated |
| Reports.RepeatedRowKept | streamlit_app.py:38 | a row present in two different batches appears at least twice in the merged frame |
| Reports.LoadReports | streamlit_app.py:30-38 | loading the reports computes the merged frame or the load error |
| Reports.MergedReports | streamlit_app.py:30-38 | the merged reports table or the error that stops the load; Reports.MergedReportsSpec states it |
| Reports.MergedReportsSpec | streamlit_app.py:30-38 | the merge fails on an empty batch list (`pd.concat` of nothing) and on a batch without a table; otherwise it holds the rows of all batches in listing order |
| Reports.ReviewedRows | streamlit_app.py:57 | the filter keeps every row flagged reviewed as often as it occurs, and no other row |
| Reports.Reviewed | streamlit_app.py:57 | the filter keeps only reports of the input that are flagged reviewed |
| Reports.ReviewedLength | streamlit_app.py:57 | the filter never adds rows, and keeps them all exactly when every row is flagged reviewed |
| Reports.ReviewedCount | streamlit_app.py:57-58 | the reviewed count never exceeds the number of reports |
| Reports.ReviewedCountAppend | streamlit_app.py:38-57 | the reviewed count of the merged frame is the sum of the counts of its parts |
| Reports.DisplayedProgress | streamlit_app.py:58 | the number shown is one more than the reviewed count |
| Reports.DisplayedProgressOffByOne | streamlit_app.py:58-63 | a fully reviewed table of n reports shows n + 1 |
| Tally.ValueCounts | streamlit_app.py:73 | the tally's keys are exactly the labels that occur, each mapped to its number of occurrences |
| Tally.TotalRemove | streamlit_app.py:73 | the sum of a tally does not depend on the order its keys are visited |
| Tally.ValueCountsTotal | streamlit_app.py:73 | the counts of a tally add up to the number of labels tallied |
| Tally.ValueCountsOrderFree | streamlit_app.py:73 | the tally depends only on the multiset of labels, not on row order |
| Devices.Rename | streamlit_app.py:82 | the rename keeps every row, and each row's device is its catheter label, with its other columns unchanged |
| Devices.CopiesWithSpec | streamlit_app.py:88-91 | one copy of the row per piece, each holding its piece stripped and the row's other columns |
| Devices.CopiesWith | streamlit_app.py:88-91 | the copies of the row made by the inner loop, one per piece; Devices.CopiesWithSpec states it |
| Devices.ExpandSpec | streamlit_app.py:86-93 | a label with k connectives becomes k + 1 stripped copies of its row; a label without one is kept unchanged and unstripped |
| Devices.Expand | streamlit_app.py:86-93 | one row's contribution to `split_rows`; Devices.ExpandSpec states it |
| Devices.SplitCompound | streamlit_app.py:84-94 | the rows of `split_rows`; Devices.SplitCompoundLength and Devices.SplitCompoundRows state it |
| Devices.SplitCompoundLength | streamlit_app.py:84-94 | splitting adds exactly one row per connective, never loses a row, and adds rows exactly when some label has `' and '` |
| Devices.SplitCompoundRows | streamlit_app.py:84-94 | the outer loop builds the expansions of the rows, in row order |
| Devices.AppendPieces | streamlit_app.py:88-91 | the inner loop appends one stripped copy of the row per piece, in piece order |
| Devices.Synonyms | streamlit_app.py:96-97 | a label with neither pattern passes the two rewrites unchanged |
| Devices.DeviceLabel | streamlit_app.py:96-103 | a device label comes out lower-case and single-spaced |
| Devices.EntericGrowth | streamlit_app.py:96 | each `enteric` grows the label by five characters |
| Devices.EntericExample | streamlit_app.py:96-103 | "enteric" is tallied as "enteric tube" |
| Devices.EntericNotIdempotent | streamlit_app.py:96 | a label already reading "enteric tube" becomes "enteric tube tube" |
| Devices.CapitalisedEntericUntouched | streamlit_app.py:96 | the rewrite is case-sensitive: "Enteric" is not rewritten |
| Devices.CapitalisedEntericExample | streamlit_app.py:96-103 | the rewrites run before lower-casing and are case-sensitive, so "Enteric" is tallied as "enteric", apart from "enteric tube" |
| Devices.ExpandTwo | streamlit_app.py:86-91 | a label with exactly one `' and '` becomes two copies of its row holding the stripped text on either side |
| Devices.CompoundExample | streamlit_app.py:86-91 | "frontal and parietal catheter" becomes the rows "frontal" and "parietal catheter" |
| Dashboard.NormaliseFindings | streamlit_app.py:68-70 | every finding row keeps its other columns and gets its normalised label |
| Dashboard.NormalisedFindings | streamlit_app.py:68-70 | the findings table after lines 68-70: each row with its label normalised, as Dashboard.NormaliseFindings computes it |
| Dashboard.FindingsFlagged | streamlit_app.py:73-78 | selecting the labels under a flag never yields more labels than rows; Dashboard.FlaggedAppend and Dashboard.FlaggedSingle pin it on every table |
| Dashboard.FlaggedAppend | streamlit_app.py:73-78 | the selection works row by row: selecting from two tables in turn gives the two selections in row order |
| Dashboard.FlaggedSingle | streamlit_app.py:73-78 | a single row is selected, with its label, exactly when it carries the flag |
| Dashboard.PresenceSplit | streamlit_app.py:73-78 | the present and missing selections are disjoint parts of the findings; they cover the table if and only if every flag is 0 or 1 |
| Dashboard.FlaggedMembers | streamlit_app.py:73 | a label is selected under a flag exactly when some row with that flag carries it |
| Dashboard.FlagCounts | streamlit_app.py:73-78 | the present and missing selections together have at most as many rows as the table, and exactly as many if and only if every flag is 0 or 1 |
| Dashboard.FlaggedLength | streamlit_app.py:68-73 | normalising the labels keeps the flags, so each selection keeps its number of rows |
| Dashboard.FlaggedTotal | streamlit_app.py:68-78 | the present (or missing) tally counts every row flagged 1 (or 0) once |
| Dashboard.FlaggedKeys | streamlit_app.py:68-78 | the present (or missing) tally's keys are exactly the normalised labels of the rows flagged 1 (or 0) |
| Dashboard.DeviceRows | streamlit_app.py:82-103 | the devices table after lines 82-103; Dashboard.PrepareDevices computes it and Dashboard.DeviceTally counts it |
| Dashboard.PrepareDevices | streamlit_app.py:82-103 | the devices step fails, on the missing `device` column, exactly when the table has no rows (line 94 then builds a frame without columns and line 96 reads the column); otherwise it yields the split rows, each label rewritten, lower-cased and stripped of the devices stop words |
| Dashboard.DeviceTally | streamlit_app.py:84-104 | the devices tally counts exactly one device per catheter row plus one per `' and '` split off |
| Dashboard.NormaliseArtifacts | streamlit_app.py:108-110 | every artifact row keeps its other columns and gets its normalised label |
| Dashboard.NormalisedArtifacts | streamlit_app.py:108-110 | the artifacts table after lines 108-110: each row with its label normalised, as Dashboard.NormaliseArtifacts computes it |
| Dashboard.ArtifactTally | streamlit_app.py:108-112 | the artifacts tally counts every artifact row once, and its keys are exactly the normalised artifact labels |
| Dashboard.Aggregate | streamlit_app.py:30-112 | the script stops with the merge error when the merge fails, and with the missing `device` column when the devices table is empty; otherwise the figures are the reviewed count, the number shown and `value_counts` of the normalised findings flagged 1 and 0, of the device rows and of the normalised artifacts; the totals are the rows flagged 1 and 0, the catheter rows plus the connectives split off, and the artifact rows; the keys are the normalised labels that occur |

## Left out

- Reading the annotation tables (lines 40-53) is not modelled: the table
  name from `sqlite_master`, the connections and `os.path.join`. The three
  tables are inputs to `Dashboard.Aggregate`.
- `@st.cache_data` (line 26) is not modelled. Caching does not change the
  values.
- Page set-up, headers and charts are not modelled; they are UI only.
- The progress bar fraction `nr / 150` (line 61) is not modelled because it
  is a float. Only the integer shown in the progress text is modelled.
- Missing values (NaN) in a label column are not modelled. Labels are
  always strings, so the `str(...)` at line 86 is the identity here.
- `str.lower` and whitespace are modelled for ASCII only: A-Z, and
  space, `\t`, `\n`, `\r`, `\x0b`, `\x0c` and `\x1c`-`\x1f`. Unicode case
  mapping and Unicode whitespace are not modelled.
- `value_counts` orders its result by count and breaks ties in an order
  that the model does not capture. A tally is a map.
- `str.replace` is modelled as a literal replacement. Both patterns at
  lines 96-97 contain no regular-expression metacharacters, so literal and
  regex replacement agree.
- Column names are not modelled. A row has fixed fields, so the rename at
  line 82 moves the catheter label into the device field and keeps the
  other columns.
- An empty devices table makes line 94 build a frame without columns, and
  line 96 then fails to find the `device` column. The model returns
  `NoDeviceColumn` there. Empty findings and artifacts tables keep their
  columns and give empty tallies.
- The code and its description disagree on an empty set of batch files.
  The code passes an empty list to `pd.concat`, which raises. The model
  follows the code (`NoObjectsToConcatenate`).

## Findings

| source | as written | input that shows it | evidently intended | confidence | as-written member | corrected member |
|---|---|---|---|---|---|---|
| streamlit_app.py:58 | `nr_annotated_reports = len(annotated_reports) + 1` | a table of one report, reviewed, shows "Progress: 2/150"; 150 reviewed reports would show 151/150 and a bar fraction above 1 | the number of reviewed reports, `len(annotated_reports)` | medium, not executed | Reports.DisplayedProgressOffByOne | Reports.ReviewedCount |

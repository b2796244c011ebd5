# CSV call-record transformer — a Dafny model

This project models `process_csv` in `app.py`. It is the one transformation behind a
small web tool that cleans a CSV of telecom traffic records and writes a grouped report.
Given a parsed table, it does the following, in order:

1. strips whitespace from the column names and drops the thirteen unwanted
   statistics columns;
2. rejects the file if any of the seven required columns is missing, with a message
   that lists the missing and the available columns;
3. keeps only the rows whose Vendor and Country Destination are present and not blank,
   and rejects the file if none remain;
4. turns Revenue, Cost and Profit into numbers, with unparseable or empty cells as 0;
5. for every vendor whose upper-cased name contains `OPS` or `IVG`, sets Cost to 0 and
   Profit to Revenue;
6. groups the rows by (Trunk Group, Country Destination) in order of first occurrence;
7. emits each group's rows followed by a subtotal row, with five empty spacer rows
   between groups;
8. names the output file `<timestamp>_<sanitised stem>.csv` and reports a summary and
   a preview of the first twenty rows.

Modules, one per stage:

- `Strings`: Python's `strip`, ASCII `upper` and substring search.
- `Sequences`: flattening and Python's `join`, shared by the stages below.
- `Columns`: header cleaning, column pruning and required columns.
- `Rows`: row extraction, the blank filter and numeric coercion.
- `Recalculation`: the OPS/IVG cost rule and its count.
- `Grouping`: distinct keys in first-occurrence order, and the groups.
- `Layout`: output rows, subtotals and spacers.
- `FileNames`: the stem sanitiser, including Python's `split`/`join` on `'_'`.
- `Pipeline`: errors, the summary and the whole transformation.
- `WrittenGrouping`: the grouping exactly as written, and where it goes wrong.
- `Scenarios`: worked examples on concrete rows.

Other modelling choices:

- Money is an integer number of cents, so rounding to two decimals is exact.
- A cell is `Null` (pandas NaN) or `Text`.
- Numeric parsing (`pd.to_numeric`) is a parameter `parse: string -> Option<int>`.
- `str.isalnum` is a parameter predicate.
- The clock is a `timestamp` parameter.

## Model

| member | source | states |
|---|---|---|
| Strings.Strip | app.py:23 | the result is the input with maximal whitespace runs cut from both ends: what is cut is whitespace, and the result neither starts nor ends with whitespace |
| Strings.StripEmptyIffBlank | app.py:45-47 | stripping yields the empty string exactly when every character is whitespace |
| Strings.StripIdempotent | app.py:23 | stripping twice equals stripping once |
| Strings.Contains | app.py:61-62 | substring search is true exactly when the pattern occurs at some position |
| Columns.CleanHeader | app.py:22-33 | the number of rows is kept and every row is as long as the new header (which cells stay is stated by PruneKeepsCell); every kept name is stripped and not on the drop list; a name is kept iff it is the stripped form of some original name and not on the drop list |
| Columns.PruneHeaderAppend | app.py:31-33 | pruning distributes over concatenation of headers |
| Columns.PruneKeepsCell | app.py:31-33 | dropping columns leaves the cell found under any non-dropped column name unchanged |
| Columns.MissingFrom | app.py:36-37 | a required name is reported missing iff it is not in the header; the list is no longer than the required list |
| Columns.MissingFromAppend | app.py:37 | the missing list of a concatenation is the concatenation of the missing lists |
| Columns.NothingMissingIffComplete | app.py:37-38 | the missing list is empty iff every required column is present |
| Rows.PresentIffVisible | app.py:44-47 | a cell passes the emptiness test iff it is text with at least one non-whitespace character |
| Rows.FilterRows | app.py:43-48 | a row is kept iff it is one of the input rows with a present Vendor and Country Destination; the result is no longer than the input |
| Rows.FilterRowsAppend | app.py:43-48 | filtering distributes over concatenation, so it is a stable, order-preserving selection |
| Rows.Amount | app.py:54-55 | a parseable cell yields its parsed value; an empty or unparseable cell yields 0 |
| Rows.Coerce | app.py:53-55 | the descriptive fields are untouched and each amount is coerced independently |
| Recalculation.Recalc | app.py:57-65 | Revenue and the descriptive fields never change; a matching vendor gets Cost 0 and Profit = Revenue - Cost; any other row is unchanged |
| Recalculation.RecalcIdempotent | app.py:60-65 | applying the rule twice equals applying it once |
| Recalculation.RecalcRowsEffect | app.py:60-65 | row by row: matching rows get Cost 0 and Profit = their Revenue, others stay as they were, and the number of matching rows does not change |
| Recalculation.CountMatching | app.py:149 | the count is at most the number of rows; it is 0 iff no vendor matches and equals the row count iff every vendor matches |
| Recalculation.CountMatchingAppend | app.py:149 | the count over a concatenation is the sum of the counts |
| Grouping.Distinct | app.py:72 | a value is in the result iff it is in the input; no value repeats; values appear in order of first occurrence |
| Grouping.Members | app.py:76 | a row is in a group iff it is an input row with that group's key |
| Grouping.MembersAppend | app.py:76-79 | selecting a group's rows distributes over concatenation |
| Grouping.Groups | app.py:70-76 | one nonempty group per distinct key, in first-occurrence order; every row of a group carries that group's key |
| Grouping.SameKeyOneGroup | app.py:72-76 | two rows with the same pair form one group holding both, in order |
| Grouping.TwoKeysTwoGroups | app.py:72-76 | two rows with different pairs form two singleton groups, in row order |
| Grouping.GroupsPartition | app.py:74-88 | the groups together hold every input row exactly once (the concatenation is a permutation of the input) |
| Layout.TotalPermutation | app.py:91-93 | totals depend only on the multiset of rows, not their order |
| Layout.SubtotalOf | app.py:90-104 | a subtotal row holds the column sums of its group |
| Layout.EmitProjections | app.py:74-117 | the detail rows are the groups concatenated; the subtotals are the group totals in order; there are 5 spacers per gap; so the length is rows + groups + 5(groups - 1) |
| Layout.EmitEndsWithSubtotal | app.py:106-107 | the output ends with a subtotal, never with spacers |
| Layout.EmitAppend | app.py:106-117 | the output for two runs of groups is the first output, five spacers, then the second output |
| Layout.GrandTotal | app.py:90-104 | the subtotals add up to the totals of all rows |
| FileNames.Replace | app.py:134 | the length is kept, every result character is allowed, every allowed input character is kept in place, and every other character becomes '_' |
| FileNames.JoinSplit | app.py:136 | joining the pieces of a split with the separator gives back the string |
| FileNames.SplitJoin | app.py:136 | splitting a join of separator-free pieces gives back the pieces |
| FileNames.CollapseTidy | app.py:135-136 | after collapsing there is no leading, trailing or doubled '_' |
| FileNames.CollapseFixedIffTidy | app.py:135-136 | collapsing leaves a string unchanged iff it already has no leading, trailing or doubled '_' |
| FileNames.CollapseKeepsOtherChars | app.py:135-136 | collapsing changes only underscores: with '_' removed, input and output agree |
| FileNames.Sanitize | app.py:133-139 | the replaced and collapsed stem cut to its first 50 characters; hence at most 50 characters, all allowed, no leading or doubled '_', and tidy whenever the cut at 50 does not bite |
| FileNames.SanitizeIdempotent | app.py:133-139 | sanitising a sanitised stem with no trailing '_' changes nothing |
| Pipeline.Message | app.py:38-51 | every error message starts with "Error: " and a missing-column message mentions every missing and every available column |
| Pipeline.OutputFileName | app.py:130-142 | the name is the timestamp, '_', the sanitised stem of the input name, then ".csv"; so its middle is at most 50 allowed characters |
| Pipeline.LayoutLength | app.py:74-117 | a nonempty table has at least one group, and its report has one row per record, one subtotal per group and five spacers per gap |
| Pipeline.BuildReport | app.py:67-165 | for a nonempty filtered table: the summary counts are consistent, the row count follows the layout formula, the preview is the first min(20, n) rows |
| Pipeline.Process | app.py:9-165 | the missing-columns error iff a required column is absent, with exactly the missing names in the order of the required list and the cleaned header; the no-rows error iff no row survives; otherwise a report with at least one row and one group, the layout length formula, a preview that is exactly the first min(20, n) output rows, and the file name |
| Pipeline.ProcessContent | app.py:54-159 | on success the detail rows are the prepared rows regrouped (a permutation, equal to the groups concatenated); the subtotals are the group totals and sum to the grand total; the summary counts are those of the prepared rows |
| WrittenGrouping.WrittenGroups | app.py:71-76 | the grouping as written: one group per distinct string key (NaN included), each selecting the rows whose key equals it |
| WrittenGrouping.NullTrunkRowVanishes | app.py:71-76 | for any row with a text key followed by a row with an empty Trunk Group, the written grouping gives groups [[first], []]: the report has 8 rows, only the first as a detail, and ends in a zero subtotal; the pair grouping gives [[first], [second]] and a 9-row report with both details |
| WrittenGrouping.SeparatorMergesGroups | app.py:71 | for any strings t, x, c and the three-bar key separator, the rows with trunk t + separator + x and country c, and with trunk t and country x + separator + c, have different pairs but form one written group, while the pair grouping gives two groups |
| WrittenGrouping.WrittenAgreesOnPlainRows | app.py:71-76 | when every key field is text and no Trunk Group contains a bar character, the written grouping equals the pair grouping |
| Scenarios.VendorCodes | app.py:60-63 | "OPS-1" and "Ivg Carrier" match the vendor rule, "ACME" does not |
| Scenarios.PatternAtStartMatches | app.py:60-63 | a vendor whose upper-cased name starts with OPS or IVG matches the recalculation rule |
| Scenarios.OneGroupWithOpsVendor | app.py:57-104 | an ACME row and an OPS-1 row of the same key give: the ACME detail unchanged, the OPS detail with Cost 0 and Profit = Revenue, then one subtotal of the recalculated amounts |
| Scenarios.OneGroupAfterRecalc | app.py:57-104 | the same for any vendor patterns, when only the second row's vendor matches |
| Scenarios.TwoGroupsAreSpaced | app.py:106-117 | two rows of different keys give: detail, its subtotal, five spacers, detail, its subtotal |
| Scenarios.BlankVendorIsDropped | app.py:43-48 | next to a row with Vendor "ACME" and destination "US", a row whose Vendor is two spaces is dropped by the filter |

## Left out

- The Gradio interface, the archive of processed files (list, download, delete) and the verification scripts.
  They are outside the transformation.
- Reading and writing CSV and creating the output directory.
  The model starts from a parsed table and returns rows, a summary and a file name.
- The HTML rendering of the preview and the wording of the summary text.
  The model returns the preview rows and the summary numbers.
- The clock: the timestamp is a parameter.
- The catch-all exception handler (app.py:167-168).
  The model has no exceptions.
  pandas dtype errors are the notable case.
  Building the group key at app.py:71 adds strings to the Trunk Group and Country Destination columns.
  That raises a TypeError, answered with "Error processing file: ..." (app.py:167-168), when pandas reads either column as numbers:
  - a Trunk Group column that is entirely empty, read as float;
  - a Trunk Group column of numeric trunk IDs, read as integers, or as floats when some cells are empty;
  - a Country Destination column of numbers only.
- Pipeline.Process: on the inputs above it returns `Success` with a report, where the program returns that error.
  The model reads every cell as text, so it does not see the column's type.
- Floating point: amounts are whole cents.
  Rounding to two decimals (app.py:91-93) is therefore exact, and float summation error is not modelled.
- pandas type inference: a column read as numbers, or a cell parsed as a number, is modelled as its text.
  The `parse` parameter stands for `pd.to_numeric`.
- Duplicate column names after stripping: lookups use the first column of that name.
  pandas would return several columns.
- Case mapping and whitespace are ASCII only.
  `str.upper` and `str.isspace` are Unicode-aware in Python.
  `str.isalnum` is a parameter.
- The vendor patterns: the code matches only `OPS` and `IVG` (`Recalculation.DefaultPatterns`).
  The patterns are a parameter so that the rule can be stated generally.
- Strings.Contains: `str.contains` at app.py:61-62 is a regular-expression search.
  Plain substring search agrees with it for `OPS` and `IVG`.
  For the pattern parameter it is exact only for codes without regular-expression metacharacters.
- Recalculation.Recalc: the docstring (app.py:14) and the interface text (app.py:325) say that OPS/IVG rows have Cost and Profit cleared.
  The code (app.py:64-65) sets Cost to 0 and Profit to Revenue, and the model follows the code.
- FileNames.SanitizeIdempotent: requires the sanitised stem not to end in '_'.
  Cutting at 50 characters can leave a trailing '_', which a second pass would remove.
- The written grouping (`WrittenGrouping.WrittenGroups`) is modelled only to show the findings.
  The rest of the pipeline groups by the (Trunk Group, Country Destination) pair.

## Findings

| source | as written | input that shows it | evidently intended | confidence | as-written member | corrected member |
|---|---|---|---|---|---|---|
| app.py:71-76 | the group key is NaN when Trunk Group is empty; `== NaN` selects no row | two rows, trunks "T1" and empty, same country | every row appears under a group, with its amounts in the subtotal | medium, not executed | WrittenGrouping.NullTrunkRowVanishes | Grouping.GroupsPartition |
| app.py:71 | the group key is the string Trunk Group + the three-bar separator + Country Destination | trunk "T" + separator + "X" with country "US", and trunk "T" with country "X" + separator + "US" | group by the pair, so different pairs are never merged | high, not executed | WrittenGrouping.SeparatorMergesGroups | Grouping.Groups |

For the first row:

- Written report: one detail row and a zero subtotal for the NaN key, 8 rows in all.
- Pair grouping: 9 rows, and every input row appears.
- `WrittenGrouping.WrittenAgreesOnPlainRows` proves that the two groupings coincide whenever neither issue can arise.

# Insurance-premium preprocessing, modelled in Dafny

This project models the two rules in `src/data/data_preprocessing.py` of the
insurance-premium pipeline, together with the flow that applies them:

- **Policy age** (`age`). The whole number of years from a policy start date to
  "today". It is the year difference, less one when today's (month, day) comes
  lexicographically before the start (month, day). `PolicyAge.Age` proves that
  this is exactly the number of anniversaries already reached.
- **IQR outlier removal** (`outlier_removal`). With quartiles Q1 and Q3, the
  fences are `Q1 - 1.5*IQR` and `Q3 + 1.5*IQR`. Two `np.where` scans collect the
  positions at or above the upper fence and at or below the lower fence.
  `drop(..., inplace=True)` then removes those rows from the table object itself.
  `drop` returns `None`, so the chained `.reset_index(drop=True)` always raises.
  The `except` branch logs that error and returns the already-filtered object.
  So every call logs an error, and the survivors keep their original labels.
  The `except` branch returns the table object it already changed, not a copy
  of its input.
- **Flow** (`preprocess_data`, `main`). Both tables gain a `Policy Age` column.
  Only the train table is filtered. Both are then handed to the writer, which
  drops the index labels (`to_csv(index=False)`).

A table is the class `Tables.Table`. Its `entries` field holds each row with its
index label, and `Drop` and `AddPolicyAge` reassign that field in place.
`np.where` reports positions, but `drop` removes rows by label. The model keeps
these apart, so `RemoveOutliers` is stated for any labelling. On a table labelled
0..n-1, which is what `read_csv` builds, the result is exactly the rows strictly
inside the fences, in their original order (`KeepWithin`). A missing premium
(NaN) compares false with both fences, so its row always survives.

Parameters stand in for what lies outside the model:
- "today" (`date.today()`);
- the parsed start dates (a `Timestamp` is either a parsed date or text that the
  format rejects);
- the quartiles Q1 and Q3;
- the loaded CSV rows.

`Preprocessing.Run` returns the two tables that would be saved, or `None` when
a malformed date aborts the run.

## Model

| member | source | states |
|---|---|---|
| PolicyAge.Age | src/data/data_preprocessing.py:25-31 | the result r is the number of whole years elapsed: the r-th anniversary of the start date is on or before today and the (r+1)-th is after it; r is the year difference exactly when today's (month, day) is not before the start's, and one less exactly when it is |
| PolicyAge.AgeIsUnique | src/data/data_preprocessing.py:29-31 | any k whose k-th anniversary is reached and whose (k+1)-th is not equals the age |
| PolicyAge.AgeBounds | src/data/data_preprocessing.py:29-31 | the age lies between the year difference minus one and the year difference |
| PolicyAge.AgeNonNegativeIff | src/data/data_preprocessing.py:29-31 | the age is non-negative if and only if the start date is on or before today |
| PolicyAge.AgeOnAnniversary | src/data/data_preprocessing.py:29-31 | on the n-th anniversary the age is n; one day earlier in the same month it is n - 1 |
| PolicyAge.AgeMonotone | src/data/data_preprocessing.py:29-31 | the age never decreases as today moves later |
| Tables.Table.Load | src/data/data_preprocessing.py:83-84 | a loaded table holds the rows in file order under labels 0..n-1 |
| Tables.Table.Drop | src/data/data_preprocessing.py:44 | when every target is a label, exactly the rows carrying a targeted label are removed, in place, and the survivors keep their order and labels; otherwise the table is unchanged and the drop fails |
| Tables.WithoutMembership | src/data/data_preprocessing.py:44 | a row survives a drop if and only if it was present and its label is not targeted |
| OutlierRemoval.IqrBounds | src/data/data_preprocessing.py:37-39 | the fences are 4 IQR apart and each is 1.5 IQR beyond its quartile; with Q1 <= Q3, lower <= Q1 <= Q3 <= upper |
| OutlierRemoval.WhereMembership | src/data/data_preprocessing.py:41-42 | a position is reported if and only if it is in range and its premium lies at or beyond the bound on that side (NaN never does) |
| OutlierRemoval.WhereAscending | src/data/data_preprocessing.py:41-42 | reported positions are strictly ascending and below the row count |
| OutlierRemoval.WhereHits | src/data/data_preprocessing.py:41-42 | the row-by-row scan returns exactly the ascending positions whose premium hits the bound |
| OutlierRemoval.OutlierTargetsMembership | src/data/data_preprocessing.py:41-44 | the concatenated targets are exactly the positions whose premium is at or beyond either fence |
| OutlierRemoval.KeepWithinMembership | src/data/data_preprocessing.py:41-44 | a row is kept if and only if it was present and its premium is missing or strictly between the fences |
| OutlierRemoval.KeepWithinConcat | src/data/data_preprocessing.py:41-44 | filtering distributes over concatenation, so survivors keep their relative order |
| OutlierRemoval.KeepWithinIdentity | src/data/data_preprocessing.py:41-46 | the filter returns the same rows and contents if and only if no premium is at or beyond a fence |
| OutlierRemoval.KeepWithinShorter | src/data/data_preprocessing.py:41-44 | filtering never adds rows |
| OutlierRemoval.KeepWithinSingleOutlier | src/data/data_preprocessing.py:41-44 | when exactly one row is beyond the fences, that row and no other is removed |
| OutlierRemoval.WithoutIsKeepWithin | src/data/data_preprocessing.py:41-44 | dropping a label set that marks exactly the out-of-fence rows yields the rows within the fences |
| OutlierRemoval.RangeLabeledDropIsKeepWithin | src/data/data_preprocessing.py:41-44 | on a 0..n-1 labelled table every reported position is a label, and the drop leaves exactly the rows within the fences |
| OutlierRemoval.RemoveOutliers | src/data/data_preprocessing.py:33-49 | returns the same table object; it logs KeyError and leaves the table unchanged if and only if some target is not a label; otherwise it removes the targeted labels in place and logs the failed reset_index; on a 0..n-1 labelled table it always does the latter, and the result is the rows within the fences with their labels kept |
| Preprocessing.WithAgeColumn | src/data/data_preprocessing.py:88-89 | the new column gives each row the age of its start date and leaves its label, start date, premium and other cells unchanged |
| Preprocessing.WithAgeColumnRangeLabeled | src/data/data_preprocessing.py:88-89 | adding the age column keeps the default 0..n-1 labels |
| Preprocessing.AddPolicyAge | src/data/data_preprocessing.py:88-89 | succeeds if and only if every start date parses; on success the table is the aged rows, otherwise it is unchanged |
| Preprocessing.PreprocessData | src/data/data_preprocessing.py:51-59 | returns the same table, filtered in place exactly as by the outlier removal: unchanged if and only if some reported position is not a label, otherwise without the targeted labels; on a 0..n-1 labelled table, the rows within the fences; the error never propagates |
| Preprocessing.Run | src/data/data_preprocessing.py:78-97 | the run saves output if and only if every start date in both tables parses; the saved test table is its loaded rows with their ages; the saved train table is its aged rows within the fences, in order |
| Preprocessing.TestTableKeepsItsRows | src/data/data_preprocessing.py:88-91 | the written test table has exactly the loaded row count, and each row differs from its loaded row only in its Policy Age |

## Left out

- Logging setup and handlers (lines 8-23) are side-effecting I/O. Which error is logged is returned as a `Logged` value instead.
- Timestamp parsing with `strptime` (line 27) to a date is library code. A start date arrives already parsed, or marked as text the format rejects.
- `date.today()` (line 28) is the ambient clock. It is one `today` parameter. The source reads the clock once per row, so a run that crosses midnight is not modelled.
- Pandas' interpolating `quantile` (lines 35-36) is library numerics. Q1 and Q3 are parameters. When there are no numeric premiums, the quartiles are NaN and pandas removes nothing; that case is not modelled.
- IEEE floating-point rounding in the fence arithmetic is not modelled. Fences and premiums are exact reals.
- CSV reading and writing, and directory creation (lines 61-76, 83-84), are file-system I/O. `Run` returns the rows that would be written, and a failed save, which re-raises, is not modelled.
- Printing the top-level error (line 97) is process plumbing. A malformed date makes `Run` return `None`, and nothing is saved.
- A missing `Premium Amount` column, or a non-numeric one (an exception at lines 35-36), is not modelled, because records always carry a premium.
- Columns other than the three the script touches are opaque text cells that travel with their row.

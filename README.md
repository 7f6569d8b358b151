# PAV Sheet Merger — a verified model of the merge engine

The PAV Sheet Merger combines Physical Asset Verification sheets filled in by
several engineers into one sheet. The first loaded sheet is the seed. The
rows of every later sheet are folded into it in file order. A row whose
`Asset Code` is not yet in the merged sheet is appended. A row whose code is
already there is merged column by column into the first row with that code:

- an empty cell never overwrites;
- a non-empty cell fills an empty one;
- between two different non-empty values, the latest wins and a conflict
  record ("Using latest") goes into the merge report.

The report counts the assets of the seed, the files processed, the merged
updates (one per appended row, plus one per overwritten cell) and the list
of conflicts.

The model has four modules:

- `Cells` (`cells.dfy`): cells, either empty (NaN / None / a blank cell) or
  holding a text or a number. It also holds the two per-cell decisions,
  `_should_update` and `_is_conflict`.
- `MergeSpec` (`merge_spec.dfy`): the merge as a pure fold, at four levels:
  the column loop (`MergeFields`), one incoming row (`MergeIncoming`), the row
  loop (`MergeRows`) and the file loop (`MergeTables`, `Merge`).
- `PavMerger` (`pav_merger.dfy`): the `PAVMerger` class with its loaded sheets
  and its merge report. `merge_sheets` is written as the source writes it, as
  nested `while` loops that update the report fields in place. It is split
  into one method per loop level: `MergeSheets` runs over the files,
  `MergeFile` over the rows, `MergeRow` handles one row and
  `UpdateMatchedRow` runs over the columns. Each is proved to compute exactly
  the fold of `MergeSpec`.
- `MergeLemmas` (`merge_lemmas.dfy`): what the merge promises, proved about
  the fold. This covers precedence per field, the effect of one row, seed rows
  kept in place, exactly which rows are appended and in what order, bounds on
  the report, unique keys staying unique, self-merge and two worked
  scenarios.

Behaviour of the code that the model keeps, including its edge cases:

- An empty seed list ends the program (`sys.exit(1)`). The model returns
  `Err(NoDataframes)` and leaves the report unchanged.
- Keys match by elementwise `==` on the key column. An empty key equals
  nothing, not even another empty key, so an incoming row with an empty key
  is always appended (`MergeSpec.FirstMatch`).
- Emptiness is `pd.isna`. A cell holding the empty string is a value, not an
  empty cell. A blank spreadsheet cell is read as empty, and the "filled
  Notes" scenario is modelled that way.
- `updates_merged` and `conflicts` are added to, never reset. A second call
  to `merge_sheets` adds to the first call's report, and `MergeSheets` states
  its new report relative to the old one.
- Merging an already-merged output again together with the same input
  sheets depends on the order. With the output as the first sheet, the
  conflicts among the inputs are recorded again (pav_merger.py:119-128): each
  later sheet's differing non-empty value overwrites the merged one and is
  logged. With the output as the last sheet, the re-run ends exactly where
  the first merge did: the same rows, the same `updates_merged` and the same
  conflict list (`OutputMergedLastAddsNothing`). Merging the merged sheet
  with itself changes nothing and records nothing (`SelfMerge`,
  `MergedOutputIsStable`). These need every row to have a non-empty key and
  the seed's keys to be unique.

## Model

| member | source | states |
|---|---|---|
| Cells.ShouldUpdate | pav_merger.py:140-164 | an incoming value replaces the current one exactly when it is non-empty and differs from it; an empty incoming value never overwrites; an empty current value is always filled by a non-empty one |
| Cells.IsConflict | pav_merger.py:166-168 | a conflict is exactly an update where the current value is non-empty too (both non-empty and different); every conflict is an update; an empty current value is never a conflict |
| MergeSpec.UpdateColumns | pav_merger.py:86-88 | a column is eligible for update exactly when it is a seed column other than the key column and the two placeholders `__EMPTY`, `__EMPTY_1`; there are no more of them than seed columns |
| MergeLemmas.UpdateColumnsInOrder | pav_merger.py:86-88 | the eligible columns are the seed's columns in the seed's order with the key column and the placeholders taken out: they sit at strictly increasing positions of the seed's columns, and every skipped position holds the key column or a placeholder |
| MergeSpec.FirstMatch | pav_merger.py:101-111 | the result is the first row whose key equals the asset code: that row matches and no earlier row does; there is no result exactly when no row matches; an empty asset code never matches |
| MergeSpec.MergeFields | pav_merger.py:114-132 | the column loop on a matched row keeps that row's set of columns |
| MergeSpec.MergeIncoming | pav_merger.py:98-136 | after one incoming row, every merged row still has every seed column |
| MergeSpec.MergeRows | pav_merger.py:98-136 | after the row loop, every merged row still has every seed column |
| MergeSpec.MergeTables | pav_merger.py:91-136 | after the file loop, every merged row still has every seed column |
| MergeSpec.Merge | pav_merger.py:70-138 | the merge fails exactly when no sheet is loaded |
| PavMerger.PAVMerger.constructor | pav_merger.py:22-40 | a new merger keeps its files, output file (default `merged_pav_sheet.xlsx`) and key column (default `Asset Code`), has no sheets loaded and an all-zero report with no conflicts |
| PavMerger.PAVMerger.RecordLoaded | pav_merger.py:50-55 | a loaded sheet is appended to the loaded sheets and `files_processed` goes up by one; nothing else changes |
| PavMerger.PAVMerger.MergeSheets | pav_merger.py:60-138 | with no sheets it fails and changes nothing; otherwise it returns the seed's columns with the rows of the fold `Merge`, sets `total_assets` to the seed's row count, adds the fold's updates and conflicts to the report, and leaves the loaded sheets, `files_processed`, the files and the output file unchanged |
| PavMerger.PAVMerger.MergeFile | pav_merger.py:91-136 | one pass of the file loop moves the merged rows, `updates_merged` and the conflict list exactly as the row fold `MergeRows` does, starting from the report's current values |
| PavMerger.PAVMerger.MergeRow | pav_merger.py:98-136 | one incoming row moves the merged rows and the report exactly as `MergeIncoming` does: it is appended with one update, or merged into the first matching row, and the overwrite count is added only when positive |
| PavMerger.PAVMerger.UpdateMatchedRow | pav_merger.py:111-133 | the column loop replaces only the matched row, by the row `MergeFields` computes, returns its overwrite count, and appends its conflicts, in column order, to the report |
| MergeLemmas.LatestNonEmptyWins | pav_merger.py:114-131 | after merging a matched row, each eligible cell holds the incoming value when that is non-empty and its previous value otherwise; every other column is untouched |
| MergeLemmas.JudgedAgainstOriginal | pav_merger.py:114-132 | with distinct columns, the overwrite count and the conflict list of a matched row equal the independent definitions that judge each column against the row as it was before the merge |
| MergeLemmas.ConflictRecords | pav_merger.py:119-132 | a matched row has no more conflicts than overwrites; each record names the asset and an eligible column, holds two different non-empty values, carries "Using latest", and its `value2` is the incoming value now stored in that cell |
| MergeLemmas.MergeFieldsWithItself | pav_merger.py:114-132 | merging a row into an equal row changes nothing, counts nothing and records no conflict |
| MergeLemmas.UpdateColumnsDistinct | pav_merger.py:86-88 | distinct seed columns give distinct eligible columns |
| MergeLemmas.MergeIncomingEffect | pav_merger.py:98-136 | an unmatched row is appended with exactly one update and no conflict; a matched row changes only the first matching row, keeps its key, placeholders and other non-eligible cells, makes the latest non-empty value win in each eligible cell, and (with distinct columns) adds exactly the reference count and conflicts to the report |
| MergeLemmas.MergeIncomingGrows | pav_merger.py:98-136 | one incoming row keeps every existing row in place with its non-eligible cells, only extends the conflict list with valid records, and adds at least one update per appended row and per conflict |
| MergeLemmas.MergeRowsGrows | pav_merger.py:98-136 | the row loop keeps the same growth invariant and adds at most one row per incoming row |
| MergeLemmas.MergeTablesGrows | pav_merger.py:91-136 | the file loop keeps the same growth invariant and adds at most as many rows as the later sheets hold |
| MergeLemmas.FirstMatchKeySet | pav_merger.py:101-104 | no merged row matches an incoming row exactly when its key is empty or is not among the merged rows' non-empty keys |
| MergeLemmas.MergeIncomingAppends | pav_merger.py:98-108 | an incoming row is appended exactly when its key is empty or new; otherwise the merged rows keep their key column; either way the set of keys gains the row's key |
| MergeLemmas.MergeRowsAppends | pav_merger.py:98-136 | after the row loop, the key column is the old key column followed by the keys of exactly the rows the reference `NewRows` lists (the incoming rows, in order, whose key is empty or not seen before them), and the key set gains every incoming key |
| MergeLemmas.MergeTablesAppends | pav_merger.py:91-136 | the same over the file loop, with the later sheets' rows taken table after table |
| MergeLemmas.AppendedRowsInOrder | pav_merger.py:77-138 | rows met only in later sheets are appended after all of the seed's rows, one per such row, in the order first met: the merged key column is the seed's followed by those rows' keys, so the merged sheet has exactly the seed's row count plus their number; every non-empty key of every sheet is in the merged sheet |
| MergeLemmas.MergeShape | pav_merger.py:77-138 | the seed's rows stay first, in order, with their key, placeholder and other non-eligible cells unchanged; no row is dropped; at most one row is added per later row; every conflict is a valid "Using latest" record; `updates_merged` is at least the number of appended rows plus conflicts |
| MergeLemmas.FirstMatchStable | pav_merger.py:101-111 | once a row is the first match for a key, it stays the first match while rows are only added or have eligible cells changed |
| MergeLemmas.AppendedRowMatchedLater | pav_merger.py:102-111 | a row appended for a new non-empty key is the row that every later row of the same sheet with that key is merged into |
| MergeLemmas.MergeRowsConcat | pav_merger.py:98-136 | running the row loop over two lists one after the other gives the same merged rows and report as running it once over their concatenation |
| MergeLemmas.MergeTablesAsRows | pav_merger.py:91-136 | the file loop gives the same merged rows and report as one row loop over all later sheets' rows, table after table |
| MergeLemmas.AppendedRowMatchedByLaterSheets | pav_merger.py:91-111 | a row appended for a new non-empty key is the row that every later row with that key is merged into, in the rest of its sheet and in every sheet after it |
| MergeLemmas.MergeIncomingKeys | pav_merger.py:98-136 | one incoming row never creates two rows with the same non-empty key, and keeps every row keyed when the incoming key is non-empty |
| MergeLemmas.MergeRowsKeys | pav_merger.py:98-136 | the row loop keeps non-empty keys unique, and keeps every row keyed when all incoming rows are keyed |
| MergeLemmas.MergeTablesKeys | pav_merger.py:91-136 | the whole merge keeps non-empty keys unique, and keeps every row keyed when all inputs are keyed |
| MergeLemmas.FirstMatchOwnKey | pav_merger.py:101-111 | in a sheet with unique non-empty keys, a row's own key finds that row |
| MergeLemmas.MergeRowsWithItself | pav_merger.py:98-136 | folding a sheet's own rows into it (unique non-empty keys) leaves the rows unchanged, with no update and no conflict |
| MergeLemmas.SelfMerge | pav_merger.py:70-138 | merging a sheet with itself, when its keys are non-empty and unique, returns its rows unchanged with zero updates and no conflicts |
| MergeLemmas.MergedOutputIsStable | pav_merger.py:70-138 | when the seed's keys are unique and every input row is keyed, merging the merged sheet with itself changes nothing and records no conflict |
| MergeLemmas.OutputMergedLastAddsNothing | pav_merger.py:70-138 | when the seed's keys are unique and every input row is keyed, merging the same sheets followed by their merged output gives exactly the first merge: the same rows, `updates_merged` and conflict list |
| MergeLemmas.ConflictStep | pav_merger.py:114-132 | a later "Pending" for A1 overwrites the seed's "Verified" with one update and one conflict record |
| MergeLemmas.AppendStep | pav_merger.py:101-108 | after A1 is merged, a later row for the new code A2 is appended with one more update and no new conflict |
| MergeLemmas.ConflictAndAppendExample | pav_merger.py:91-138 | sheets A = [A1 Verified] and B = [A1 Pending, A2 Verified] merge to [A1 Pending, A2 Verified] with two updates and one A1/Status conflict ("Verified" vs "Pending") |
| MergeLemmas.FillEmptyExample | pav_merger.py:91-138 | a blank A1 Notes cell is filled by a later "Checked" with one update and no conflict |

## Left out

- Reading the sheets (`pd.read_excel` in `load_files`) and exiting on a read error are I/O. Each read table is a parameter of `RecordLoaded`, which keeps the bookkeeping of a successful load.
- The file name stored with each loaded sheet is only printed, so the loaded sheets are modelled as tables alone.
- `save_output`, `print_report`, every `print`, and `main` with its argument parsing are output and a command-line front end, so they are not modelled.
- `sys.exit(1)` on an empty sheet list is modelled as the `Err(NoDataframes)` result, not as ending the process.
- The conversion of columns to the `object` dtype only changes pandas' storage types, which the model's cells do not have.
- `pd.concat` builds the union of columns and fills new columns with NaN when an appended row has columns the merged sheet lacks. The model appends the row's map as it is and does not add missing columns to the other rows.
- `WellFormed`: the model assumes that the key column is one of the seed's columns and that every row of every sheet carries all of the seed's columns. The code is more lenient. A single sheet merges without looking up the key (pav_merger.py:77-88). An incoming row lacking a seed column is appended by `pd.concat` with that column filled with NaN (pav_merger.py:106). The code raises a `KeyError` only when the seed lacks the key column and a later sheet has at least one row (pav_merger.py:102), when an incoming row lacks the key column (pav_merger.py:99), or when an incoming row that matches lacks an eligible column (pav_merger.py:115). Sheets of those other shapes, and the error, are not modelled.
- Cell values are text or numbers. Dates, booleans and pandas' numeric promotion are not modelled, and numbers compare by value.
- The unused `column` argument of `_should_update` is dropped from `ShouldUpdate`.
- MergeShape: states that `updates_merged` is at least the number of appended rows plus the number of conflicts, not its exact value for a whole merge. `MergeIncomingEffect` gives the exact value for one row.
- MergedOutputIsStable: proves that merging the merged sheet with itself is stable. Re-merging the output together with the same inputs is stable only with the output last (`OutputMergedLastAddsNothing`); with the output first the code records the inputs' conflicts again, so no lemma states stability for that order.

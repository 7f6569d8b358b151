/** The merge engine object: the loaded sheets, the key column and the merge
    report, with `merge_sheets` as nested loops over files, rows and columns. */
module PavMerger {
  import opened Cells
  import opened MergeSpec

  class PAVMerger {
    var files: seq<string>
    var outputFile: string
    const keyColumn: Column
    /** The sheets loaded so far, in file order. */
    var dataframes: seq<Table>
    // the merge report
    var totalAssets: nat
    var filesProcessed: nat
    var updatesMerged: nat
    var conflicts: seq<Conflict>

    constructor (files: seq<string>, outputFile: string := "merged_pav_sheet.xlsx", keyColumn: Column := "Asset Code")
      ensures this.files == files && this.outputFile == outputFile && this.keyColumn == keyColumn
      ensures dataframes == []
      ensures totalAssets == 0 && filesProcessed == 0 && updatesMerged == 0 && conflicts == []
    {
      this.files := files;
      this.outputFile := outputFile;
      this.keyColumn := keyColumn;
      dataframes := [];
      totalAssets, filesProcessed, updatesMerged := 0, 0, 0;
      conflicts := [];
    }

    /** The bookkeeping of one successfully read sheet: it joins the loaded
        sheets and `files_processed` goes up by one. */
    method RecordLoaded(data: Table)
      modifies this
      ensures dataframes == old(dataframes) + [data]
      ensures filesProcessed == old(filesProcessed) + 1
      ensures files == old(files) && outputFile == old(outputFile)
      ensures totalAssets == old(totalAssets) && updatesMerged == old(updatesMerged) && conflicts == old(conflicts)
    {
      dataframes := dataframes + [data];
      filesProcessed := filesProcessed + 1;
    }

    /** Merges the loaded sheets. With none loaded it fails and changes nothing;
        otherwise it returns the seed's columns with the merged rows, records
        the seed's row count as `total_assets` and adds the merge's updates and
        conflicts to the report. */
    method MergeSheets() returns (result: Result<Table>)
      requires WellFormed(dataframes, keyColumn)
      modifies this
      ensures dataframes == old(dataframes) && filesProcessed == old(filesProcessed)
      ensures files == old(files) && outputFile == old(outputFile)
      ensures match Merge(dataframes, keyColumn)
        case Err(e) =>
          result == Err(e) && totalAssets == old(totalAssets) &&
          updatesMerged == old(updatesMerged) && conflicts == old(conflicts)
        case Ok(s) =>
          result == Ok(Table(dataframes[0].columns, s.rows)) &&
          totalAssets == |dataframes[0].rows| &&
          updatesMerged == old(updatesMerged) + s.updates &&
          conflicts == old(conflicts) + s.conflicts
    {
      if |dataframes| == 0 {
        return Err(NoDataframes);
      }
      var tables := dataframes;
      var seedCols := tables[0].columns;
      var merged := tables[0].rows;
      totalAssets := |merged|;
      var updateColumns := UpdateColumns(seedCols, keyColumn);
      ghost var seed := State(merged, 0, []);
      ghost var updates0, conflicts0 := updatesMerged, conflicts;
      assert tables[0] in tables;

      var i := 1;
      while i < |tables|
        invariant 1 <= i <= |tables|
        invariant var s := MergeTables(seed, tables[1..i], seedCols, keyColumn);
          merged == s.rows && updatesMerged == updates0 + s.updates && conflicts == conflicts0 + s.conflicts
        invariant dataframes == tables && filesProcessed == old(filesProcessed)
        invariant files == old(files) && outputFile == old(outputFile) && totalAssets == |tables[0].rows|
      {
        MergeTablesStep(seed, tables, i, seedCols, keyColumn);
        ghost var before := MergeTables(seed, tables[1..i], seedCols, keyColumn);
        ghost var after := MergeRows(before, tables[i].rows, seedCols, keyColumn);
        MergeRowsShift(before, tables[i].rows, seedCols, keyColumn, updates0, conflicts0);
        assert State(merged, updatesMerged, conflicts) == State(before.rows, updates0 + before.updates, conflicts0 + before.conflicts);
        merged := MergeFile(merged, tables[i], seedCols, updateColumns);
        assert State(merged, updatesMerged, conflicts) == State(after.rows, updates0 + after.updates, conflicts0 + after.conflicts);
        i := i + 1;
      }
      assert tables[1..i] == tables[1..];
      return Ok(Table(seedCols, merged));
    }

    /** The body of the file loop of `MergeSheets`: each row of `df`, in order,
        is appended when no merged row has its key, or else merged column by
        column into the first row that has it. The rows and the report move as
        the row fold says. */
    method MergeFile(merged: seq<Row>, df: Table, seedCols: seq<Column>, updateColumns: seq<Column>)
      returns (merged': seq<Row>)
      requires keyColumn in seedCols && AllCarry(merged, seedCols) && AllCarry(df.rows, seedCols)
      requires updateColumns == UpdateColumns(seedCols, keyColumn)
      modifies this`updatesMerged, this`conflicts
      ensures State(merged', updatesMerged, conflicts)
           == MergeRows(State(merged, old(updatesMerged), old(conflicts)), df.rows, seedCols, keyColumn)
    {
      ghost var start := State(merged, updatesMerged, conflicts);
      merged' := merged;
      var r := 0;
      while r < |df.rows|
        invariant 0 <= r <= |df.rows|
        invariant State(merged', updatesMerged, conflicts) == MergeRows(start, df.rows[..r], seedCols, keyColumn)
      {
        MergeRowsStep(start, df.rows, r, seedCols, keyColumn);
        merged' := MergeRow(merged', df.rows[r], seedCols, updateColumns);
        r := r + 1;
      }
      assert df.rows[..r] == df.rows;
    }

    /** The body of the row loop of `MergeSheets`: the incoming `row` is
        appended when no merged row has its key, or else merged column by
        column into the first row that has it, adding the overwrites to
        `updates_merged` only when there were any. */
    method MergeRow(merged: seq<Row>, row: Row, seedCols: seq<Column>, updateColumns: seq<Column>)
      returns (merged': seq<Row>)
      requires keyColumn in seedCols && AllCarry(merged, seedCols) && Carries(row, seedCols)
      requires updateColumns == UpdateColumns(seedCols, keyColumn)
      modifies this`updatesMerged, this`conflicts
      ensures State(merged', updatesMerged, conflicts)
           == MergeIncoming(State(merged, old(updatesMerged), old(conflicts)), row, seedCols, keyColumn)
    {
      var assetCode := row[keyColumn];
      var found := FirstMatch(merged, keyColumn, assetCode);
      MergeIncomingUnfold(State(merged, updatesMerged, conflicts), row, seedCols, keyColumn);
      if found.None? {
        merged' := merged + [row];
        updatesMerged := updatesMerged + 1;
      } else {
        var idx := found.value;
        var updatesCount;
        merged', updatesCount := UpdateMatchedRow(merged, idx, row, updateColumns, assetCode);
        if updatesCount > 0 {
          updatesMerged := updatesMerged + updatesCount;
        }
      }
    }

    /** The column loop of `MergeSheets` on the matched row `idx`: every
        eligible column, in order, is overwritten when the field rule says so,
        and each overwrite of a different non-empty value is appended to the
        conflict list. Returns the new rows and the number of overwritten cells. */
    method UpdateMatchedRow(merged: seq<Row>, idx: nat, row: Row, updateColumns: seq<Column>, assetCode: Cell)
      returns (merged': seq<Row>, updatesCount: nat)
      requires idx < |merged| && Carries(merged[idx], updateColumns) && Carries(row, updateColumns)
      modifies this`conflicts
      ensures var f := MergeFields(merged[idx], row, updateColumns, assetCode);
        merged' == merged[idx := f.row] && updatesCount == f.count && conflicts == old(conflicts) + f.conflicts
    {
      merged' := merged;
      updatesCount := 0;
      ghost var current := merged[idx];
      var j := 0;
      assert updateColumns[..0] == [];
      while j < |updateColumns|
        invariant 0 <= j <= |updateColumns|
        invariant var f := MergeFields(current, row, updateColumns[..j], assetCode);
          merged' == merged[idx := f.row] && updatesCount == f.count &&
          conflicts == old(conflicts) + f.conflicts
      {
        MergeFieldsStep(current, row, updateColumns, j, assetCode);
        var col := updateColumns[j];
        var newValue := row[col];
        var currentValue := merged'[idx][col];
        if ShouldUpdate(currentValue, newValue) {
          if IsConflict(currentValue, newValue) {
            conflicts := conflicts + [Conflict(assetCode, col, currentValue, newValue, UsingLatest)];
          }
          merged' := merged'[idx := merged'[idx][col := newValue]];
          updatesCount := updatesCount + 1;
        }
        j := j + 1;
      }
      assert updateColumns[..j] == updateColumns;
    }
  }
}

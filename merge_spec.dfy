/** The merge of PAV sheets as a pure fold: a seed table, then every row of
    every later table folded into it in order. The imperative engine in
    PavMerger is proved to compute exactly this. */
module MergeSpec {
  import opened Cells

  type Column = string

  /** A row maps column names to cells. */
  type Row = map<Column, Cell>

  /** A sheet: its column order and its rows in order. */
  datatype Table = Table(columns: seq<Column>, rows: seq<Row>)

  /** One entry of the conflict list of the merge report. */
  datatype Conflict = Conflict(asset: Cell, column: Column, value1: Cell, value2: Cell, resolution: string)

  datatype MergeError = NoDataframes

  datatype Option<T> = None | Some(value: T)

  datatype Result<T> = Ok(value: T) | Err(error: MergeError)

  /** The resolution label every conflict record carries. */
  const UsingLatest: string := "Using latest"

  /** Placeholder column names that are carried through but never merged. */
  const Placeholders: seq<Column> := ["__EMPTY", "__EMPTY_1"]

  /** The accumulator of the fold: merged rows, `updates_merged` and the
      conflict list. */
  datatype State = State(rows: seq<Row>, updates: nat, conflicts: seq<Conflict>)

  /** What merging one matched row produced: the new row, the number of
      overwritten cells and the conflicts recorded, in column order. */
  datatype FieldsOutcome = FieldsOutcome(row: Row, count: nat, conflicts: seq<Conflict>)

  predicate Carries(row: Row, cols: seq<Column>) {
    forall c :: c in cols ==> c in row
  }

  predicate AllCarry(rows: seq<Row>, cols: seq<Column>) {
    forall row :: row in rows ==> Carries(row, cols)
  }

  /** What the merge demands of its input: the seed has the key column and
      every row of every table has every column of the seed. */
  predicate WellFormed(tables: seq<Table>, key: Column) {
    tables != [] ==>
      key in tables[0].columns &&
      forall t :: t in tables ==> AllCarry(t.rows, tables[0].columns)
  }

  /** A column the merge may update: neither the key column nor a placeholder. */
  predicate Eligible(c: Column, key: Column) {
    c != key && c !in Placeholders
  }

  /** The update-eligible columns: the seed's columns, in order, minus the key
      column and the placeholders. */
  function UpdateColumns(columns: seq<Column>, key: Column): (r: seq<Column>)
    ensures forall c :: c in r <==> c in columns && c != key && c !in Placeholders
    ensures |r| <= |columns|
  {
    if columns == [] then []
    else
      (if Eligible(columns[0], key) then [columns[0]] else [])
      + UpdateColumns(columns[1..], key)
  }

  /** Elementwise `==` against the key column: an empty cell equals nothing,
      not even another empty cell. */
  predicate KeyMatches(cell: Cell, asset: Cell) {
    cell.Val? && cell == asset
  }

  /** The position of the first row whose key matches `asset`. */
  function FirstMatch(rows: seq<Row>, key: Column, asset: Cell): (r: Option<nat>)
    requires forall row :: row in rows ==> key in row
    ensures r.Some? ==> r.value < |rows| && KeyMatches(rows[r.value][key], asset)
    ensures r.Some? ==> forall j :: 0 <= j < r.value ==> !KeyMatches(rows[j][key], asset)
    ensures r.None? <==> forall j :: 0 <= j < |rows| ==> !KeyMatches(rows[j][key], asset)
    ensures asset.Empty? ==> r.None?
  {
    if rows == [] then None
    else if KeyMatches(rows[0][key], asset) then Some(0)
    else
      match FirstMatch(rows[1..], key, asset)
      case None => None
      case Some(i) => Some(i + 1)
  }

  /** One step of the column loop: apply the field rule to column `c`. */
  function MergeCell(acc: FieldsOutcome, incoming: Row, c: Column, asset: Cell): FieldsOutcome
    requires c in acc.row && c in incoming
  {
    var current := acc.row[c];
    var newValue := incoming[c];
    if ShouldUpdate(current, newValue) then
      FieldsOutcome(
        acc.row[c := newValue],
        acc.count + 1,
        acc.conflicts + if IsConflict(current, newValue) then [Conflict(asset, c, current, newValue, UsingLatest)] else [])
    else acc
  }

  /** The column loop over `cols`, in order, on a matched row. */
  function MergeFields(current: Row, incoming: Row, cols: seq<Column>, asset: Cell): (f: FieldsOutcome)
    requires Carries(current, cols) && Carries(incoming, cols)
    ensures f.row.Keys == current.Keys
    decreases |cols|
  {
    if cols == [] then FieldsOutcome(current, 0, [])
    else MergeCell(MergeFields(current, incoming, cols[..|cols| - 1], asset), incoming, cols[|cols| - 1], asset)
  }

  /** One incoming row: appended when no row matches its key, otherwise
      merged field by field into the first matching row. */
  function MergeIncoming(st: State, incoming: Row, seedCols: seq<Column>, key: Column): (r: State)
    requires key in seedCols && AllCarry(st.rows, seedCols) && Carries(incoming, seedCols)
    ensures AllCarry(r.rows, seedCols)
  {
    var asset := incoming[key];
    match FirstMatch(st.rows, key, asset)
    case None => State(st.rows + [incoming], st.updates + 1, st.conflicts)
    case Some(i) =>
      assert st.rows[i] in st.rows;
      var f := MergeFields(st.rows[i], incoming, UpdateColumns(seedCols, key), asset);
      assert forall row :: row in st.rows[i := f.row] ==> row == f.row || row in st.rows;
      State(st.rows[i := f.row], st.updates + f.count, st.conflicts + f.conflicts)
  }

  /** The row loop: every row of one table, in order. */
  function MergeRows(st: State, rows: seq<Row>, seedCols: seq<Column>, key: Column): (r: State)
    requires key in seedCols && AllCarry(st.rows, seedCols) && AllCarry(rows, seedCols)
    ensures AllCarry(r.rows, seedCols)
    decreases |rows|
  {
    if rows == [] then st
    else MergeIncoming(MergeRows(st, rows[..|rows| - 1], seedCols, key), rows[|rows| - 1], seedCols, key)
  }

  /** The file loop: every later table, in order. */
  function MergeTables(st: State, tables: seq<Table>, seedCols: seq<Column>, key: Column): (r: State)
    requires key in seedCols && AllCarry(st.rows, seedCols)
    requires forall t :: t in tables ==> AllCarry(t.rows, seedCols)
    ensures AllCarry(r.rows, seedCols)
    decreases |tables|
  {
    if tables == [] then st
    else
      var last := tables[|tables| - 1];
      MergeRows(MergeTables(st, tables[..|tables| - 1], seedCols, key), last.rows, seedCols, key)
  }

  /** The whole merge: no tables is an error; otherwise the first table is the
      seed and the others are folded into it. */
  function Merge(tables: seq<Table>, key: Column): (r: Result<State>)
    requires WellFormed(tables, key)
    ensures r.Err? <==> tables == []
  {
    if tables == [] then Err(NoDataframes)
    else Ok(MergeTables(State(tables[0].rows, 0, []), tables[1..], tables[0].columns, key))
  }

  // One-step unfoldings of the three folds, as the loops of the engine use them.

  lemma MergeFieldsStep(current: Row, incoming: Row, cols: seq<Column>, j: nat, asset: Cell)
    requires j < |cols| && Carries(current, cols) && Carries(incoming, cols)
    ensures cols[j] in MergeFields(current, incoming, cols[..j], asset).row
    ensures MergeFields(current, incoming, cols[..j + 1], asset)
         == MergeCell(MergeFields(current, incoming, cols[..j], asset), incoming, cols[j], asset)
  {
    assert cols[..j + 1][..j] == cols[..j];
  }

  lemma MergeRowsStep(st: State, rows: seq<Row>, r: nat, seedCols: seq<Column>, key: Column)
    requires r < |rows| && key in seedCols && AllCarry(st.rows, seedCols) && AllCarry(rows, seedCols)
    ensures AllCarry(rows[..r], seedCols) && Carries(rows[r], seedCols)
    ensures MergeRows(st, rows[..r + 1], seedCols, key)
         == MergeIncoming(MergeRows(st, rows[..r], seedCols, key), rows[r], seedCols, key)
  {
    assert rows[r] in rows;
    assert forall row :: row in rows[..r] ==> row in rows;
    assert rows[..r + 1][..r] == rows[..r];
  }

  lemma MergeTablesStep(st: State, tables: seq<Table>, i: nat, seedCols: seq<Column>, key: Column)
    requires 1 <= i < |tables| && key in seedCols && AllCarry(st.rows, seedCols)
    requires forall t :: t in tables ==> AllCarry(t.rows, seedCols)
    ensures forall t :: t in tables[1..i] ==> AllCarry(t.rows, seedCols)
    ensures AllCarry(tables[i].rows, seedCols)
    ensures MergeTables(st, tables[1..i + 1], seedCols, key)
         == MergeRows(MergeTables(st, tables[1..i], seedCols, key), tables[i].rows, seedCols, key)
  {
    assert tables[i] in tables;
    assert forall t :: t in tables[1..i] ==> t in tables;
    assert tables[1..i + 1][..i - 1] == tables[1..i];
  }

  lemma MergeIncomingUnfold(st: State, incoming: Row, seedCols: seq<Column>, key: Column)
    requires key in seedCols && AllCarry(st.rows, seedCols) && Carries(incoming, seedCols)
    ensures var asset := incoming[key];
      match FirstMatch(st.rows, key, asset)
      case None => MergeIncoming(st, incoming, seedCols, key) == State(st.rows + [incoming], st.updates + 1, st.conflicts)
      case Some(i) =>
        Carries(st.rows[i], UpdateColumns(seedCols, key)) && Carries(incoming, UpdateColumns(seedCols, key)) &&
        var f := MergeFields(st.rows[i], incoming, UpdateColumns(seedCols, key), asset);
        MergeIncoming(st, incoming, seedCols, key) == State(st.rows[i := f.row], st.updates + f.count, st.conflicts + f.conflicts)
  {
    var asset := incoming[key];
    match FirstMatch(st.rows, key, asset)
    case None =>
    case Some(i) =>
      assert st.rows[i] in st.rows;
  }

  lemma AppendAssoc<T>(a: seq<T>, b: seq<T>, c: seq<T>)
    ensures a + b + c == a + (b + c)
  {
  }

  /** The step does not depend on where the report's counter and conflict list
      started: it only adds to them. */
  lemma MergeIncomingShift(st: State, incoming: Row, seedCols: seq<Column>, key: Column, u0: nat, c0: seq<Conflict>)
    requires key in seedCols && AllCarry(st.rows, seedCols) && Carries(incoming, seedCols)
    ensures var r := MergeIncoming(st, incoming, seedCols, key);
      MergeIncoming(State(st.rows, u0 + st.updates, c0 + st.conflicts), incoming, seedCols, key)
        == State(r.rows, u0 + r.updates, c0 + r.conflicts)
  {
    var asset := incoming[key];
    match FirstMatch(st.rows, key, asset)
    case None =>
    case Some(i) =>
      assert st.rows[i] in st.rows;
      AppendAssoc(c0, st.conflicts, MergeFields(st.rows[i], incoming, UpdateColumns(seedCols, key), asset).conflicts);
  }

  lemma {:induction false} MergeRowsShift(st: State, rows: seq<Row>, seedCols: seq<Column>, key: Column, u0: nat, c0: seq<Conflict>)
    requires key in seedCols && AllCarry(st.rows, seedCols) && AllCarry(rows, seedCols)
    ensures var r := MergeRows(st, rows, seedCols, key);
      MergeRows(State(st.rows, u0 + st.updates, c0 + st.conflicts), rows, seedCols, key)
        == State(r.rows, u0 + r.updates, c0 + r.conflicts)
  {
    if rows != [] {
      var init, last := rows[..|rows| - 1], rows[|rows| - 1];
      assert forall row :: row in init ==> row in rows;
      assert last in rows;
      MergeRowsShift(st, init, seedCols, key, u0, c0);
      MergeIncomingShift(MergeRows(st, init, seedCols, key), last, seedCols, key, u0, c0);
    }
  }
}

/** What the merge promises, proved about the fold in MergeSpec: field-level
    precedence, the effect of one incoming row, and what holds of the whole
    merge (rows kept in place, report bounds, keys unique, self-merge). */
module MergeLemmas {
  import opened Cells
  import opened MergeSpec

  predicate Distinct(cols: seq<Column>) {
    forall i, j :: 0 <= i < j < |cols| ==> cols[i] != cols[j]
  }

  /** A conflict record as the merge writes it: two different non-empty
      values, resolved in favour of the latest. */
  predicate ValidRecord(r: Conflict) {
    r.resolution == UsingLatest && r.value1.Val? && r.value2.Val? && r.value1 != r.value2
  }

  /** Every row has a non-empty key. */
  predicate AllKeyed(rows: seq<Row>, key: Column) {
    forall row: Row :: row in rows ==> key in row && row[key].Val?
  }

  /** No two rows share a non-empty key. */
  predicate UniqueKeys(rows: seq<Row>, key: Column) {
    forall i, j :: 0 <= i < j < |rows| && key in rows[i] && key in rows[j] && rows[i][key].Val? ==>
      rows[i][key] != rows[j][key]
  }

  /** Rows of `before` stay at their positions in `after` with the same
      columns, and every column outside `cols` keeps its value. */
  predicate Keeps(before: seq<Row>, after: seq<Row>, cols: seq<Column>) {
    |before| <= |after| &&
    forall j :: 0 <= j < |before| ==>
      after[j].Keys == before[j].Keys &&
      forall c :: c in before[j] && c !in cols ==> after[j][c] == before[j][c]
  }

  /** How the accumulator may evolve: rows are kept, the conflict list only
      grows with valid records, and every appended row and every conflict is
      paid for by one unit of `updates_merged`. */
  predicate Grows(st: State, r: State, cols: seq<Column>) {
    Keeps(st.rows, r.rows, cols) &&
    |st.conflicts| <= |r.conflicts| && r.conflicts[..|st.conflicts|] == st.conflicts &&
    (forall k :: |st.conflicts| <= k < |r.conflicts| ==> ValidRecord(r.conflicts[k])) &&
    (|r.conflicts| - |st.conflicts|) + (|r.rows| - |st.rows|) <= r.updates - st.updates
  }

  /** Reference: how many of `cols` the field rule overwrites, judged against
      the row as it was before the merge. */
  function CountUpdates(current: Row, incoming: Row, cols: seq<Column>): nat
    requires Carries(current, cols) && Carries(incoming, cols)
    decreases |cols|
  {
    if cols == [] then 0
    else
      var c := cols[|cols| - 1];
      CountUpdates(current, incoming, cols[..|cols| - 1]) + if ShouldUpdate(current[c], incoming[c]) then 1 else 0
  }

  /** Reference: the conflicts of `cols`, in column order, judged against the
      row as it was before the merge. */
  function ConflictsOf(current: Row, incoming: Row, cols: seq<Column>, asset: Cell): seq<Conflict>
    requires Carries(current, cols) && Carries(incoming, cols)
    decreases |cols|
  {
    if cols == [] then []
    else
      var c := cols[|cols| - 1];
      ConflictsOf(current, incoming, cols[..|cols| - 1], asset)
      + if IsConflict(current[c], incoming[c]) then [Conflict(asset, c, current[c], incoming[c], UsingLatest)] else []
  }

  // ---------------------------------------------------------------------------
  // One matched row

  /** Latest non-empty wins: after merging, an eligible cell holds the incoming
      value when that is non-empty and its previous value otherwise; columns
      outside `cols` are untouched. */
  lemma {:induction false} LatestNonEmptyWins(current: Row, incoming: Row, cols: seq<Column>, asset: Cell)
    requires Carries(current, cols) && Carries(incoming, cols)
    ensures var f := MergeFields(current, incoming, cols, asset);
      (forall c :: c in cols ==> f.row[c] == if incoming[c].Val? then incoming[c] else current[c]) &&
      (forall c :: c in current && c !in cols ==> f.row[c] == current[c])
  {
    if cols != [] {
      var init, last := cols[..|cols| - 1], cols[|cols| - 1];
      LatestNonEmptyWins(current, incoming, init, asset);
      assert forall c :: c in cols ==> c in init || c == last;
    }
  }

  /** With distinct columns, each cell is judged once against its value before
      the merge: the overwrite count and the conflicts are those of the
      reference definitions. */
  lemma {:induction false} JudgedAgainstOriginal(current: Row, incoming: Row, cols: seq<Column>, asset: Cell)
    requires Carries(current, cols) && Carries(incoming, cols) && Distinct(cols)
    ensures var f := MergeFields(current, incoming, cols, asset);
      f.count == CountUpdates(current, incoming, cols) &&
      f.conflicts == ConflictsOf(current, incoming, cols, asset)
  {
    if cols != [] {
      var init, last := cols[..|cols| - 1], cols[|cols| - 1];
      JudgedAgainstOriginal(current, incoming, init, asset);
      LatestNonEmptyWins(current, incoming, init, asset);
      assert last !in init by {
        forall k | 0 <= k < |init| ensures init[k] != last {
          assert init[k] == cols[k];
        }
      }
    }
  }

  /** Every conflict is an overwrite, and each record names an eligible
      column, holds two different non-empty values, carries "Using latest",
      and its `value2` is the incoming value now stored in that cell. */
  lemma {:induction false} ConflictRecords(current: Row, incoming: Row, cols: seq<Column>, asset: Cell)
    requires Carries(current, cols) && Carries(incoming, cols)
    ensures var f := MergeFields(current, incoming, cols, asset);
      |f.conflicts| <= f.count &&
      forall k :: 0 <= k < |f.conflicts| ==>
        ValidRecord(f.conflicts[k]) && f.conflicts[k].asset == asset &&
        f.conflicts[k].column in cols &&
        f.conflicts[k].value2 == incoming[f.conflicts[k].column] &&
        f.row[f.conflicts[k].column] == f.conflicts[k].value2
  {
    LatestNonEmptyWins(current, incoming, cols, asset);
    if cols != [] {
      var init := cols[..|cols| - 1];
      ConflictRecords(current, incoming, init, asset);
    }
  }

  /** Merging a row with itself changes nothing and records nothing. */
  lemma {:induction false} MergeFieldsWithItself(row: Row, cols: seq<Column>, asset: Cell)
    requires Carries(row, cols)
    ensures MergeFields(row, row, cols, asset) == FieldsOutcome(row, 0, [])
  {
    if cols != [] {
      MergeFieldsWithItself(row, cols[..|cols| - 1], asset);
    }
  }

  /** Distinct seed columns give distinct eligible columns. */
  lemma {:induction false} UpdateColumnsDistinct(columns: seq<Column>, key: Column)
    requires Distinct(columns)
    ensures Distinct(UpdateColumns(columns, key))
  {
    if columns != [] {
      assert Distinct(columns[1..]) by {
        forall i, j | 0 <= i < j < |columns[1..]| ensures columns[1..][i] != columns[1..][j] {
          assert columns[1..][i] == columns[i + 1] && columns[1..][j] == columns[j + 1];
        }
      }
      UpdateColumnsDistinct(columns[1..], key);
      assert columns[0] !in columns[1..] by {
        forall k | 0 <= k < |columns[1..]| ensures columns[1..][k] != columns[0] {
          assert columns[1..][k] == columns[k + 1];
        }
      }
    }
  }

  /** The positions of the update-eligible columns, counting the first of
      `columns` as position `start`. */
  function EligiblePositions(columns: seq<Column>, key: Column, start: nat): seq<nat>
    decreases |columns|
  {
    if columns == [] then []
    else
      (if Eligible(columns[0], key) then [start] else [])
      + EligiblePositions(columns[1..], key, start + 1)
  }

  lemma {:induction false} EligiblePositionsCount(columns: seq<Column>, key: Column, start: nat)
    ensures |EligiblePositions(columns, key, start)| == |UpdateColumns(columns, key)|
    decreases |columns|
  {
    if columns != [] {
      EligiblePositionsCount(columns[1..], key, start + 1);
    }
  }

  lemma {:induction false} EligiblePositionsSelect(columns: seq<Column>, key: Column, start: nat)
    ensures |EligiblePositions(columns, key, start)| == |UpdateColumns(columns, key)|
    ensures forall i :: 0 <= i < |EligiblePositions(columns, key, start)| ==>
      start <= EligiblePositions(columns, key, start)[i] < start + |columns| &&
      columns[EligiblePositions(columns, key, start)[i] - start] == UpdateColumns(columns, key)[i]
    decreases |columns|
  {
    if columns != [] {
      var tail := columns[1..];
      EligiblePositionsSelect(tail, key, start + 1);
      EligiblePositionsCount(columns, key, start);
      var rest := EligiblePositions(tail, key, start + 1);
      var restCols := UpdateColumns(tail, key);
      var keep := Eligible(columns[0], key);
      var head: seq<nat> := if keep then [start] else [];
      var pos := head + rest;
      var r := (if keep then [columns[0]] else []) + restCols;
      assert EligiblePositions(columns, key, start) == pos;
      assert UpdateColumns(columns, key) == r;
      forall i | 0 <= i < |pos| ensures start <= pos[i] < start + |columns| && columns[pos[i] - start] == r[i] {
        if i >= |head| {
          var k := i - |head|;
          assert pos[i] == rest[k] && r[i] == restCols[k];
          assert columns[rest[k] - start] == tail[rest[k] - (start + 1)];
        } else {
          assert pos[i] == start && r[i] == columns[0];
        }
      }
    }
  }

  lemma {:induction false} EligiblePositionsIncreasing(columns: seq<Column>, key: Column, start: nat)
    ensures forall i :: 0 <= i < |EligiblePositions(columns, key, start)| ==>
      start <= EligiblePositions(columns, key, start)[i]
    ensures forall i, j :: 0 <= i < j < |EligiblePositions(columns, key, start)| ==>
      EligiblePositions(columns, key, start)[i] < EligiblePositions(columns, key, start)[j]
    decreases |columns|
  {
    if columns != [] {
      EligiblePositionsIncreasing(columns[1..], key, start + 1);
      var rest := EligiblePositions(columns[1..], key, start + 1);
      var keep := Eligible(columns[0], key);
      var head: seq<nat> := if keep then [start] else [];
      var pos := head + rest;
      assert EligiblePositions(columns, key, start) == pos;
      forall i | 0 <= i < |pos| ensures start <= pos[i] {
        if i >= |head| {
          assert pos[i] == rest[i - |head|];
        }
      }
      forall i, j | 0 <= i < j < |pos| ensures pos[i] < pos[j] {
        assert pos[j] == rest[j - |head|];
        if i >= |head| {
          assert pos[i] == rest[i - |head|];
        }
      }
    }
  }

  lemma {:induction false} EligiblePositionsSkip(columns: seq<Column>, key: Column, start: nat)
    ensures forall p :: start <= p < start + |columns| && p !in EligiblePositions(columns, key, start) ==>
      columns[p - start] == key || columns[p - start] in Placeholders
    decreases |columns|
  {
    if columns != [] {
      var tail := columns[1..];
      EligiblePositionsSkip(tail, key, start + 1);
      var rest := EligiblePositions(tail, key, start + 1);
      var keep := Eligible(columns[0], key);
      var head: seq<nat> := if keep then [start] else [];
      var pos := head + rest;
      assert EligiblePositions(columns, key, start) == pos;
      forall p | start <= p < start + |columns| && p !in pos
        ensures columns[p - start] == key || columns[p - start] in Placeholders
      {
        if p > start {
          assert p !in rest;
          assert columns[p - start] == tail[p - (start + 1)];
        }
      }
    }
  }

  /** The eligible columns are the seed's columns in the seed's order with
      the key column and the placeholders taken out: they sit at strictly
      increasing positions of `columns`, and every position skipped holds the
      key column or a placeholder. */
  lemma UpdateColumnsInOrder(columns: seq<Column>, key: Column)
    ensures var r := UpdateColumns(columns, key);
      var pos := EligiblePositions(columns, key, 0);
      |pos| == |r| &&
      (forall i :: 0 <= i < |pos| ==> pos[i] < |columns| && columns[pos[i]] == r[i]) &&
      (forall i, j :: 0 <= i < j < |pos| ==> pos[i] < pos[j]) &&
      (forall p :: 0 <= p < |columns| && p !in pos ==> columns[p] == key || columns[p] in Placeholders)
  {
    EligiblePositionsSelect(columns, key, 0);
    EligiblePositionsIncreasing(columns, key, 0);
    EligiblePositionsSkip(columns, key, 0);
  }

  // ---------------------------------------------------------------------------
  // One incoming row

  /** The effect of one incoming row. Unmatched: it is appended and counts one
      update. Matched: only the first matching row changes; its key,
      placeholder and other non-eligible columns keep their values, its
      eligible cells follow "latest non-empty wins", and (with distinct
      columns) the counter and conflict list grow exactly by the reference
      count and conflicts. */
  lemma MergeIncomingEffect(st: State, incoming: Row, seedCols: seq<Column>, key: Column)
    requires key in seedCols && AllCarry(st.rows, seedCols) && Carries(incoming, seedCols)
    ensures var r := MergeIncoming(st, incoming, seedCols, key);
      var cols := UpdateColumns(seedCols, key);
      match FirstMatch(st.rows, key, incoming[key])
      case None =>
        r.rows == st.rows + [incoming] && r.updates == st.updates + 1 && r.conflicts == st.conflicts
      case Some(i) =>
        |r.rows| == |st.rows| &&
        (forall j :: 0 <= j < |st.rows| && j != i ==> r.rows[j] == st.rows[j]) &&
        r.rows[i].Keys == st.rows[i].Keys &&
        r.rows[i][key] == st.rows[i][key] &&
        (forall p :: p in Placeholders && p in st.rows[i] ==> r.rows[i][p] == st.rows[i][p]) &&
        (forall c :: c in st.rows[i] && c !in cols ==> r.rows[i][c] == st.rows[i][c]) &&
        (forall c :: c in cols ==> r.rows[i][c] == if incoming[c].Val? then incoming[c] else st.rows[i][c]) &&
        (Distinct(seedCols) ==>
          r.updates == st.updates + CountUpdates(st.rows[i], incoming, cols) &&
          r.conflicts == st.conflicts + ConflictsOf(st.rows[i], incoming, cols, incoming[key]))
  {
    var cols := UpdateColumns(seedCols, key);
    match FirstMatch(st.rows, key, incoming[key])
    case None =>
    case Some(i) =>
      assert st.rows[i] in st.rows;
      LatestNonEmptyWins(st.rows[i], incoming, cols, incoming[key]);
      if Distinct(seedCols) {
        UpdateColumnsDistinct(seedCols, key);
        JudgedAgainstOriginal(st.rows[i], incoming, cols, incoming[key]);
      }
  }

  lemma MergeIncomingGrows(st: State, incoming: Row, seedCols: seq<Column>, key: Column)
    requires key in seedCols && AllCarry(st.rows, seedCols) && Carries(incoming, seedCols)
    ensures Grows(st, MergeIncoming(st, incoming, seedCols, key), UpdateColumns(seedCols, key))
  {
    var cols := UpdateColumns(seedCols, key);
    var r := MergeIncoming(st, incoming, seedCols, key);
    match FirstMatch(st.rows, key, incoming[key])
    case None =>
      assert r.rows[..|st.rows|] == st.rows;
    case Some(i) =>
      assert st.rows[i] in st.rows;
      var f := MergeFields(st.rows[i], incoming, cols, incoming[key]);
      LatestNonEmptyWins(st.rows[i], incoming, cols, incoming[key]);
      ConflictRecords(st.rows[i], incoming, cols, incoming[key]);
      assert r.conflicts == st.conflicts + f.conflicts;
      assert r.conflicts[..|st.conflicts|] == st.conflicts;
      forall k | |st.conflicts| <= k < |r.conflicts| ensures ValidRecord(r.conflicts[k]) {
        assert r.conflicts[k] == f.conflicts[k - |st.conflicts|];
      }
  }

  lemma GrowsTransitive(a: State, b: State, c: State, cols: seq<Column>)
    requires Grows(a, b, cols) && Grows(b, c, cols)
    ensures Grows(a, c, cols)
  {
    assert c.conflicts[..|a.conflicts|] == c.conflicts[..|b.conflicts|][..|a.conflicts|];
    forall j | 0 <= j < |a.rows|
      ensures c.rows[j].Keys == a.rows[j].Keys
      ensures forall col :: col in a.rows[j] && col !in cols ==> c.rows[j][col] == a.rows[j][col]
    {
      assert b.rows[j].Keys == a.rows[j].Keys;
    }
  }

  // ---------------------------------------------------------------------------
  // The folds

  /** The row loop keeps every earlier row in place, adds at most one row per
      incoming row, and only grows the report as `Grows` allows. */
  lemma {:induction false} MergeRowsGrows(st: State, rows: seq<Row>, seedCols: seq<Column>, key: Column)
    requires key in seedCols && AllCarry(st.rows, seedCols) && AllCarry(rows, seedCols)
    ensures var r := MergeRows(st, rows, seedCols, key);
      Grows(st, r, UpdateColumns(seedCols, key)) && |r.rows| <= |st.rows| + |rows|
  {
    var cols := UpdateColumns(seedCols, key);
    if rows == [] {
      assert st.conflicts[..|st.conflicts|] == st.conflicts;
    } else {
      var init, last := rows[..|rows| - 1], rows[|rows| - 1];
      assert forall row :: row in init ==> row in rows;
      assert last in rows;
      MergeRowsGrows(st, init, seedCols, key);
      var mid := MergeRows(st, init, seedCols, key);
      MergeIncomingGrows(mid, last, seedCols, key);
      MergeIncomingEffect(mid, last, seedCols, key);
      GrowsTransitive(st, mid, MergeIncoming(mid, last, seedCols, key), cols);
    }
  }

  lemma {:induction false} MergeTablesGrows(st: State, tables: seq<Table>, seedCols: seq<Column>, key: Column)
    requires key in seedCols && AllCarry(st.rows, seedCols)
    requires forall t :: t in tables ==> AllCarry(t.rows, seedCols)
    ensures var r := MergeTables(st, tables, seedCols, key);
      Grows(st, r, UpdateColumns(seedCols, key)) && |r.rows| <= |st.rows| + |AllRows(tables)|
  {
    var cols := UpdateColumns(seedCols, key);
    if tables == [] {
      assert st.conflicts[..|st.conflicts|] == st.conflicts;
    } else {
      var init, last := tables[..|tables| - 1], tables[|tables| - 1];
      assert forall t :: t in init ==> t in tables;
      assert last in tables;
      MergeTablesGrows(st, init, seedCols, key);
      var mid := MergeTables(st, init, seedCols, key);
      MergeRowsGrows(mid, last.rows, seedCols, key);
      GrowsTransitive(st, mid, MergeRows(mid, last.rows, seedCols, key), cols);
    }
  }

  /** The shape of a whole merge. The seed's rows stay at the front, in order,
      with their key, placeholder and other non-eligible cells unchanged; no row
      is removed; at most one row is added per incoming row; every conflict is
      a valid "Using latest" record; and `updates_merged` is at least the
      number of appended rows plus the number of conflicts. */
  lemma MergeShape(tables: seq<Table>, key: Column)
    requires WellFormed(tables, key) && tables != []
    ensures Merge(tables, key).Ok?
    ensures var s := Merge(tables, key).value;
      var seed := tables[0].rows;
      Keeps(seed, s.rows, UpdateColumns(tables[0].columns, key)) &&
      |seed| <= |s.rows| <= |seed| + |AllRows(tables[1..])| &&
      (forall k :: 0 <= k < |s.conflicts| ==> ValidRecord(s.conflicts[k])) &&
      |s.conflicts| + (|s.rows| - |seed|) <= s.updates
  {
    assert forall t :: t in tables[1..] ==> t in tables;
    assert tables[0] in tables;
    MergeTablesGrows(State(tables[0].rows, 0, []), tables[1..], tables[0].columns, key);
  }

  // ---------------------------------------------------------------------------
  // Matching by key

  /** Once a row matches a key, it stays the first match for that key as long
      as the rows before it keep their keys. */
  lemma FirstMatchStable(before: seq<Row>, after: seq<Row>, cols: seq<Column>, key: Column, asset: Cell)
    requires key !in cols && Keeps(before, after, cols)
    requires forall row :: row in before ==> key in row
    requires forall row :: row in after ==> key in row
    requires FirstMatch(before, key, asset).Some?
    ensures FirstMatch(after, key, asset) == FirstMatch(before, key, asset)
  {
    var i := FirstMatch(before, key, asset).value;
    KeysAt(before, after, cols, key, i);
    assert KeyMatches(after[i][key], asset);
    var m := FirstMatch(after, key, asset);
    assert m.Some?;
    if m.value < i {
      assert false;
    }
  }

  lemma KeysAt(before: seq<Row>, after: seq<Row>, cols: seq<Column>, key: Column, j: nat)
    requires key !in cols && Keeps(before, after, cols) && j < |before| && key in before[j]
    ensures key in after[j] && after[j][key] == before[j][key]
  {
  }

  /** A row appended for a new non-empty key is the row that every later row
      with the same key is merged into. */
  lemma AppendedRowMatchedLater(st: State, incoming: Row, later: seq<Row>, seedCols: seq<Column>, key: Column)
    requires key in seedCols && AllCarry(st.rows, seedCols) && Carries(incoming, seedCols)
    requires AllCarry(later, seedCols)
    requires incoming[key].Val? && FirstMatch(st.rows, key, incoming[key]).None?
    ensures var s := MergeIncoming(st, incoming, seedCols, key);
      FirstMatch(MergeRows(s, later, seedCols, key).rows, key, incoming[key]) == Some(|st.rows|)
  {
    var s := MergeIncoming(st, incoming, seedCols, key);
    var r := MergeRows(s, later, seedCols, key);
    assert s.rows == st.rows + [incoming];
    assert s.rows[|st.rows|] == incoming;
    assert forall j :: 0 <= j < |st.rows| ==> s.rows[j] == st.rows[j];
    assert FirstMatch(s.rows, key, incoming[key]) == Some(|st.rows|);
    MergeRowsGrows(s, later, seedCols, key);
    FirstMatchStable(s.rows, r.rows, UpdateColumns(seedCols, key), key, incoming[key]);
  }

  // ---------------------------------------------------------------------------
  // Appended rows

  /** The key of a row; empty when the row lacks the key column. */
  function KeyOf(row: Row, key: Column): Cell {
    if key in row then row[key] else Empty
  }

  /** The key column of `rows`, row by row. */
  function KeyColumn(rows: seq<Row>, key: Column): (ks: seq<Cell>)
    ensures |ks| == |rows|
  {
    seq(|rows|, j requires 0 <= j < |rows| => KeyOf(rows[j], key))
  }

  /** The non-empty keys present among `rows`. */
  function KeySet(rows: seq<Row>, key: Column): set<Cell> {
    set row | row in rows && KeyOf(row, key).Val? :: KeyOf(row, key)
  }

  /** Reference: the incoming rows, in order, that find no merged row when
      they arrive: those whose key is empty or occurs neither among the keys
      `seen` before them nor in an earlier incoming row. */
  function NewRows(seen: set<Cell>, rows: seq<Row>, key: Column): seq<Row>
    decreases |rows|
  {
    if rows == [] then []
    else
      var init, last := rows[..|rows| - 1], rows[|rows| - 1];
      NewRows(seen, init, key)
      + if KeyOf(last, key).Val? && KeyOf(last, key) in seen + KeySet(init, key) then [] else [last]
  }

  /** The rows of a list of tables, table after table. */
  function AllRows(tables: seq<Table>): seq<Row>
    decreases |tables|
  {
    if tables == [] then [] else AllRows(tables[..|tables| - 1]) + tables[|tables| - 1].rows
  }

  lemma KeyColumnConcat(a: seq<Row>, b: seq<Row>, key: Column)
    ensures KeyColumn(a + b, key) == KeyColumn(a, key) + KeyColumn(b, key)
  {
    assert forall j :: 0 <= j < |a + b| ==> KeyColumn(a + b, key)[j] == (KeyColumn(a, key) + KeyColumn(b, key))[j];
  }

  lemma KeySetConcat(a: seq<Row>, b: seq<Row>, key: Column)
    ensures KeySet(a + b, key) == KeySet(a, key) + KeySet(b, key)
  {
    assert forall row :: row in a + b <==> row in a || row in b;
  }

  lemma KeySetSingle(row: Row, key: Column)
    ensures KeySet([row], key) == if KeyOf(row, key).Val? then {KeyOf(row, key)} else {}
  {
    assert row in [row];
  }

  /** The key column decides the key set. */
  lemma KeySetSameKeys(a: seq<Row>, b: seq<Row>, key: Column)
    requires KeyColumn(a, key) == KeyColumn(b, key)
    ensures KeySet(a, key) == KeySet(b, key)
  {
    forall c | c in KeySet(a, key) ensures c in KeySet(b, key) {
      var row :| row in a && KeyOf(row, key).Val? && KeyOf(row, key) == c;
      var j :| 0 <= j < |a| && a[j] == row;
      assert KeyColumn(a, key)[j] == KeyOf(b[j], key);
      assert b[j] in b;
    }
    forall c | c in KeySet(b, key) ensures c in KeySet(a, key) {
      var row :| row in b && KeyOf(row, key).Val? && KeyOf(row, key) == c;
      var j :| 0 <= j < |b| && b[j] == row;
      assert KeyColumn(b, key)[j] == KeyOf(a[j], key);
      assert a[j] in a;
    }
  }

  /** No merged row matches an asset code exactly when the code is empty or
      is not among the rows' keys. */
  lemma FirstMatchKeySet(rows: seq<Row>, key: Column, asset: Cell)
    requires forall row :: row in rows ==> key in row
    ensures FirstMatch(rows, key, asset).None? <==> asset.Empty? || asset !in KeySet(rows, key)
  {
    if asset.Val? && asset in KeySet(rows, key) {
      var row :| row in rows && KeyOf(row, key).Val? && KeyOf(row, key) == asset;
      var j :| 0 <= j < |rows| && rows[j] == row;
      assert KeyMatches(rows[j][key], asset);
    }
    match FirstMatch(rows, key, asset)
    case None =>
    case Some(i) =>
      assert rows[i] in rows;
  }

  /** One incoming row: it is appended exactly when its key is empty or not
      yet among the merged rows' keys; otherwise the merged rows keep their
      key column. The key set gains the row's key. */
  lemma MergeIncomingAppends(st: State, incoming: Row, seedCols: seq<Column>, key: Column)
    requires key in seedCols && AllCarry(st.rows, seedCols) && Carries(incoming, seedCols)
    ensures var r := MergeIncoming(st, incoming, seedCols, key);
      var asset := KeyOf(incoming, key);
      (if asset.Val? && asset in KeySet(st.rows, key)
       then KeyColumn(r.rows, key) == KeyColumn(st.rows, key)
       else r.rows == st.rows + [incoming]) &&
      KeySet(r.rows, key) == KeySet(st.rows, key) + KeySet([incoming], key)
  {
    var asset := incoming[key];
    assert forall row :: row in st.rows ==> key in row;
    FirstMatchKeySet(st.rows, key, asset);
    MergeIncomingUnfold(st, incoming, seedCols, key);
    match FirstMatch(st.rows, key, asset)
    case None =>
      KeySetConcat(st.rows, [incoming], key);
    case Some(i) =>
      var cols := UpdateColumns(seedCols, key);
      assert st.rows[i] in st.rows;
      var f := MergeFields(st.rows[i], incoming, cols, asset);
      LatestNonEmptyWins(st.rows[i], incoming, cols, asset);
      assert f.row[key] == st.rows[i][key];
      var rows' := st.rows[i := f.row];
      assert forall j :: 0 <= j < |st.rows| ==> KeyColumn(rows', key)[j] == KeyColumn(st.rows, key)[j];
      KeySetSameKeys(rows', st.rows, key);
      KeySetSingle(incoming, key);
  }

  /** The row loop appends exactly the rows `NewRows` lists, after the rows
      already merged and in their incoming order: the key column becomes the
      old key column followed by theirs. The key set gains every incoming
      key. */
  lemma {:induction false} MergeRowsAppends(st: State, rows: seq<Row>, seedCols: seq<Column>, key: Column)
    requires key in seedCols && AllCarry(st.rows, seedCols) && AllCarry(rows, seedCols)
    ensures var r := MergeRows(st, rows, seedCols, key);
      KeyColumn(r.rows, key) == KeyColumn(st.rows, key) + KeyColumn(NewRows(KeySet(st.rows, key), rows, key), key) &&
      KeySet(r.rows, key) == KeySet(st.rows, key) + KeySet(rows, key)
  {
    if rows == [] {
      assert KeyColumn(st.rows, key) + KeyColumn([], key) == KeyColumn(st.rows, key);
    } else {
      var init, last := rows[..|rows| - 1], rows[|rows| - 1];
      assert forall row :: row in init ==> row in rows;
      assert last in rows;
      assert rows == init + [last];
      MergeRowsAppends(st, init, seedCols, key);
      var mid := MergeRows(st, init, seedCols, key);
      var before := NewRows(KeySet(st.rows, key), init, key);
      MergeIncomingAppends(mid, last, seedCols, key);
      KeySetConcat(init, [last], key);
      if !(KeyOf(last, key).Val? && KeyOf(last, key) in KeySet(mid.rows, key)) {
        KeyColumnConcat(mid.rows, [last], key);
        KeyColumnConcat(before, [last], key);
        AppendAssoc(KeyColumn(st.rows, key), KeyColumn(before, key), KeyColumn([last], key));
      } else {
        assert before + [] == before;
      }
    }
  }

  lemma {:induction false} NewRowsConcat(seen: set<Cell>, a: seq<Row>, b: seq<Row>, key: Column)
    ensures NewRows(seen, a + b, key) == NewRows(seen, a, key) + NewRows(seen + KeySet(a, key), b, key)
    decreases |b|
  {
    if b == [] {
      assert a + b == a;
    } else {
      var init, last := b[..|b| - 1], b[|b| - 1];
      assert (a + b)[..|a + b| - 1] == a + init;
      assert (a + b)[|a + b| - 1] == last;
      NewRowsConcat(seen, a, init, key);
      KeySetConcat(a, init, key);
    }
  }

  lemma {:induction false} MergeTablesAppends(st: State, tables: seq<Table>, seedCols: seq<Column>, key: Column)
    requires key in seedCols && AllCarry(st.rows, seedCols)
    requires forall t :: t in tables ==> AllCarry(t.rows, seedCols)
    ensures var r := MergeTables(st, tables, seedCols, key);
      KeyColumn(r.rows, key) == KeyColumn(st.rows, key) + KeyColumn(NewRows(KeySet(st.rows, key), AllRows(tables), key), key) &&
      KeySet(r.rows, key) == KeySet(st.rows, key) + KeySet(AllRows(tables), key)
  {
    if tables == [] {
      assert KeyColumn(st.rows, key) + KeyColumn([], key) == KeyColumn(st.rows, key);
    } else {
      var init, last := tables[..|tables| - 1], tables[|tables| - 1];
      assert forall t :: t in init ==> t in tables;
      assert last in tables;
      MergeTablesAppends(st, init, seedCols, key);
      var mid := MergeTables(st, init, seedCols, key);
      MergeRowsAppends(mid, last.rows, seedCols, key);
      var seen := KeySet(st.rows, key);
      var before := NewRows(seen, AllRows(init), key);
      var after := NewRows(seen + KeySet(AllRows(init), key), last.rows, key);
      NewRowsConcat(seen, AllRows(init), last.rows, key);
      KeyColumnConcat(before, after, key);
      AppendAssoc(KeyColumn(st.rows, key), KeyColumn(before, key), KeyColumn(after, key));
      KeySetConcat(AllRows(init), last.rows, key);
    }
  }

  /** Rows met only in later sheets are appended after all of the seed's
      rows, one per such row, in the order they are first met: the merged
      key column is the seed's key column followed by the keys of the rows
      `NewRows` lists, so the merged sheet has exactly that many rows more
      than the seed. Every non-empty key of every sheet is in the merged
      sheet. */
  lemma AppendedRowsInOrder(tables: seq<Table>, key: Column)
    requires WellFormed(tables, key) && tables != []
    ensures Merge(tables, key).Ok?
    ensures var s := Merge(tables, key).value;
      var seed := tables[0].rows;
      var added := NewRows(KeySet(seed, key), AllRows(tables[1..]), key);
      KeyColumn(s.rows, key) == KeyColumn(seed, key) + KeyColumn(added, key) &&
      |s.rows| == |seed| + |added| &&
      KeySet(s.rows, key) == KeySet(seed, key) + KeySet(AllRows(tables[1..]), key)
  {
    assert forall t :: t in tables[1..] ==> t in tables;
    assert tables[0] in tables;
    MergeTablesAppends(State(tables[0].rows, 0, []), tables[1..], tables[0].columns, key);
  }

  // ---------------------------------------------------------------------------
  // The file loop as one row loop

  lemma {:induction false} AllRowsCarry(tables: seq<Table>, seedCols: seq<Column>)
    requires forall t :: t in tables ==> AllCarry(t.rows, seedCols)
    ensures AllCarry(AllRows(tables), seedCols)
    decreases |tables|
  {
    if tables != [] {
      var init, last := tables[..|tables| - 1], tables[|tables| - 1];
      assert forall t :: t in init ==> t in tables;
      assert last in tables;
      AllRowsCarry(init, seedCols);
    }
  }

  /** Folding `a` and then `b` is folding `a + b`. */
  lemma {:induction false} MergeRowsConcat(st: State, a: seq<Row>, b: seq<Row>, seedCols: seq<Column>, key: Column)
    requires key in seedCols && AllCarry(st.rows, seedCols) && AllCarry(a, seedCols) && AllCarry(b, seedCols)
    ensures AllCarry(a + b, seedCols)
    ensures MergeRows(st, a + b, seedCols, key) == MergeRows(MergeRows(st, a, seedCols, key), b, seedCols, key)
    decreases |b|
  {
    assert forall row :: row in a + b ==> row in a || row in b;
    if b == [] {
      assert a + b == a;
    } else {
      var init, last := b[..|b| - 1], b[|b| - 1];
      assert forall row :: row in init ==> row in b;
      assert (a + b)[..|a + b| - 1] == a + init;
      assert (a + b)[|a + b| - 1] == last;
      MergeRowsConcat(st, a, init, seedCols, key);
    }
  }

  /** The file loop folds the later sheets' rows, table after table, exactly
      as one row loop over all of them would. */
  lemma {:induction false} MergeTablesAsRows(st: State, tables: seq<Table>, seedCols: seq<Column>, key: Column)
    requires key in seedCols && AllCarry(st.rows, seedCols)
    requires forall t :: t in tables ==> AllCarry(t.rows, seedCols)
    ensures AllCarry(AllRows(tables), seedCols)
    ensures MergeTables(st, tables, seedCols, key) == MergeRows(st, AllRows(tables), seedCols, key)
    decreases |tables|
  {
    AllRowsCarry(tables, seedCols);
    if tables != [] {
      var init, last := tables[..|tables| - 1], tables[|tables| - 1];
      assert forall t :: t in init ==> t in tables;
      assert last in tables;
      MergeTablesAsRows(st, init, seedCols, key);
      MergeRowsConcat(st, AllRows(init), last.rows, seedCols, key);
    }
  }

  /** A row appended for a new non-empty key is the row that every later row
      with that key is merged into: the rest of its own sheet and every row of
      the sheets after it. */
  lemma AppendedRowMatchedByLaterSheets(st: State, incoming: Row, later: seq<Row>, laterTables: seq<Table>, seedCols: seq<Column>, key: Column)
    requires key in seedCols && AllCarry(st.rows, seedCols) && Carries(incoming, seedCols)
    requires AllCarry(later, seedCols)
    requires forall t :: t in laterTables ==> AllCarry(t.rows, seedCols)
    requires incoming[key].Val? && FirstMatch(st.rows, key, incoming[key]).None?
    ensures var s := MergeRows(MergeIncoming(st, incoming, seedCols, key), later, seedCols, key);
      FirstMatch(MergeTables(s, laterTables, seedCols, key).rows, key, incoming[key]) == Some(|st.rows|)
  {
    var s := MergeRows(MergeIncoming(st, incoming, seedCols, key), later, seedCols, key);
    MergeTablesAsRows(s, laterTables, seedCols, key);
    MergeRowsConcat(MergeIncoming(st, incoming, seedCols, key), later, AllRows(laterTables), seedCols, key);
    AppendedRowMatchedLater(st, incoming, later + AllRows(laterTables), seedCols, key);
  }

  // ---------------------------------------------------------------------------
  // Key uniqueness and self-merge

  lemma MergeIncomingKeys(st: State, incoming: Row, seedCols: seq<Column>, key: Column)
    requires key in seedCols && AllCarry(st.rows, seedCols) && Carries(incoming, seedCols)
    ensures var r := MergeIncoming(st, incoming, seedCols, key);
      (UniqueKeys(st.rows, key) ==> UniqueKeys(r.rows, key)) &&
      (AllKeyed(st.rows, key) && incoming[key].Val? ==> AllKeyed(r.rows, key))
  {
    var r := MergeIncoming(st, incoming, seedCols, key);
    MergeIncomingEffect(st, incoming, seedCols, key);
    assert forall row :: row in st.rows ==> key in row;
    match FirstMatch(st.rows, key, incoming[key])
    case None =>
    case Some(i) =>
      assert forall j :: 0 <= j < |r.rows| ==> r.rows[j][key] == st.rows[j][key];
      assert forall row :: row in r.rows ==> exists j :: 0 <= j < |r.rows| && row == r.rows[j];
  }

  /** The key column identifies a row: if the seed has no two rows with the
      same non-empty key, neither has the merged table; and if every input row
      has a non-empty key, so has every merged row. */
  lemma {:induction false} MergeRowsKeys(st: State, rows: seq<Row>, seedCols: seq<Column>, key: Column)
    requires key in seedCols && AllCarry(st.rows, seedCols) && AllCarry(rows, seedCols)
    ensures var r := MergeRows(st, rows, seedCols, key);
      (UniqueKeys(st.rows, key) ==> UniqueKeys(r.rows, key)) &&
      (AllKeyed(st.rows, key) && AllKeyed(rows, key) ==> AllKeyed(r.rows, key))
  {
    if rows != [] {
      var init, last := rows[..|rows| - 1], rows[|rows| - 1];
      assert forall row :: row in init ==> row in rows;
      assert last in rows;
      MergeRowsKeys(st, init, seedCols, key);
      MergeIncomingKeys(MergeRows(st, init, seedCols, key), last, seedCols, key);
    }
  }

  lemma {:induction false} MergeTablesKeys(st: State, tables: seq<Table>, seedCols: seq<Column>, key: Column)
    requires key in seedCols && AllCarry(st.rows, seedCols)
    requires forall t :: t in tables ==> AllCarry(t.rows, seedCols)
    ensures var r := MergeTables(st, tables, seedCols, key);
      (UniqueKeys(st.rows, key) ==> UniqueKeys(r.rows, key)) &&
      (AllKeyed(st.rows, key) && (forall t :: t in tables ==> AllKeyed(t.rows, key)) ==> AllKeyed(r.rows, key))
  {
    if tables != [] {
      var init, last := tables[..|tables| - 1], tables[|tables| - 1];
      assert forall t :: t in init ==> t in tables;
      assert last in tables;
      MergeTablesKeys(st, init, seedCols, key);
      MergeRowsKeys(MergeTables(st, init, seedCols, key), last.rows, seedCols, key);
    }
  }

  /** With unique non-empty keys, a row's own key finds that row. */
  lemma FirstMatchOwnKey(rows: seq<Row>, key: Column, n: nat)
    requires n < |rows| && AllKeyed(rows, key) && UniqueKeys(rows, key)
    ensures FirstMatch(rows, key, rows[n][key]) == Some(n)
  {
    assert rows[n] in rows;
    var m := FirstMatch(rows, key, rows[n][key]);
    assert m.Some?;
    if m.value < n {
      assert false;
    }
  }

  lemma {:induction false} MergeRowsWithItself(rows: seq<Row>, n: nat, seedCols: seq<Column>, key: Column)
    requires n <= |rows| && key in seedCols && AllCarry(rows, seedCols)
    requires AllKeyed(rows, key) && UniqueKeys(rows, key)
    ensures AllCarry(rows[..n], seedCols)
    ensures MergeRows(State(rows, 0, []), rows[..n], seedCols, key) == State(rows, 0, [])
  {
    assert forall row :: row in rows[..n] ==> row in rows;
    if n > 0 {
      MergeRowsWithItself(rows, n - 1, seedCols, key);
      MergeRowsStep(State(rows, 0, []), rows, n - 1, seedCols, key);
      var row := rows[n - 1];
      FirstMatchOwnKey(rows, key, n - 1);
      assert row in rows;
      MergeFieldsWithItself(row, UpdateColumns(seedCols, key), row[key]);
      MergeIncomingUnfold(State(rows, 0, []), row, seedCols, key);
      assert rows[n - 1 := row] == rows;
    }
  }

  /** Merging a sheet with itself changes nothing: no row is added or changed,
      nothing is counted and no conflict is recorded, provided every row has a
      non-empty key and no key repeats. */
  lemma SelfMerge(t: Table, key: Column)
    requires WellFormed([t, t], key) && AllKeyed(t.rows, key) && UniqueKeys(t.rows, key)
    ensures Merge([t, t], key) == Ok(State(t.rows, 0, []))
  {
    var st := State(t.rows, 0, []);
    assert t in [t, t];
    MergeTablesStep(st, [t, t], 1, t.columns, key);
    assert [t, t][1..1] == [] && [t, t][1..2] == [t, t][1..];
    MergeRowsWithItself(t.rows, |t.rows|, t.columns, key);
    assert t.rows[..|t.rows|] == t.rows;
  }

  /** Idempotence: when the seed's keys are unique and every row of every input
      has a non-empty key, merging the merged sheet with itself changes
      nothing and records no conflict. */
  lemma MergedOutputIsStable(tables: seq<Table>, key: Column)
    requires WellFormed(tables, key) && tables != []
    requires UniqueKeys(tables[0].rows, key)
    requires forall t :: t in tables ==> AllKeyed(t.rows, key)
    ensures Merge(tables, key).Ok?
    ensures var s := Merge(tables, key).value;
      var out := Table(tables[0].columns, s.rows);
      WellFormed([out, out], key) && Merge([out, out], key) == Ok(State(s.rows, 0, []))
  {
    var seedCols := tables[0].columns;
    assert forall t :: t in tables[1..] ==> t in tables;
    assert tables[0] in tables;
    var s := MergeTables(State(tables[0].rows, 0, []), tables[1..], seedCols, key);
    MergeTablesKeys(State(tables[0].rows, 0, []), tables[1..], seedCols, key);
    var out := Table(seedCols, s.rows);
    assert forall t :: t in [out, out] ==> t == out;
    SelfMerge(out, key);
  }

  /** Adding one more sheet at the end adds one more pass of the row loop. */
  lemma MergeOneMore(tables: seq<Table>, t: Table, key: Column)
    requires tables != [] && WellFormed(tables + [t], key)
    ensures WellFormed(tables, key) && AllCarry(t.rows, tables[0].columns)
    ensures Merge(tables + [t], key)
         == Ok(MergeRows(Merge(tables, key).value, t.rows, tables[0].columns, key))
  {
    var all := tables + [t];
    assert all[0] == tables[0];
    assert forall u :: u in tables ==> u in all;
    assert t in all;
    MergeTablesStep(State(tables[0].rows, 0, []), all, |tables|, tables[0].columns, key);
    assert all[1..|tables|] == tables[1..] && all[1..|tables| + 1] == all[1..];
  }

  /** Merging the merged sheet in after the same inputs reproduces the first
      merge exactly: the same rows, the same `updates_merged` and the same
      conflict list, so nothing new is recorded. */
  lemma OutputMergedLastAddsNothing(tables: seq<Table>, key: Column)
    requires WellFormed(tables, key) && tables != []
    requires UniqueKeys(tables[0].rows, key)
    requires forall t :: t in tables ==> AllKeyed(t.rows, key)
    ensures Merge(tables, key).Ok?
    ensures var s := Merge(tables, key).value;
      var out := Table(tables[0].columns, s.rows);
      WellFormed(tables + [out], key) && Merge(tables + [out], key) == Ok(s)
  {
    var seedCols := tables[0].columns;
    var st := State(tables[0].rows, 0, []);
    assert forall t :: t in tables[1..] ==> t in tables;
    assert tables[0] in tables;
    var s := MergeTables(st, tables[1..], seedCols, key);
    MergeTablesKeys(st, tables[1..], seedCols, key);
    var out := Table(seedCols, s.rows);
    assert forall t :: t in tables + [out] ==> t in tables || t == out;
    MergeOneMore(tables, out, key);
    MergeRowsWithItself(s.rows, |s.rows|, seedCols, key);
    assert s.rows[..|s.rows|] == s.rows;
    MergeRowsShift(State(s.rows, 0, []), s.rows, seedCols, key, s.updates, s.conflicts);
    assert s.conflicts + [] == s.conflicts;
  }

  // ---------------------------------------------------------------------------
  // Worked examples

  function AssetRow(code: string, status: Cell): Row {
    map["Asset Code" := Val(Text(code)), "Status" := status]
  }

  /** The first incoming A1 row meets the seed's A1: "Status" is overwritten
      and recorded as a conflict. */
  lemma ConflictStep()
    ensures var cols := ["Asset Code", "Status"];
      MergeIncoming(State([AssetRow("A1", Val(Text("Verified")))], 0, []), AssetRow("A1", Val(Text("Pending"))), cols, "Asset Code")
        == State([AssetRow("A1", Val(Text("Pending")))], 1,
                 [Conflict(Val(Text("A1")), "Status", Val(Text("Verified")), Val(Text("Pending")), UsingLatest)])
  {
    var key := "Asset Code";
    var cols := [key, "Status"];
    var r0 := AssetRow("A1", Val(Text("Verified")));
    var i1 := AssetRow("A1", Val(Text("Pending")));
    var conflict := Conflict(Val(Text("A1")), "Status", Val(Text("Verified")), Val(Text("Pending")), UsingLatest);
    assert key != "Status" && "Status" !in Placeholders;
    assert UpdateColumns(cols, key) == ["Status"];
    assert ["Status"][..0] == [];
    assert r0["Status" := Val(Text("Pending"))] == i1;
    assert MergeFields(r0, i1, ["Status"], Val(Text("A1"))) == FieldsOutcome(i1, 1, [conflict]);
    assert FirstMatch([r0], key, Val(Text("A1"))) == Some(0);
    MergeIncomingUnfold(State([r0], 0, []), i1, cols, key);
  }

  lemma AppendStep()
    ensures var cols := ["Asset Code", "Status"];
      var conflict := Conflict(Val(Text("A1")), "Status", Val(Text("Verified")), Val(Text("Pending")), UsingLatest);
      var i1 := AssetRow("A1", Val(Text("Pending")));
      var i2 := AssetRow("A2", Val(Text("Verified")));
      MergeIncoming(State([i1], 1, [conflict]), i2, cols, "Asset Code") == State([i1, i2], 2, [conflict])
  {
    var key := "Asset Code";
    var i1 := AssetRow("A1", Val(Text("Pending")));
    var conflict := Conflict(Val(Text("A1")), "Status", Val(Text("Verified")), Val(Text("Pending")), UsingLatest);
    assert FirstMatch([i1], key, Val(Text("A2"))) == None;
    MergeIncomingUnfold(State([i1], 1, [conflict]), AssetRow("A2", Val(Text("Verified"))), [key, "Status"], key);
  }

  /** A later "Pending" replaces an earlier "Verified" for A1 and is recorded
      as one conflict; A2 is new and is appended; two updates in all. */
  lemma ConflictAndAppendExample()
    ensures var cols := ["Asset Code", "Status"];
      var a := Table(cols, [AssetRow("A1", Val(Text("Verified")))]);
      var b := Table(cols, [AssetRow("A1", Val(Text("Pending"))), AssetRow("A2", Val(Text("Verified")))]);
      Merge([a, b], "Asset Code") == Ok(State(
        [AssetRow("A1", Val(Text("Pending"))), AssetRow("A2", Val(Text("Verified")))],
        2,
        [Conflict(Val(Text("A1")), "Status", Val(Text("Verified")), Val(Text("Pending")), UsingLatest)]))
  {
    var key := "Asset Code";
    var cols := [key, "Status"];
    var r0 := AssetRow("A1", Val(Text("Verified")));
    var i1 := AssetRow("A1", Val(Text("Pending")));
    var i2 := AssetRow("A2", Val(Text("Verified")));
    var a := Table(cols, [r0]);
    var b := Table(cols, [i1, i2]);
    var conflict := Conflict(Val(Text("A1")), "Status", Val(Text("Verified")), Val(Text("Pending")), UsingLatest);
    var st := State([r0], 0, []);
    ConflictStep();
    var s1 := State([i1], 1, [conflict]);
    assert MergeIncoming(st, i1, cols, key) == s1;
    AppendStep();
    var s2 := State([i1, i2], 2, [conflict]);
    assert MergeIncoming(s1, i2, cols, key) == s2;
    assert [i1, i2][..1] == [i1] && [i1][..0] == [];
    assert MergeRows(st, [i1], cols, key) == s1;
    assert MergeRows(st, b.rows, cols, key) == s2;
    assert [a, b][1..] == [b] && [b][..0] == [];
    assert MergeTables(st, [b], cols, key) == s2;
  }

  /** A blank Notes cell (read as empty) is filled by a later "Checked" with
      one update and no conflict. */
  lemma FillEmptyExample()
    ensures var key := "Asset Code";
      var a := Table([key, "Notes"], [map[key := Val(Text("A1")), "Notes" := Empty]]);
      var b := Table([key, "Notes"], [map[key := Val(Text("A1")), "Notes" := Val(Text("Checked"))]]);
      Merge([a, b], key) == Ok(State(b.rows, 1, []))
  {
    var key := "Asset Code";
    var cols := [key, "Notes"];
    var r0: Row := map[key := Val(Text("A1")), "Notes" := Empty];
    var i1: Row := map[key := Val(Text("A1")), "Notes" := Val(Text("Checked"))];
    var a := Table(cols, [r0]);
    var b := Table(cols, [i1]);
    assert key != "Notes" && "Notes" !in Placeholders;
    assert UpdateColumns(cols, key) == ["Notes"];
    assert ["Notes"][..0] == [];
    assert r0["Notes" := Val(Text("Checked"))] == i1;
    assert MergeFields(r0, i1, ["Notes"], Val(Text("A1"))) == FieldsOutcome(i1, 1, []);
    var st := State([r0], 0, []);
    assert FirstMatch([r0], key, Val(Text("A1"))) == Some(0);
    MergeIncomingUnfold(st, i1, cols, key);
    assert MergeIncoming(st, i1, cols, key) == State([i1], 1, []);
    assert [i1][..0] == [];
    assert MergeRows(st, b.rows, cols, key) == State([i1], 1, []);
    assert [a, b][1..] == [b] && [b][..0] == [];
  }
}

/** What a plain INSERT stores, row by row and cell by cell. */
module InsertEffects {
  import opened Types
  import opened Tables
  import opened Index
  import opened Catalog
  import opened TableIndexes
  import opened Scans
  import opened Engine
  import opened Rollback
  import opened Statements
  import opened StatementEffects

  lemma KnownTable(db: Db, table: string)
    requires Inv(db) && table in db.catalog
    ensures table in db.tables && IdsBounded(db.tables[table])
  {
    InvBounded(db, table);
  }

  /** What one table stores, and its allocation counter. */
  ghost predicate Holds(db: Db, table: string, rows: RowValues, nextId: RowId) {
    table in db.tables && RowVals(db.tables[table].rows) == rows && db.tables[table].nextId == nextId
  }

  lemma InsertHolds(db: Db, table: string, v: Values)
    requires Inv(db) && table in db.catalog && InsertRow(db, table, v).Ok?
    ensures table in db.tables
    ensures var db', t := InsertRow(db, table, v).value, db.tables[table];
      && Inv(db') && db'.catalog == db.catalog
      && Holds(db', table, RowVals(t.rows)[t.nextId := v], t.nextId + 1)
      && forall u :: u in db.tables && u != table ==> u in db'.tables && db'.tables[u] == db.tables[u]
  {
    hide Inv, IdsBounded, InsertRow, AddRow, ColNames, Replaced;
    KnownTable(db, table);
    InsertKeepsInv(db, table, v);
    InsertReplaces(db, table, v);
    var t := db.tables[table];
    var m := AddRow(IndexesOf(db.indexes, table), ColNames(db.catalog[table]), v, t.nextId).value;
    ReplacedTables(db, table, InsertNew(t, NewRow(v)), m, InsertRow(db, table, v).value);
    assert RowVals(InsertNew(t, NewRow(v)).rows) == RowVals(t.rows)[t.nextId := v];
  }

  /** New rows under consecutive ids. */
  ghost function Appended(rows: RowValues, nextId: RowId, vs: seq<Values>): RowValues {
    if vs == [] then rows
    else Appended(rows, nextId, vs[..|vs| - 1])[nextId + |vs| - 1 := vs[|vs| - 1]]
  }

  lemma AppendedSnoc(rows: RowValues, nextId: RowId, vs: seq<Values>, v: Values)
    ensures Appended(rows, nextId, vs + [v]) == Appended(rows, nextId, vs)[nextId + |vs| := v]
  {
    assert (vs + [v])[..|vs|] == vs;
  }

  /** All rows of the list, coerced and checked. */
  ghost function Proposals(schema: TableSchema, raws: seq<Values>): Result<seq<Values>, Error> {
    if raws == [] then Ok([])
    else
      match Proposals(schema, raws[..|raws| - 1])
      case Err(e) => Err(e)
      case Ok(init) =>
        match Proposed(schema, raws[|raws| - 1])
        case Err(e) => Err(e)
        case Ok(v) => Ok(init + [v])
  }

  lemma ProposalsSnoc(schema: TableSchema, raws: seq<Values>, raw: Values)
    requires Proposals(schema, raws).Ok? && Proposed(schema, raw).Ok?
    ensures Proposals(schema, raws + [raw]) == Ok(Proposals(schema, raws).value + [Proposed(schema, raw).value])
  {
    assert (raws + [raw])[..|raws|] == raws;
  }

  lemma InsertRowsLast(db: Db, table: string, onConflict: Option<OnConflict>, raws: seq<Values>)
    requires raws != [] && InsertRows(db, table, onConflict, raws).Ok?
    ensures var before := InsertRows(db, table, onConflict, raws[..|raws| - 1]);
      && before.Ok? && table in before.value.0.catalog
      && var one := InsertOne(before.value.0, table, onConflict, raws[|raws| - 1]);
         one.Ok? && InsertRows(db, table, onConflict, raws).value == (one.value.0, before.value.1 + one.value.1)
  {
    hide InsertOne;
  }

  lemma KeptSession(db: Db, table: string, onConflict: Option<OnConflict>, raws: seq<Values>)
    requires InsertRows(db, table, onConflict, raws).Ok?
    ensures InsertRows(db, table, onConflict, raws).value.0.session.txn == db.session.txn
  {
    hide InsertRows, Run;
    var es := InsertRowsIsRun(db, table, onConflict, raws);
    RowRunKeepsSession(db, es);
  }

  lemma RowValsKeys(t: Table)
    ensures RowVals(t.rows).Keys == t.rows.Keys
  {
  }

  // ---- The cells of a VALUES row.

  /** What column `c` holds for a given value: its conversion to the column's type, NULL only where allowed. */
  ghost predicate CellFor(c: ColumnDef, given: Value, cell: Value) {
    CoerceTo(given, c.dataType) == Ok(cell) && (cell == Null ==> c.nullable)
  }

  /** One cell per column, in order; what is not given is NULL, and what is given in excess is dropped. */
  ghost predicate RowFor(columns: seq<ColumnDef>, given: Values, row: Values) {
    && |row| == |columns|
    && forall i :: 0 <= i < |columns| ==> CellFor(columns[i], if i < |given| then given[i] else Null, row[i])
  }

  lemma {:induction false} CoerceRowCells(columns: seq<ColumnDef>, given: Values)
    ensures var r := CoerceRow(columns, given);
      if r.Ok? then
        && |r.value| == |columns|
        && forall i :: 0 <= i < |columns| ==> CoerceTo(CellAt(given, i), columns[i].dataType) == Ok(r.value[i])
      else exists i :: 0 <= i < |columns| && CoerceTo(CellAt(given, i), columns[i].dataType).Err?
  {
    hide CoerceTo;
    if columns != [] {
      var n := |columns| - 1;
      CoerceRowCells(columns[..n], given);
      assert forall i :: 0 <= i < n ==> columns[..n][i] == columns[i];
      if CoerceRow(columns[..n], given).Err? {
        var i :| 0 <= i < n && CoerceTo(CellAt(given, i), columns[..n][i].dataType).Err?;
        assert CoerceTo(CellAt(given, i), columns[i].dataType).Err?;
      }
    }
  }

  lemma RowForProposed(schema: TableSchema, given: Values, row: Values)
    requires RowFor(schema.columns, given, row)
    ensures Proposed(schema, given) == Ok(row)
  {
    hide CoerceTo;
    forall i | 0 <= i < |row| ensures CoerceTo(CellAt(given, i), schema.columns[i].dataType) == Ok(row[i])
      ensures row[i] == Null ==> schema.columns[i].nullable
    {
      assert CellFor(schema.columns[i], CellAt(given, i), row[i]);
    }
    CoerceRowCells(schema.columns, given);
    assert CoerceRow(schema.columns, given).value == row;
  }

  /** A VALUES row is accepted exactly if there is a row for it, and then it is that row. */
  lemma ProposedExact(schema: TableSchema, given: Values)
    ensures Proposed(schema, given).Ok? ==> RowFor(schema.columns, given, Proposed(schema, given).value)
    ensures Proposed(schema, given).Ok? <==> exists row :: RowFor(schema.columns, given, row)
  {
    hide CoerceTo;
    CoerceRowCells(schema.columns, given);
    if row :| RowFor(schema.columns, given, row) {
      RowForProposed(schema, given, row);
    }
  }

  lemma RowForUnique(columns: seq<ColumnDef>, given: Values, a: Values, b: Values)
    requires RowFor(columns, given, a) && RowFor(columns, given, b)
    ensures a == b
  {
    hide CoerceTo;
    forall i | 0 <= i < |columns| ensures a[i] == b[i] {
      assert CellFor(columns[i], if i < |given| then given[i] else Null, a[i]);
      assert CellFor(columns[i], if i < |given| then given[i] else Null, b[i]);
    }
  }

  // ---- One row.

  /** An insertion succeeds exactly if the rows with the new one satisfy the unique indexes. */
  lemma InsertExact(db: Db, table: string, v: Values)
    requires Inv(db) && table in db.catalog && db.session.txn.Some?
    ensures table in db.tables
    ensures InsertRow(db, table, v).Ok?
      <==> UniqueRows(db.catalog[table], RowVals(db.tables[table].rows)[db.tables[table].nextId := v])
  {
    hide TableAgrees, AddRow, UniqueRows, ColNames;
    var schema, m, t := db.catalog[table], IndexesOf(db.indexes, table), db.tables[table];
    assert TableOk(schema, m, t);
    AddRowAgrees(schema, m, RowVals(t.rows), v, t.nextId);
  }

  lemma InsertStores(db: Db, table: string, v: Values)
    requires Inv(db) && table in db.catalog && InsertRow(db, table, v).Ok?
    ensures table in db.tables
    ensures var db' := InsertRow(db, table, v).value;
      && Inv(db') && db'.catalog == db.catalog && OnlyTable(db, db', table)
      && db'.tables[table] == InsertNew(db.tables[table], NewRow(v))
  {
    hide Inv, IdsBounded, InsertRow, AddRow, ColNames, Replaced;
    KnownTable(db, table);
    InsertKeepsInv(db, table, v);
    InsertReplaces(db, table, v);
    var m := AddRow(IndexesOf(db.indexes, table), ColNames(db.catalog[table]), v, db.tables[table].nextId).value;
    ReplacedTables(db, table, InsertNew(db.tables[table], NewRow(v)), m, InsertRow(db, table, v).value);
  }

  // ---- The whole list.

  /** `t'` holds the old rows and, under consecutive new ids, one row for each of the list. */
  ghost predicate PlainInserted(columns: seq<ColumnDef>, t: Table, given: seq<Values>, t': Table) {
    && t'.nextId == t.nextId + |given|
    && (forall id :: id in t'.rows <==> id in t.rows || t.nextId <= id < t'.nextId)
    && (forall id :: id in t.rows ==> t'.rows[id] == t.rows[id])
    && (forall i :: 0 <= i < |given| ==> NewRowFor(columns, given[i], t'.rows[t.nextId + i]))
  }

  ghost predicate NewRowFor(columns: seq<ColumnDef>, given: Values, row: Row) {
    row.version == 1 && RowFor(columns, given, row.values)
  }

  lemma InsertedOneMore(columns: seq<ColumnDef>, t: Table, given: seq<Values>, mid: Table, last: Values, v: Values)
    requires IdsBounded(t) && PlainInserted(columns, t, given, mid) && RowFor(columns, last, v)
    ensures PlainInserted(columns, t, given + [last], InsertNew(mid, NewRow(v)))
  {
    hide RowFor;
    var all, t' := given + [last], InsertNew(mid, NewRow(v));
    forall i | 0 <= i < |all| ensures NewRowFor(columns, all[i], t'.rows[t.nextId + i]) {
      if i < |given| {
        assert NewRowFor(columns, given[i], mid.rows[t.nextId + i]);
      }
    }
  }

  lemma {:induction false} PlainRowsEffect(db: Db, table: string, given: seq<Values>)
    requires Inv(db) && table in db.catalog && InsertRows(db, table, None, given).Ok?
    ensures table in db.tables
    ensures var (db', count) := InsertRows(db, table, None, given).value;
      && Inv(db') && db'.catalog == db.catalog && OnlyTable(db, db', table) && count == |given|
      && PlainInserted(db.catalog[table].columns, db.tables[table], given, db'.tables[table])
    decreases |given|
  {
    hide Inv, InsertOne, IdsBounded, PlainInserted;
    KnownTable(db, table);
    if given == [] {
      NothingInserted(db.catalog[table].columns, db.tables[table]);
    } else {
      var init, last := given[..|given| - 1], given[|given| - 1];
      InsertRowsLast(db, table, None, given);
      PlainRowsEffect(db, table, init);
      hide InsertRows;
      var (mid, n) := InsertRows(db, table, None, init).value;
      var v := PlainOneEffect(mid, table, last);
      assert given == init + [last];
      InsertedOneMore(db.catalog[table].columns, db.tables[table], init, mid.tables[table], last, v);
    }
  }

  lemma NothingInserted(columns: seq<ColumnDef>, t: Table)
    requires IdsBounded(t)
    ensures PlainInserted(columns, t, [], t)
  {
  }

  lemma PlainOneEffect(db: Db, table: string, given: Values) returns (v: Values)
    requires Inv(db) && table in db.catalog && InsertOne(db, table, None, given).Ok?
    ensures table in db.tables && RowFor(db.catalog[table].columns, given, v)
    ensures var (db', n) := InsertOne(db, table, None, given).value;
      && Inv(db') && db'.catalog == db.catalog && OnlyTable(db, db', table) && n == 1
      && db'.tables[table] == InsertNew(db.tables[table], NewRow(v))
  {
    hide Inv, InsertRow, Proposed, RowFor;
    v := Proposed(db.catalog[table], given).value;
    ProposedExact(db.catalog[table], given);
    InsertStores(db, table, v);
  }

  // ---- When it succeeds.

  lemma UniqueWithout(schema: TableSchema, rows: RowValues, id: RowId)
    requires UniqueRows(schema, rows)
    ensures UniqueRows(schema, rows - {id})
  {
    hide KeyOf;
    forall i | 0 <= i < |schema.indexes| ensures UniqueFor(schema.indexes[i], ColNames(schema), rows - {id}) {
      assert UniqueFor(schema.indexes[i], ColNames(schema), rows);
      var all, some := KeysOf(schema.indexes[i].columns, ColNames(schema), rows),
                       KeysOf(schema.indexes[i].columns, ColNames(schema), rows - {id});
      assert forall x :: x in some ==> x in all && some[x] == all[x];
    }
  }

  lemma SameInserted(columns: seq<ColumnDef>, t: Table, given: seq<Values>, a: Table, b: Table)
    requires PlainInserted(columns, t, given, a) && PlainInserted(columns, t, given, b)
    ensures RowVals(a.rows) == RowVals(b.rows)
  {
    hide RowFor;
    forall id | id in a.rows ensures a.rows[id].values == b.rows[id].values {
      if id !in t.rows {
        var i := id - t.nextId;
        assert NewRowFor(columns, given[i], a.rows[t.nextId + i]) && NewRowFor(columns, given[i], b.rows[t.nextId + i]);
        RowForUnique(columns, given[i], a.rows[id].values, b.rows[id].values);
      }
    }
  }

  /** The table before the last row of the list. */
  lemma InsertedOneLess(schema: TableSchema, t: Table, given: seq<Values>, t': Table) returns (mid: Table)
    requires IdsBounded(t) && given != [] && PlainInserted(schema.columns, t, given, t')
    requires UniqueRows(schema, RowVals(t'.rows))
    ensures PlainInserted(schema.columns, t, given[..|given| - 1], mid) && UniqueRows(schema, RowVals(mid.rows))
    ensures mid.nextId in t'.rows && RowFor(schema.columns, given[|given| - 1], t'.rows[mid.nextId].values)
    ensures RowVals(t'.rows) == RowVals(mid.rows)[mid.nextId := t'.rows[mid.nextId].values]
  {
    hide RowFor, UniqueRows;
    var init, id := given[..|given| - 1], t'.nextId - 1;
    mid := Table(t'.rows - {id}, id);
    UniqueWithout(schema, RowVals(t'.rows), id);
    assert RowVals(t'.rows) - {id} == RowVals(mid.rows);
    forall i | 0 <= i < |init| ensures NewRowFor(schema.columns, init[i], mid.rows[t.nextId + i]) {
      assert NewRowFor(schema.columns, given[i], t'.rows[t.nextId + i]);
    }
    assert NewRowFor(schema.columns, given[|given| - 1], t'.rows[t.nextId + (|given| - 1)]);
  }

  lemma {:induction false} PlainRowsSucceed(db: Db, table: string, given: seq<Values>, t': Table)
    requires Inv(db) && table in db.catalog && table in db.tables && db.session.txn.Some?
    requires PlainInserted(db.catalog[table].columns, db.tables[table], given, t')
    requires UniqueRows(db.catalog[table], RowVals(t'.rows))
    ensures InsertRows(db, table, None, given).Ok?
    decreases |given|
  {
    if given != [] {
      hide Inv, InsertOne, IdsBounded, PlainInserted, UniqueRows, RowFor;
      KnownTable(db, table);
      var init, last := given[..|given| - 1], given[|given| - 1];
      var before := InsertedOneLess(db.catalog[table], db.tables[table], given, t');
      PlainRowsSucceed(db, table, init, before);
      PlainRowsEffect(db, table, init);
      KeptSession(db, table, None, init);
      var mid := InsertRows(db, table, None, init).value.0;
      SameInserted(db.catalog[table].columns, db.tables[table], init, before, mid.tables[table]);
      SameNextId(db.catalog[table].columns, db.tables[table], init, before, mid.tables[table]);
      PlainOneSucceeds(mid, table, last, t'.rows[before.nextId].values);
    }
  }

  lemma SameNextId(columns: seq<ColumnDef>, t: Table, given: seq<Values>, a: Table, b: Table)
    requires PlainInserted(columns, t, given, a) && PlainInserted(columns, t, given, b)
    ensures a.nextId == b.nextId
  {
  }

  lemma PlainOneSucceeds(db: Db, table: string, given: Values, v: Values)
    requires Inv(db) && table in db.catalog && table in db.tables && db.session.txn.Some?
    requires RowFor(db.catalog[table].columns, given, v)
    requires UniqueRows(db.catalog[table], RowVals(db.tables[table].rows)[db.tables[table].nextId := v])
    ensures InsertOne(db, table, None, given).Ok?
  {
    hide Inv, InsertRow, Proposed, RowFor, UniqueRows, RowVals;
    ProposedExact(db.catalog[table], given);
    RowForUnique(db.catalog[table].columns, given, v, Proposed(db.catalog[table], given).value);
    InsertExact(db, table, v);
  }

  /**
   INSERT without ON CONFLICT.  It succeeds exactly if every VALUES row converts, has no NULL where
   none is allowed, and all rows together satisfy the unique indexes; then the table holds the old
   rows and one new one for each, under consecutive ids, and the count is their number.
   */
  lemma PlainInsertEffect(db: Db, table: string, given: seq<Values>)
    requires Inv(db) && table in db.catalog
    ensures table in db.tables
    ensures InsertStatement(db, table, None, given).Ok?
      <==> exists t' :: PlainInserted(db.catalog[table].columns, db.tables[table], given, t')
                        && UniqueRows(db.catalog[table], RowVals(t'.rows))
    ensures InsertStatement(db, table, None, given).Ok? ==>
      var (db', count) := InsertStatement(db, table, None, given).value;
      && Inv(db') && OnlyTable(db, db', table) && count == |given|
      && PlainInserted(db.catalog[table].columns, db.tables[table], given, db'.tables[table])
  {
    hide Inv, InsertRows, PlainInserted, UniqueRows, RowVals, IdsBounded;
    KnownTable(db, table);
    OpenedSame(db);
    var start, schema, t := Opened(db), db.catalog[table], db.tables[table];
    if InsertRows(start, table, None, given).Ok? {
      PlainRowsEffect(start, table, given);
      var (mid, count) := InsertRows(start, table, None, given).value;
      var db' := InsertStatement(db, table, None, given).value.0;
      SameData(mid, db');
      TableUnique(mid, table);
    }
    if t' :| PlainInserted(schema.columns, t, given, t') && UniqueRows(schema, RowVals(t'.rows)) {
      PlainRowsSucceed(start, table, given, t');
    }
  }

  lemma OpenedSame(db: Db)
    requires Inv(db)
    ensures var start := Opened(db);
      Inv(start) && start.catalog == db.catalog && start.tables == db.tables && start.session.txn.Some?
  {
    hide Inv;
    SameData(db, Opened(db));
  }

  lemma TableUnique(db: Db, table: string)
    requires Inv(db) && table in db.catalog
    ensures table in db.tables && UniqueRows(db.catalog[table], RowVals(db.tables[table].rows))
  {
    hide TableAgrees, UniqueRows, RowVals;
    assert TableOk(db.catalog[table], IndexesOf(db.indexes, table), db.tables[table]);
    TableAgreesUnique(db.catalog[table], IndexesOf(db.indexes, table), RowVals(db.tables[table].rows));
  }
}

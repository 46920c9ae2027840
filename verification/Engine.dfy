/**
 The engine as a state machine: catalog, tables, indexes, log and the running transaction, moved
 by the row steps of statements and by transaction control.

 A run is serial: one transaction at a time.  A step that the engine answers with an error ends
 the run, so every run below consists of steps that returned Ok.
 */
module Engine {
  import opened Types
  import opened WalFormat
  import opened Tables
  import opened Index
  import opened Catalog
  import opened TableIndexes
  import opened Scans

  datatype UndoRecord =
    | UndoInsert(table: string, rowId: RowId)
    | UndoUpdate(table: string, rowId: RowId, oldRow: Row)
    | UndoDelete(table: string, rowId: RowId, oldRow: Row)

  /** `autoCommit` marks the transaction opened for a single statement. */
  datatype Session = Session(txn: Option<TxnId>, autoCommit: bool, undo: seq<UndoRecord>)

  const IDLE: Session := Session(None, false, [])

  datatype Db = Db(
    catalog: SchemaMap,
    tables: TableMap,
    indexes: IndexSet,
    log: seq<Entry>,
    lsn: nat,
    nextTxn: TxnId,
    session: Session)

  // ---- Row steps.

  function Logged(db: Db, op: WalOp): Db {
    db.(log := db.log + [Entry(db.lsn + 1, op)], lsn := db.lsn + 1)
  }

  function Put(db: Db, table: string, t: Table, m: IndexMap): Db {
    db.(tables := db.tables[table := t], indexes := SetIndexes(db.indexes, table, m))
  }

  /** Undo records are kept for explicit transactions only. */
  function Recorded(db: Db, rec: UndoRecord): Db {
    if db.session.autoCommit then db else db.(session := db.session.(undo := db.session.undo + [rec]))
  }

  function Cols(db: Db, table: string): seq<string>
    requires table in db.catalog
  {
    ColNames(db.catalog[table])
  }

  function InsertRow(db: Db, table: string, values: Values): Result<Db, Error> {
    if db.session.txn == None then Err(Execution)
    else if table !in db.catalog then Err(TableNotFound)
    else
      var t := TableOf(db.tables, table);
      match AddRow(IndexesOf(db.indexes, table), Cols(db, table), values, t.nextId)
      case Err(e) => Err(e)
      case Ok(m) =>
        var stored := Put(db, table, InsertNew(t, NewRow(values)), m);
        Ok(Recorded(Logged(stored, WalOp.Insert(db.session.txn.value, table, t.nextId, NewRow(values))),
                    UndoInsert(table, t.nextId)))
  }

  function UpdateRow(db: Db, table: string, id: RowId, values: Values): Result<Db, Error> {
    if db.session.txn == None then Err(Execution)
    else if table !in db.catalog then Err(TableNotFound)
    else if id !in TableOf(db.tables, table).rows then Err(Execution)
    else
      var t := TableOf(db.tables, table);
      var prev := t.rows[id];
      var row := Row(values, prev.version + 1);
      var dropped := DropRow(IndexesOf(db.indexes, table), Cols(db, table), prev.values, id);
      match AddRow(dropped, Cols(db, table), values, id)
      case Err(e) => Err(e)
      case Ok(m) =>
        var stored := Put(db, table, t.(rows := t.rows[id := row]), m);
        Ok(Recorded(Logged(stored, WalOp.Update(db.session.txn.value, table, id, row)),
                    UndoUpdate(table, id, prev)))
  }

  function DeleteRow(db: Db, table: string, id: RowId): Result<Db, Error> {
    if db.session.txn == None then Err(Execution)
    else if table !in db.catalog then Err(TableNotFound)
    else if id !in TableOf(db.tables, table).rows then Err(Execution)
    else
      var t := TableOf(db.tables, table);
      var prev := t.rows[id];
      var m := DropRow(IndexesOf(db.indexes, table), Cols(db, table), prev.values, id);
      var stored := Put(db, table, DeleteAt(t, id), m);
      Ok(Recorded(Logged(stored, WalOp.Delete(db.session.txn.value, table, id)),
                  UndoDelete(table, id, prev)))
  }

  // ---- Transactions.

  function BeginTxn(db: Db, autoCommit: bool): Result<Db, Error> {
    if db.session.txn.Some? then Err(Execution)
    else
      Ok(Logged(db, WalOp.Begin(db.nextTxn)).(nextTxn := db.nextTxn + 1,
                                              session := Session(Some(db.nextTxn), autoCommit, [])))
  }

  function CommitTxn(db: Db): Result<Db, Error> {
    if db.session.txn == None then Err(Execution)
    else Ok(Logged(db, WalOp.Commit(db.session.txn.value)).(session := IDLE))
  }

  function UndoStep(db: Db, rec: UndoRecord): Result<Db, Error> {
    var table, id := rec.table, rec.rowId;
    var t, ixs := TableOf(db.tables, table), IndexesOf(db.indexes, table);
    if rec.UndoInsert? then
      if id !in t.rows then Ok(db)
      else if table !in db.catalog || table !in db.tables then Err(TableNotFound)
      else Ok(Put(db, table, DeleteAt(t, id), DropRow(ixs, Cols(db, table), t.rows[id].values, id)))
    else if table !in db.catalog then Err(TableNotFound)
    else if rec.UndoUpdate? && table !in db.tables then Err(TableNotFound)
    else
      var dropped := if rec.UndoUpdate? && id in t.rows
                     then DropRow(ixs, Cols(db, table), t.rows[id].values, id) else ixs;
      var t' := if rec.UndoUpdate? then UpdateAt(t, id, rec.oldRow) else InsertAt(t, id, rec.oldRow);
      match AddRow(dropped, Cols(db, table), rec.oldRow.values, id)
      case Err(e) => Err(e)
      case Ok(m) => Ok(Put(db, table, t', m))
  }

  /** The last record is undone first. */
  function UndoAll(db: Db, undo: seq<UndoRecord>): Result<Db, Error>
    decreases |undo|
  {
    if undo == [] then Ok(db)
    else
      match UndoStep(db, undo[|undo| - 1])
      case Err(e) => Err(e)
      case Ok(db') => UndoAll(db', undo[..|undo| - 1])
  }

  function RollbackTxn(db: Db): Result<Db, Error> {
    if db.session.txn == None || db.session.autoCommit then Err(Execution)
    else UndoAll(Logged(db, WalOp.Abort(db.session.txn.value)).(session := IDLE), db.session.undo)
  }

  // ---- Schema changes.

  function CreateIndex(db: Db, table: string, meta: IndexMeta): Result<Db, Error> {
    if table !in db.catalog then Err(TableNotFound)
    else
      var schema := db.catalog[table];
      var ixs := IndexesOf(db.indexes, table);
      if exists i :: 0 <= i < |meta.columns| && Position(ColNames(schema), meta.columns[i]) == None
      then Err(ColumnNotFound)
      else
        match Build(EmptyIndex(meta), ColNames(schema), Scan(TableOf(db.tables, table)))
        case Err(e) => Err(e)
        case Ok(ix) =>
          if meta.name in ixs || (exists i :: 0 <= i < |schema.indexes| && schema.indexes[i].name == meta.name)
          then Err(IndexExists)
          else Ok(db.(catalog := db.catalog[table := schema.(indexes := schema.indexes + [meta])],
                      indexes := db.indexes[table := ixs[meta.name := ix]]))
  }

  function PrimaryKey(columns: seq<ColumnDef>): seq<string> {
    if columns == [] then []
    else
      var last := columns[|columns| - 1];
      PrimaryKey(columns[..|columns| - 1]) + if last.primaryKey then [last.name] else []
  }

  function PrimaryIndex(table: string, columns: seq<ColumnDef>): seq<IndexMeta> {
    var pk := PrimaryKey(columns);
    if pk == [] then [] else [IndexMeta(table + "_pkey", pk, true)]
  }

  /** The primary-key index starts empty. */
  function CreateTable(db: Db, table: string, columns: seq<ColumnDef>): Result<Db, Error> {
    var metas := PrimaryIndex(table, columns);
    var ixs := IndexesOf(db.indexes, table);
    if table in db.catalog then Err(Execution)
    else if metas != [] && metas[0].name in ixs then Err(IndexExists)
    else
      var created := db.(catalog := db.catalog[table := TableSchema(columns, metas)],
                         tables := db.tables[table := TableOf(db.tables, table)]);
      if metas == [] then Ok(created)
      else Ok(created.(indexes := db.indexes[table := ixs[metas[0].name := EmptyIndex(metas[0])]]))
  }

  // ---- Runs.

  datatype Event =
    | EBegin
    | EAutoBegin
    | EInsert(table: string, values: Values)
    | EUpdate(table: string, rowId: RowId, values: Values)
    | EDelete(table: string, rowId: RowId)
    | ECommit
    | ERollback
    | ECreateTable(table: string, columns: seq<ColumnDef>)
    | ECreateIndex(table: string, meta: IndexMeta)
  {
    predicate IsRowStep() {
      EInsert? || EUpdate? || EDelete?
    }

    predicate IsDdl() {
      ECreateTable? || ECreateIndex?
    }
  }

  function Step(db: Db, e: Event): Result<Db, Error> {
    match e
    case EBegin => BeginTxn(db, false)
    case EAutoBegin => BeginTxn(db, true)
    case EInsert(table, values) => InsertRow(db, table, values)
    case EUpdate(table, id, values) => UpdateRow(db, table, id, values)
    case EDelete(table, id) => DeleteRow(db, table, id)
    case ECommit => CommitTxn(db)
    case ERollback => RollbackTxn(db)
    case ECreateTable(table, columns) => CreateTable(db, table, columns)
    case ECreateIndex(table, meta) => CreateIndex(db, table, meta)
  }

  function Run(db: Db, es: seq<Event>): Result<Db, Error> {
    if es == [] then Ok(db)
    else
      match Run(db, es[..|es| - 1])
      case Err(e) => Err(e)
      case Ok(mid) => Step(mid, es[|es| - 1])
  }

  lemma RunNothing(db: Db)
    ensures Run(db, []) == Ok(db)
  {
  }

  lemma RunSnoc(db: Db, es: seq<Event>, mid: Db, e: Event, es': seq<Event>)
    requires Run(db, es) == Ok(mid) && es' == es + [e]
    ensures Run(db, es') == Step(mid, e)
  {
    hide Step;
    assert (es + [e])[..|es|] == es;
  }

  // ---- The invariant: live indexes agree with the stored rows.

  ghost predicate TableOk(schema: TableSchema, m: IndexMap, t: Table) {
    DistinctNames(schema.indexes) && IdsBounded(t) && TableAgrees(schema, m, RowVals(t.rows))
  }

  ghost predicate Inv(db: Db) {
    && db.tables.Keys == db.catalog.Keys
    && db.indexes.Keys <= db.catalog.Keys
    && forall t :: t in db.catalog ==> TableOk(db.catalog[t], IndexesOf(db.indexes, t), db.tables[t])
  }

  type RowMap = map<string, RowValues>

  /** What is stored, versions and allocation counters aside. */
  function ValuesOf(tables: TableMap): RowMap {
    map t | t in tables :: RowVals(tables[t].rows)
  }

  function WithValue(vm: RowMap, table: string, id: RowId, values: Values): RowMap {
    var rows: RowValues := if table in vm then vm[table] else map[];
    vm[table := rows[id := values]]
  }

  function WithoutValue(vm: RowMap, table: string, id: RowId): RowMap {
    var rows: RowValues := if table in vm then vm[table] else map[];
    vm[table := rows - {id}]
  }

  /** `db'` is `db` with one table and its indexes replaced. */
  ghost predicate Replaced(db: Db, table: string, t: Table, m: IndexMap, db': Db) {
    && db'.catalog == db.catalog
    && db'.tables == db.tables[table := t]
    && db'.indexes == SetIndexes(db.indexes, table, m)
    && m.Keys == IndexesOf(db.indexes, table).Keys
  }

  lemma ReplacedKeepsInv(db: Db, table: string, t: Table, m: IndexMap, db': Db)
    requires Inv(db) && table in db.catalog
    requires Replaced(db, table, t, m, db') && TableOk(db.catalog[table], m, t)
    ensures Inv(db')
  {
    hide TableOk;
    assert IndexesOf(db'.indexes, table) == m;
    forall u | u in db'.catalog
      ensures TableOk(db'.catalog[u], IndexesOf(db'.indexes, u), db'.tables[u])
    {
      if u != table {
        assert IndexesOf(db'.indexes, u) == IndexesOf(db.indexes, u);
      }
    }
  }

  lemma ValuesOfUpdate(tables: TableMap, table: string, t: Table)
    ensures ValuesOf(tables[table := t]) == ValuesOf(tables)[table := RowVals(t.rows)]
  {
    hide RowVals;
  }

  lemma InsertReplaces(db: Db, table: string, values: Values)
    requires InsertRow(db, table, values).Ok?
    ensures table in db.catalog && db.session.txn.Some?
    ensures var t, m := TableOf(db.tables, table), IndexesOf(db.indexes, table);
      var added := AddRow(m, Cols(db, table), values, t.nextId);
      added.Ok? && Replaced(db, table, InsertNew(t, NewRow(values)), added.value, InsertRow(db, table, values).value)
  {
    AddRowKeys(IndexesOf(db.indexes, table), Cols(db, table), values, TableOf(db.tables, table).nextId);
  }

  lemma UpdateReplaces(db: Db, table: string, id: RowId, values: Values)
    requires UpdateRow(db, table, id, values).Ok?
    ensures table in db.catalog && db.session.txn.Some? && id in TableOf(db.tables, table).rows
    ensures var t, m := TableOf(db.tables, table), IndexesOf(db.indexes, table);
      var dropped := DropRow(m, Cols(db, table), t.rows[id].values, id);
      var added := AddRow(dropped, Cols(db, table), values, id);
      && added.Ok?
      && Replaced(db, table, t.(rows := t.rows[id := Row(values, t.rows[id].version + 1)]), added.value,
                  UpdateRow(db, table, id, values).value)
  {
    var t, m := TableOf(db.tables, table), IndexesOf(db.indexes, table);
    DropRowKeys(m, Cols(db, table), t.rows[id].values, id);
    AddRowKeys(DropRow(m, Cols(db, table), t.rows[id].values, id), Cols(db, table), values, id);
  }

  lemma DeleteReplaces(db: Db, table: string, id: RowId)
    requires DeleteRow(db, table, id).Ok?
    ensures table in db.catalog && db.session.txn.Some? && id in TableOf(db.tables, table).rows
    ensures var t, m := TableOf(db.tables, table), IndexesOf(db.indexes, table);
      var dropped := DropRow(m, Cols(db, table), t.rows[id].values, id);
      Replaced(db, table, DeleteAt(t, id), dropped, DeleteRow(db, table, id).value)
  {
    var t, m := TableOf(db.tables, table), IndexesOf(db.indexes, table);
    DropRowKeys(m, Cols(db, table), t.rows[id].values, id);
  }

  lemma InsertKeepsInv(db: Db, table: string, values: Values)
    requires Inv(db) && InsertRow(db, table, values).Ok?
    ensures Inv(InsertRow(db, table, values).value)
    ensures ValuesOf(InsertRow(db, table, values).value.tables)
         == WithValue(ValuesOf(db.tables), table, db.tables[table].nextId, values)
  {
    hide InsertRow, TableAgrees, AddRow, ColNames, Replaced;
    InsertReplaces(db, table, values);
    var t, m, schema := db.tables[table], IndexesOf(db.indexes, table), db.catalog[table];
    var t', added := InsertNew(t, NewRow(values)), AddRow(m, ColNames(schema), values, t.nextId);
    var db' := InsertRow(db, table, values).value;
    assert TableOk(schema, m, t);
    AddRowAgrees(schema, m, RowVals(t.rows), values, t.nextId);
    assert RowVals(t'.rows) == RowVals(t.rows)[t.nextId := values];
    ReplacedKeepsInv(db, table, t', added.value, db');
    assert db'.tables == db.tables[table := t'] by { ReplacedTables(db, table, t', added.value, db'); }
    ValuesOfUpdate(db.tables, table, t');
  }

  lemma ReplacedTables(db: Db, table: string, t: Table, m: IndexMap, db': Db)
    requires Replaced(db, table, t, m, db')
    ensures db'.tables == db.tables[table := t] && db'.catalog == db.catalog
  {
  }

  lemma UpdateKeepsInv(db: Db, table: string, id: RowId, values: Values)
    requires Inv(db) && UpdateRow(db, table, id, values).Ok?
    ensures Inv(UpdateRow(db, table, id, values).value)
    ensures ValuesOf(UpdateRow(db, table, id, values).value.tables)
         == WithValue(ValuesOf(db.tables), table, id, values)
  {
    hide UpdateRow, TableAgrees, AddRow, DropRow, ColNames, Replaced;
    UpdateReplaces(db, table, id, values);
    var t, m, schema := db.tables[table], IndexesOf(db.indexes, table), db.catalog[table];
    var t' := t.(rows := t.rows[id := Row(values, t.rows[id].version + 1)]);
    var dropped := DropRow(m, ColNames(schema), t.rows[id].values, id);
    var added := AddRow(dropped, ColNames(schema), values, id);
    var db' := UpdateRow(db, table, id, values).value;
    assert TableOk(schema, m, t);
    ReplaceRowAgrees(schema, m, RowVals(t.rows), values, id);
    assert RowVals(t'.rows) == RowVals(t.rows)[id := values];
    ReplacedKeepsInv(db, table, t', added.value, db');
    ReplacedTables(db, table, t', added.value, db');
    ValuesOfUpdate(db.tables, table, t');
  }

  lemma DeleteKeepsInv(db: Db, table: string, id: RowId)
    requires Inv(db) && DeleteRow(db, table, id).Ok?
    ensures Inv(DeleteRow(db, table, id).value)
    ensures ValuesOf(DeleteRow(db, table, id).value.tables)
         == WithoutValue(ValuesOf(db.tables), table, id)
  {
    hide DeleteRow, TableAgrees, DropRow, ColNames, Replaced;
    DeleteReplaces(db, table, id);
    var t, m, schema := db.tables[table], IndexesOf(db.indexes, table), db.catalog[table];
    var dropped := DropRow(m, ColNames(schema), t.rows[id].values, id);
    var db' := DeleteRow(db, table, id).value;
    assert TableOk(schema, m, t);
    DropRowAgrees(schema, m, RowVals(t.rows), id);
    assert RowVals(DeleteAt(t, id).rows) == RowVals(t.rows) - {id};
    ReplacedKeepsInv(db, table, DeleteAt(t, id), dropped, db');
    ReplacedTables(db, table, DeleteAt(t, id), dropped, db');
    ValuesOfUpdate(db.tables, table, DeleteAt(t, id));
  }

  // The invariant reads neither log nor session.
  lemma SameData(a: Db, b: Db)
    requires a.catalog == b.catalog && a.tables == b.tables && a.indexes == b.indexes
    ensures Inv(a) <==> Inv(b)
  {
  }

  lemma AddRowKeys(m: IndexMap, colNames: seq<string>, values: Values, id: RowId)
    ensures AddRow(m, colNames, values, id).Ok? ==> AddRow(m, colNames, values, id).value.Keys == m.Keys
  {
  }

  lemma DropRowKeys(m: IndexMap, colNames: seq<string>, values: Values, id: RowId)
    ensures DropRow(m, colNames, values, id).Keys == m.Keys
  {
  }
}

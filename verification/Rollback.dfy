/** Undo in reverse order restores every row's values and every index. */
module Rollback {
  import opened Types
  import opened WalFormat
  import opened Tables
  import opened Index
  import opened Catalog
  import opened TableIndexes
  import opened Scans
  import opened Engine

  // ---- Undo on values.

  function UndoValue(vm: RowMap, rec: UndoRecord): RowMap {
    match rec
    case UndoInsert(table, id) => WithoutValue(vm, table, id)
    case UndoUpdate(table, id, row) => WithValue(vm, table, id, row.values)
    case UndoDelete(table, id, row) => WithValue(vm, table, id, row.values)
  }

  function UndoValues(vm: RowMap, undo: seq<UndoRecord>): RowMap
    decreases |undo|
  {
    if undo == [] then vm else UndoValues(UndoValue(vm, undo[|undo| - 1]), undo[..|undo| - 1])
  }

  /** The row is there to be undone, or gone to be brought back. */
  ghost predicate Present(vm: RowMap, rec: UndoRecord) {
    && rec.table in vm
    && rec.rowId >= 1
    && (rec.UndoDelete? <==> rec.rowId !in vm[rec.table])
  }

  ghost predicate UniqueValues(catalog: SchemaMap, vm: RowMap) {
    forall t :: t in catalog && t in vm ==> UniqueRows(catalog[t], vm[t])
  }

  /** Every record finds the row it undoes. */
  ghost predicate AllPresent(vm: RowMap, undo: seq<UndoRecord>)
    decreases |undo|
  {
    undo == [] ||
    var rec := undo[|undo| - 1];
    Present(vm, rec) && AllPresent(UndoValue(vm, rec), undo[..|undo| - 1])
  }

  /** Every intermediate state of the undo satisfies all unique indexes. */
  ghost predicate UniqueAlong(catalog: SchemaMap, vm: RowMap, undo: seq<UndoRecord>)
    decreases |undo|
  {
    undo == [] ||
    var before := UndoValue(vm, undo[|undo| - 1]);
    UniqueValues(catalog, before) && UniqueAlong(catalog, before, undo[..|undo| - 1])
  }

  lemma InvUnique(db: Db)
    requires Inv(db)
    ensures UniqueValues(db.catalog, ValuesOf(db.tables))
  {
    forall t | t in db.catalog
      ensures UniqueRows(db.catalog[t], ValuesOf(db.tables)[t])
    {
      hide TableAgrees, UniqueRows, RowVals;
      assert TableOk(db.catalog[t], IndexesOf(db.indexes, t), db.tables[t]);
      TableAgreesUnique(db.catalog[t], IndexesOf(db.indexes, t), RowVals(db.tables[t].rows));
    }
  }

  lemma ValuesAt(tables: TableMap, table: string, id: RowId)
    ensures table in ValuesOf(tables) <==> table in tables
    ensures table in tables ==>
      && ValuesOf(tables)[table] == RowVals(tables[table].rows)
      && (id in ValuesOf(tables)[table] <==> id in tables[table].rows)
      && (id in tables[table].rows ==> ValuesOf(tables)[table][id] == tables[table].rows[id].values)
  {
  }

  // ---- One undo record on the engine.

  /** A present record is undone exactly when the older values satisfy the table's unique indexes. */
  ghost predicate Undone(db: Db, rec: UndoRecord) {
    var vm := UndoValue(ValuesOf(db.tables), rec);
    && rec.table in db.catalog && rec.table in vm
    && (UndoStep(db, rec).Ok? <==> UniqueRows(db.catalog[rec.table], vm[rec.table]))
    && (UndoStep(db, rec).Ok? ==> Inv(UndoStep(db, rec).value) && ValuesOf(UndoStep(db, rec).value.tables) == vm)
  }

  lemma UndoInsertOk(db: Db, rec: UndoRecord)
    requires rec.UndoInsert?
    requires Inv(db) && Present(ValuesOf(db.tables), rec)
    ensures Undone(db, rec)
  {
    hide TableAgrees, UniqueRows, DropRow, ColNames, SetIndexes;
    var table, id := rec.table, rec.rowId;
    var t, m, schema := db.tables[table], IndexesOf(db.indexes, table), db.catalog[table];
    var dropped := DropRow(m, ColNames(schema), t.rows[id].values, id);
    var db' := UndoStep(db, rec).value;
    assert TableOk(schema, m, t);
    DropRowAgrees(schema, m, RowVals(t.rows), id);
    DropRowKeys(m, ColNames(schema), t.rows[id].values, id);
    assert RowVals(DeleteAt(t, id).rows) == RowVals(t.rows) - {id};
    ReplacedKeepsInv(db, table, DeleteAt(t, id), dropped, db');
    ValuesOfUpdate(db.tables, table, DeleteAt(t, id));
    TableAgreesUnique(schema, dropped, RowVals(t.rows) - {id});
  }

  lemma UndoUpdateOk(db: Db, rec: UndoRecord)
    requires rec.UndoUpdate?
    requires Inv(db) && Present(ValuesOf(db.tables), rec)
    ensures Undone(db, rec)
  {
    hide TableAgrees, UniqueRows, AddRow, DropRow, ColNames, SetIndexes, UndoStep, Replaced, ValuesOf;
    var table, id, values := rec.table, rec.rowId, rec.oldRow.values;
    ValuesAt(db.tables, table, id);
    var t, m, schema := db.tables[table], IndexesOf(db.indexes, table), db.catalog[table];
    var t' := UpdateAt(t, id, rec.oldRow);
    var dropped := DropRow(m, ColNames(schema), t.rows[id].values, id);
    assert TableOk(schema, m, t);
    assert RowVals(t'.rows) == RowVals(t.rows)[id := values] == UndoValue(ValuesOf(db.tables), rec)[table];
    ReplaceRowAgrees(schema, m, RowVals(t.rows), values, id);
    UndoUpdateReplaces(db, rec);
    ValuesOfUpdate(db.tables, table, t');
    if UndoStep(db, rec).Ok? {
      ReplacedKeepsInv(db, table, t', AddRow(dropped, ColNames(schema), values, id).value, UndoStep(db, rec).value);
      ReplacedTables(db, table, t', AddRow(dropped, ColNames(schema), values, id).value, UndoStep(db, rec).value);
    }
  }

  lemma UndoUpdateReplaces(db: Db, rec: UndoRecord)
    requires rec.UndoUpdate? && rec.table in db.catalog && rec.table in db.tables
    requires rec.rowId in db.tables[rec.table].rows
    ensures var t, m := db.tables[rec.table], IndexesOf(db.indexes, rec.table);
      var dropped := DropRow(m, Cols(db, rec.table), t.rows[rec.rowId].values, rec.rowId);
      var added := AddRow(dropped, Cols(db, rec.table), rec.oldRow.values, rec.rowId);
      && (UndoStep(db, rec).Ok? <==> added.Ok?)
      && (added.Ok? ==>
            Replaced(db, rec.table, UpdateAt(t, rec.rowId, rec.oldRow), added.value, UndoStep(db, rec).value))
  {
    var t, m := db.tables[rec.table], IndexesOf(db.indexes, rec.table);
    var dropped := DropRow(m, Cols(db, rec.table), t.rows[rec.rowId].values, rec.rowId);
    DropRowKeys(m, Cols(db, rec.table), t.rows[rec.rowId].values, rec.rowId);
    AddRowKeys(dropped, Cols(db, rec.table), rec.oldRow.values, rec.rowId);
  }

  lemma UndoDeleteOk(db: Db, rec: UndoRecord)
    requires rec.UndoDelete?
    requires Inv(db) && Present(ValuesOf(db.tables), rec)
    ensures Undone(db, rec)
  {
    hide TableAgrees, UniqueRows, AddRow, ColNames, SetIndexes, UndoStep, Replaced, ValuesOf;
    var table, id, values := rec.table, rec.rowId, rec.oldRow.values;
    ValuesAt(db.tables, table, id);
    var t, m, schema := db.tables[table], IndexesOf(db.indexes, table), db.catalog[table];
    var t' := InsertAt(t, id, rec.oldRow);
    assert TableOk(schema, m, t);
    assert RowVals(t'.rows) == RowVals(t.rows)[id := values] == UndoValue(ValuesOf(db.tables), rec)[table];
    AddRowAgrees(schema, m, RowVals(t.rows), values, id);
    UndoDeleteReplaces(db, rec);
    ValuesOfUpdate(db.tables, table, t');
    if UndoStep(db, rec).Ok? {
      ReplacedKeepsInv(db, table, t', AddRow(m, ColNames(schema), values, id).value, UndoStep(db, rec).value);
      ReplacedTables(db, table, t', AddRow(m, ColNames(schema), values, id).value, UndoStep(db, rec).value);
    }
  }

  lemma UndoDeleteReplaces(db: Db, rec: UndoRecord)
    requires rec.UndoDelete? && rec.table in db.catalog && rec.table in db.tables
    ensures var t, m := db.tables[rec.table], IndexesOf(db.indexes, rec.table);
      var added := AddRow(m, Cols(db, rec.table), rec.oldRow.values, rec.rowId);
      && (UndoStep(db, rec).Ok? <==> added.Ok?)
      && (added.Ok? ==>
            Replaced(db, rec.table, InsertAt(t, rec.rowId, rec.oldRow), added.value, UndoStep(db, rec).value))
  {
    AddRowKeys(IndexesOf(db.indexes, rec.table), Cols(db, rec.table), rec.oldRow.values, rec.rowId);
  }

  lemma UndoKeepsRest(db: Db, rec: UndoRecord)
    requires UndoStep(db, rec).Ok?
    ensures var db' := UndoStep(db, rec).value;
      db'.catalog == db.catalog && db'.log == db.log && db'.lsn == db.lsn && db'.nextTxn == db.nextTxn
      && db'.session == db.session
  {
  }

  lemma UndoStepExact(db: Db, rec: UndoRecord)
    requires Inv(db) && Present(ValuesOf(db.tables), rec)
    ensures Undone(db, rec)
    ensures UndoStep(db, rec).Ok? <==> UniqueValues(db.catalog, UndoValue(ValuesOf(db.tables), rec))
  {
    hide Inv, UndoStep, UniqueRows, ValuesOf, Present;
    match rec {
      case UndoInsert(_, _) => UndoInsertOk(db, rec);
      case UndoUpdate(_, _, _) => UndoUpdateOk(db, rec);
      case UndoDelete(_, _, _) => UndoDeleteOk(db, rec);
    }
    InvUnique(db);
    var vm, vm' := ValuesOf(db.tables), UndoValue(ValuesOf(db.tables), rec);
    forall t | t in db.catalog && t in vm' && t != rec.table
      ensures UniqueRows(db.catalog[t], vm'[t])
    {
      assert t in vm && vm'[t] == vm[t];
    }
  }

  /**
   Undoing a list of present records, last first, fails exactly when some intermediate state breaks
   a unique index; otherwise it computes the undo on values and keeps the invariant.
   */
  lemma {:induction false} UndoAllExact(db: Db, undo: seq<UndoRecord>)
    requires Inv(db) && AllPresent(ValuesOf(db.tables), undo)
    ensures UndoAll(db, undo).Ok? <==> UniqueAlong(db.catalog, ValuesOf(db.tables), undo)
    ensures UndoAll(db, undo).Ok? ==>
      var db' := UndoAll(db, undo).value;
      && Inv(db') && ValuesOf(db'.tables) == UndoValues(ValuesOf(db.tables), undo)
      && db'.catalog == db.catalog && db'.log == db.log && db'.lsn == db.lsn && db'.nextTxn == db.nextTxn
      && db'.session == db.session
    decreases |undo|
  {
    hide Inv, UndoStep, UndoValue, UniqueValues, Present, ValuesOf, UniqueRows;
    if undo != [] {
      var rec := undo[|undo| - 1];
      UndoStepExact(db, rec);
      if UndoStep(db, rec).Ok? {
        UndoKeepsRest(db, rec);
        UndoAllExact(UndoStep(db, rec).value, undo[..|undo| - 1]);
      }
    }
  }

  // ---- What a transaction records is what undoes it.

  /** `base` is what was stored when the running explicit transaction began. */
  ghost predicate TxnInv(db: Db, base: RowMap) {
    && Inv(db)
    && AllPresent(ValuesOf(db.tables), db.session.undo)
    && UniqueAlong(db.catalog, ValuesOf(db.tables), db.session.undo)
    && UndoValues(ValuesOf(db.tables), db.session.undo) == base
  }

  lemma InvBounded(db: Db, table: string)
    requires Inv(db) && table in db.catalog
    ensures table in db.tables && db.tables[table].nextId >= 1
    ensures forall id :: id in db.tables[table].rows ==> 1 <= id < db.tables[table].nextId
  {
    assert TableOk(db.catalog[table], IndexesOf(db.indexes, table), db.tables[table]);
  }

  /** What a row step records: its undo record behind the earlier ones, the log and ids moved on. */
  ghost predicate Records(db: Db, rec: UndoRecord, db': Db) {
    && db'.catalog == db.catalog
    && db'.session == db.session.(undo := db.session.undo + [rec])
  }

  ghost function UndoOf(db: Db, e: Event): UndoRecord
    requires e.IsRowStep()
  {
    var t := TableOf(db.tables, e.table);
    match e
    case EInsert(table, _) => UndoInsert(table, t.nextId)
    case EUpdate(table, id, _) => UndoUpdate(table, id, if id in t.rows then t.rows[id] else NewRow([]))
    case EDelete(table, id) => UndoDelete(table, id, if id in t.rows then t.rows[id] else NewRow([]))
  }

  lemma RowStepRecords(db: Db, e: Event)
    requires e.IsRowStep() && Step(db, e).Ok? && !db.session.autoCommit
    ensures Records(db, UndoOf(db, e), Step(db, e).value)
    ensures e.table in db.catalog && db.session.txn.Some?
    ensures !e.EInsert? ==> e.rowId in TableOf(db.tables, e.table).rows
  {
    hide AddRow, DropRow, ColNames, SetIndexes;
  }

  ghost predicate Undoes(db: Db, rec: UndoRecord, db': Db) {
    && Inv(db')
    && Present(ValuesOf(db'.tables), rec)
    && UndoValue(ValuesOf(db'.tables), rec) == ValuesOf(db.tables)
  }

  lemma InsertUndone(db: Db, table: string, values: Values)
    requires Inv(db) && InsertRow(db, table, values).Ok? && table in db.catalog
    ensures Undoes(db, UndoInsert(table, TableOf(db.tables, table).nextId), InsertRow(db, table, values).value)
  {
    InvBounded(db, table);
    ValuesAt(db.tables, table, db.tables[table].nextId);
    hide Inv, InsertRow, WithValue, WithoutValue, ValuesOf;
    InsertKeepsInv(db, table, values);
    AddThenRemove(ValuesOf(db.tables), table, db.tables[table].nextId, values);
  }

  lemma UpdateUndone(db: Db, table: string, id: RowId, values: Values)
    requires Inv(db) && UpdateRow(db, table, id, values).Ok?
    requires table in db.catalog && id in TableOf(db.tables, table).rows
    ensures Undoes(db, UndoUpdate(table, id, TableOf(db.tables, table).rows[id]),
                   UpdateRow(db, table, id, values).value)
  {
    hide Inv, UpdateRow, WithValue, WithoutValue, ValuesOf;
    StoredIdPositive(db, table, id);
    ValuesAt(db.tables, table, id);
    UpdateKeepsInv(db, table, id, values);
    ChangeThenRestore(ValuesOf(db.tables), table, id, values);
  }

  lemma DeleteUndone(db: Db, table: string, id: RowId)
    requires Inv(db) && DeleteRow(db, table, id).Ok?
    requires table in db.catalog && id in TableOf(db.tables, table).rows
    ensures Undoes(db, UndoDelete(table, id, TableOf(db.tables, table).rows[id]), DeleteRow(db, table, id).value)
  {
    hide Inv, DeleteRow, WithValue, WithoutValue, ValuesOf;
    StoredIdPositive(db, table, id);
    ValuesAt(db.tables, table, id);
    DeleteKeepsInv(db, table, id);
    RemoveThenRestore(ValuesOf(db.tables), table, id);
  }

  lemma StoredIdPositive(db: Db, table: string, id: RowId)
    requires Inv(db) && table in db.catalog && id in TableOf(db.tables, table).rows
    ensures id >= 1 && table in db.tables
  {
    InvBounded(db, table);
  }

  // The undo record of a row step takes its effect back.
  lemma RowStepUndone(db: Db, e: Event)
    requires Inv(db) && e.IsRowStep() && Step(db, e).Ok? && !db.session.autoCommit
    ensures Records(db, UndoOf(db, e), Step(db, e).value)
    ensures Undoes(db, UndoOf(db, e), Step(db, e).value)
  {
    hide Inv, InsertRow, UpdateRow, DeleteRow, Undoes, Records;
    RowStepRecords(db, e);
    match e {
      case EInsert(table, values) => InsertUndone(db, table, values);
      case EUpdate(table, id, values) => UpdateUndone(db, table, id, values);
      case EDelete(table, id) => DeleteUndone(db, table, id);
    }
  }

  lemma AddThenRemove(vm: RowMap, table: string, id: RowId, values: Values)
    requires table in vm && id !in vm[table]
    ensures table in WithValue(vm, table, id, values) && id in WithValue(vm, table, id, values)[table]
    ensures WithoutValue(WithValue(vm, table, id, values), table, id) == vm
  {
    var rows: RowValues := vm[table];
    assert rows[id := values] - {id} == rows;
  }

  lemma ChangeThenRestore(vm: RowMap, table: string, id: RowId, values: Values)
    requires table in vm && id in vm[table]
    ensures table in WithValue(vm, table, id, values) && id in WithValue(vm, table, id, values)[table]
    ensures WithValue(WithValue(vm, table, id, values), table, id, vm[table][id]) == vm
  {
    var rows: RowValues := vm[table];
    assert rows[id := values][id := rows[id]] == rows;
  }

  lemma RemoveThenRestore(vm: RowMap, table: string, id: RowId)
    requires table in vm && id in vm[table]
    ensures table in WithoutValue(vm, table, id) && id !in WithoutValue(vm, table, id)[table]
    ensures WithValue(WithoutValue(vm, table, id), table, id, vm[table][id]) == vm
  {
    var rows: RowValues := vm[table];
    assert (rows - {id})[id := rows[id]] == rows;
  }

  lemma RowStepKeepsTxnInv(db: Db, e: Event, base: RowMap)
    requires TxnInv(db, base) && e.IsRowStep() && Step(db, e).Ok? && !db.session.autoCommit
    ensures TxnInv(Step(db, e).value, base)
  {
    hide Inv, Step, UndoValue, Present, UniqueValues, ValuesOf, UndoOf;
    RowStepUndone(db, e);
    InvUnique(db);
    var undo := Step(db, e).value.session.undo;
    assert undo[..|undo| - 1] == db.session.undo;
  }

  // ---- Rollback of a whole transaction.

  ghost predicate SameDefinitions(a: IndexMap, b: IndexMap) {
    && a.Keys == b.Keys
    && forall n :: n in a ==>
         && SameDefinition(a[n], b[n])
         && KeySets(a[n].tree) == KeySets(b[n].tree)
         && (a[n].unique ==> a[n].tree == b[n].tree)
  }

  /** The same indexes, as maps from keys to sets of row ids; unique ones literally equal. */
  ghost predicate SameIndexes(a: Db, b: Db) {
    forall t :: t in a.catalog ==> SameDefinitions(IndexesOf(a.indexes, t), IndexesOf(b.indexes, t))
  }

  lemma AgreeingMapsSame(schema: TableSchema, a: IndexMap, b: IndexMap, rows: RowValues)
    requires TableAgrees(schema, a, rows) && TableAgrees(schema, b, rows)
    ensures SameDefinitions(a, b)
  {
    hide KeysOf, KeySets, TreeAgrees;
    forall n | n in a
      ensures n in b && SameDefinition(a[n], b[n]) && KeySets(a[n].tree) == KeySets(b[n].tree)
      ensures a[n].unique ==> a[n].tree == b[n].tree
    {
      var i :| 0 <= i < |schema.indexes| && schema.indexes[i].name == n;
      assert MetaMatches(schema.indexes[i], a[n]) && MetaMatches(schema.indexes[i], b[n]);
      assert Agrees(a[n], ColNames(schema), rows) && Agrees(b[n], ColNames(schema), rows);
      AgreementUnique(a[n].tree, b[n].tree, a[n].unique, KeysOf(a[n].columns, ColNames(schema), rows));
    }
    forall n | n in b ensures n in a {
      var i :| 0 <= i < |schema.indexes| && schema.indexes[i].name == n;
      assert schema.indexes[i].name in a;
    }
  }

  /** Indexes are determined by what is stored. */
  lemma SameValuesSameIndexes(a: Db, b: Db)
    requires Inv(a) && Inv(b) && a.catalog == b.catalog && ValuesOf(a.tables) == ValuesOf(b.tables)
    ensures SameIndexes(a, b)
  {
    hide TableAgrees, RowVals, SameDefinitions;
    forall t | t in a.catalog
      ensures SameDefinitions(IndexesOf(a.indexes, t), IndexesOf(b.indexes, t))
    {
      assert TableOk(a.catalog[t], IndexesOf(a.indexes, t), a.tables[t]);
      assert TableOk(b.catalog[t], IndexesOf(b.indexes, t), b.tables[t]);
      assert ValuesOf(a.tables)[t] == ValuesOf(b.tables)[t];
      AgreeingMapsSame(a.catalog[t], IndexesOf(a.indexes, t), IndexesOf(b.indexes, t), RowVals(a.tables[t].rows));
    }
  }

  lemma RollbackKeepsBase(db: Db, base: RowMap)
    requires TxnInv(db, base) && db.session.txn.Some? && !db.session.autoCommit
    ensures RollbackTxn(db).Ok?
    ensures var db' := RollbackTxn(db).value;
      && Inv(db') && ValuesOf(db'.tables) == base
      && db'.catalog == db.catalog && db'.session == IDLE && db'.nextTxn == db.nextTxn
      && db'.log == Logged(db, WalOp.Abort(db.session.txn.value)).log
      && db'.lsn == db.lsn + 1
  {
    var start := Logged(db, WalOp.Abort(db.session.txn.value)).(session := IDLE);
    SameData(db, start);
    UndoAllExact(start, db.session.undo);
  }

  lemma {:induction false} RowStepsKeepTxnInv(db: Db, es: seq<Event>, base: RowMap)
    requires TxnInv(db, base) && db.session.txn.Some? && !db.session.autoCommit
    requires forall i :: 0 <= i < |es| ==> es[i].IsRowStep()
    requires Run(db, es).Ok?
    ensures var db' := Run(db, es).value;
      && TxnInv(db', base) && db'.session.txn == db.session.txn && !db'.session.autoCommit
      && db'.catalog == db.catalog
    decreases |es|
  {
    hide TxnInv, Step, UndoOf;
    if es != [] {
      RowStepsKeepTxnInv(db, es[..|es| - 1], base);
      var mid := Run(db, es[..|es| - 1]).value;
      RowStepRecords(mid, es[|es| - 1]);
      RowStepKeepsTxnInv(mid, es[|es| - 1], base);
    }
  }

  /**
   Rollback inverts the transaction: after any inserts, updates and deletes that all succeeded in
   one explicit transaction, ROLLBACK does not fail and brings back every row's values and every
   index.
   */
  lemma RollbackRestores(db: Db, es: seq<Event>)
    requires Inv(db) && db.session.txn == None
    requires forall i :: 0 <= i < |es| ==> es[i].IsRowStep()
    requires Run(BeginTxn(db, false).value, es).Ok?
    ensures var rolledBack := RollbackTxn(Run(BeginTxn(db, false).value, es).value);
      && rolledBack.Ok?
      && ValuesOf(rolledBack.value.tables) == ValuesOf(db.tables)
      && SameIndexes(db, rolledBack.value)
      && Inv(rolledBack.value)
  {
    hide Inv, ValuesOf;
    var start, base := BeginTxn(db, false).value, ValuesOf(db.tables);
    SameData(db, start);
    assert TxnInv(start, base);
    RowStepsKeepTxnInv(start, es, base);
    RollbackKeepsBase(Run(start, es).value, base);
    SameValuesSameIndexes(db, RollbackTxn(Run(start, es).value).value);
  }
}

/** ROLLBACK of a transaction that also created tables and indexes. */
module RollbackWithDdl {
  import opened Types
  import opened WalFormat
  import opened Index
  import opened Catalog
  import opened TableIndexes
  import opened Scans
  import opened Engine
  import opened Rollback
  import opened Agreement
  import opened LogInvariant
  import opened Reopening

  /** A row step, CREATE TABLE, or CREATE INDEX without UNIQUE. */
  predicate Harmless(e: Event) {
    e.IsRowStep() || e.ECreateTable? || (e.ECreateIndex? && !e.meta.unique)
  }

  /** `base` is what was stored when the running explicit transaction began; tables created since do not matter. */
  ghost predicate OpenInv(db: Db, base: RowMap) {
    && AgreementInv(db) && db.session.txn.Some? && !db.session.autoCommit
    && UniqueAlong(db.catalog, ValuesOf(db.tables), db.session.undo)
    && SameStored(UndoValues(ValuesOf(db.tables), db.session.undo), base)
  }

  lemma RowStepKeepsOpenInv(db: Db, e: Event, base: RowMap)
    requires OpenInv(db, base) && e.IsRowStep() && Step(db, e).Ok?
    ensures OpenInv(Step(db, e).value, base)
  {
    hide Inv, Step, UndoValue, Present, UniqueValues, ValuesOf, UndoOf, SameStored;
    RowStepUndone(db, e);
    InvUnique(db);
    StepKeepsAgreement(db, e);
    var undo := Step(db, e).value.session.undo;
    assert undo[..|undo| - 1] == db.session.undo;
  }

  // ---- A new index that is not unique demands nothing.

  ghost predicate NoStricter(a: SchemaMap, b: SchemaMap) {
    a.Keys == b.Keys && forall t, rows :: t in a && UniqueRows(a[t], rows) ==> UniqueRows(b[t], rows)
  }

  lemma {:induction false} AlongNoStricter(a: SchemaMap, b: SchemaMap, vm: RowMap, undo: seq<UndoRecord>)
    requires UniqueAlong(a, vm, undo) && NoStricter(a, b)
    ensures UniqueAlong(b, vm, undo)
    decreases |undo|
  {
    hide UndoValue, UniqueRows;
    if undo != [] {
      AlongNoStricter(a, b, UndoValue(vm, undo[|undo| - 1]), undo[..|undo| - 1]);
    }
  }

  lemma MoreIndexesNoStricter(schema: TableSchema, meta: IndexMeta, rows: RowValues)
    requires !meta.unique && UniqueRows(schema, rows)
    ensures UniqueRows(schema.(indexes := schema.indexes + [meta]), rows)
  {
    hide KeysOf;
    var schema' := schema.(indexes := schema.indexes + [meta]);
    forall i | 0 <= i < |schema'.indexes| ensures UniqueFor(schema'.indexes[i], ColNames(schema'), rows) {
      if i < |schema.indexes| {
        assert UniqueFor(schema.indexes[i], ColNames(schema), rows);
      }
    }
  }

  lemma CreateIndexShape(db: Db, table: string, meta: IndexMeta)
    requires CreateIndex(db, table, meta).Ok?
    ensures table in db.catalog
    ensures var schema := db.catalog[table];
      CreateIndex(db, table, meta).value.catalog == db.catalog[table := schema.(indexes := schema.indexes + [meta])]
    ensures CreateIndex(db, table, meta).value.tables == db.tables
    ensures CreateIndex(db, table, meta).value.session == db.session
  {
    hide Build, Scan;
  }

  lemma CreateIndexKeepsOpenInv(db: Db, e: Event, base: RowMap)
    requires OpenInv(db, base) && e.ECreateIndex? && !e.meta.unique && Step(db, e).Ok?
    ensures OpenInv(Step(db, e).value, base)
  {
    hide AgreementInv, CreateIndex, UniqueRows, UniqueAlong, ValuesOf, UndoValues, SameStored;
    StepKeepsAgreement(db, e);
    CreateIndexShape(db, e.table, e.meta);
    var schema, db' := db.catalog[e.table], Step(db, e).value;
    forall rows | UniqueRows(schema, rows) ensures UniqueRows(schema.(indexes := schema.indexes + [e.meta]), rows) {
      MoreIndexesNoStricter(schema, e.meta, rows);
    }
    assert NoStricter(db.catalog, db'.catalog);
    AlongNoStricter(db.catalog, db'.catalog, ValuesOf(db.tables), db.session.undo);
  }

  // ---- A new table is empty, also at every point of the undo.

  lemma {:induction false} NewTableAlong(
      catalog: SchemaMap, vm: RowMap, undo: seq<UndoRecord>, table: string, schema: TableSchema)
    requires AllPresent(vm, undo) && UniqueAlong(catalog, vm, undo) && table !in vm && table !in catalog
    ensures UniqueAlong(catalog[table := schema], vm[table := map[]], undo)
    decreases |undo|
  {
    hide UniqueRows;
    if undo != [] {
      var rec := undo[|undo| - 1];
      var before := UndoValue(vm, rec);
      assert UndoValue(vm[table := map[]], rec) == before[table := map[]];
      NoRowsUnique(schema);
      NewTableAlong(catalog, before, undo[..|undo| - 1], table, schema);
    }
  }

  lemma SameStoredAlso(a: RowMap, b: RowMap, base: RowMap)
    requires SameStored(a, b) && SameStored(a, base)
    ensures SameStored(b, base)
  {
    hide StoredIn;
  }

  lemma NewTableCatalog(db: Db, table: string, columns: seq<ColumnDef>)
    requires CreateTable(db, table, columns).Ok?
    ensures table !in db.catalog
    ensures CreateTable(db, table, columns).value.catalog
      == db.catalog[table := TableSchema(columns, PrimaryIndex(table, columns))]
  {
    hide PrimaryIndex;
  }

  lemma CreateTableKeepsOpenInv(db: Db, e: Event, base: RowMap)
    requires OpenInv(db, base) && e.ECreateTable? && Step(db, e).Ok?
    ensures OpenInv(Step(db, e).value, base)
  {
    hide Inv, CreateTable, UniqueAlong, AllPresent, ValuesOf, UndoValues, SameStored, PrimaryIndex;
    StepKeepsAgreement(db, e);
    CreateTableKeepsInv(db, e.table, e.columns);
    NewTableCatalog(db, e.table, e.columns);
    TablesInValues(db);
    var vm, undo := ValuesOf(db.tables), db.session.undo;
    var schema := TableSchema(e.columns, PrimaryIndex(e.table, e.columns));
    NewTableAlong(db.catalog, vm, undo, e.table, schema);
    UndoBesideNewTable(vm, undo, e.table);
    NewTableStored(UndoValues(vm, undo), e.table);
    SameStoredAlso(UndoValues(vm, undo), UndoValues(vm, undo)[e.table := map[]], base);
  }

  lemma StepKeepsOpenInv(db: Db, e: Event, base: RowMap)
    requires OpenInv(db, base) && Harmless(e) && Step(db, e).Ok?
    ensures OpenInv(Step(db, e).value, base)
  {
    hide OpenInv, Step;
    if e.IsRowStep() {
      RowStepKeepsOpenInv(db, e, base);
    } else if e.ECreateTable? {
      CreateTableKeepsOpenInv(db, e, base);
    } else {
      CreateIndexKeepsOpenInv(db, e, base);
    }
  }

  lemma {:induction false} StepsKeepOpenInv(db: Db, es: seq<Event>, base: RowMap)
    requires OpenInv(db, base) && Run(db, es).Ok? && forall i :: 0 <= i < |es| ==> Harmless(es[i])
    ensures OpenInv(Run(db, es).value, base)
  {
    hide OpenInv, Step, Harmless;
    if es != [] {
      StepsKeepOpenInv(db, es[..|es| - 1], base);
      StepKeepsOpenInv(Run(db, es[..|es| - 1]).value, es[|es| - 1], base);
    }
  }

  lemma BeginOpens(db: Db)
    requires AgreementInv(db) && db.session.txn == None
    ensures BeginTxn(db, false).Ok? && OpenInv(BeginTxn(db, false).value, ValuesOf(db.tables))
  {
    hide Inv, ValuesOf, StoredIn;
    StepKeepsAgreement(db, EBegin);
  }

  lemma RollbackOfOpen(db: Db, base: RowMap)
    requires OpenInv(db, base)
    ensures RollbackTxn(db).Ok?
    ensures Inv(RollbackTxn(db).value) && SameStored(ValuesOf(RollbackTxn(db).value.tables), base)
  {
    hide Inv, ValuesOf, SameStored;
    var start := Logged(db, WalOp.Abort(db.session.txn.value)).(session := IDLE);
    SameData(db, start);
    UndoAllExact(start, db.session.undo);
  }

  /**
   After any row steps, CREATE TABLEs and CREATE INDEXes without UNIQUE that all succeeded in one
   explicit transaction, ROLLBACK does not fail and brings back every row's values and the indexes of
   every table whose definition is the old one.
   */
  lemma RollbackRestoresWithDdl(db: Db, es: seq<Event>)
    requires AgreementInv(db) && db.session.txn == None
    requires forall i :: 0 <= i < |es| ==> Harmless(es[i])
    requires Run(BeginTxn(db, false).value, es).Ok?
    ensures var rolledBack := RollbackTxn(Run(BeginTxn(db, false).value, es).value);
      && rolledBack.Ok?
      && SameStored(ValuesOf(rolledBack.value.tables), ValuesOf(db.tables))
      && SameWhereUnchanged(db, rolledBack.value)
      && Inv(rolledBack.value)
  {
    hide Inv, ValuesOf, OpenInv, Run, RollbackTxn, Harmless, SameStored, SameWhereUnchanged, BeginTxn;
    var base := ValuesOf(db.tables);
    BeginOpens(db);
    StepsKeepOpenInv(BeginTxn(db, false).value, es, base);
    var open := Run(BeginTxn(db, false).value, es).value;
    RollbackOfOpen(open, base);
    var rolledBack := RollbackTxn(open).value;
    SameStoredSym(ValuesOf(rolledBack.tables), base);
    SameStoredSameIndexes(db, rolledBack);
  }
}

/** Live indexes, after any serial run, are the indexes a rebuild from the rows would build. */
module Agreement {
  import opened Types
  import opened WalFormat
  import opened Tables
  import opened Index
  import opened Catalog
  import opened TableIndexes
  import opened Scans
  import opened Engine
  import opened Rollback

  // ---- Schema changes.

  /** `db'` differs from `db` in one table, new or old. */
  ghost predicate OthersKept(db: Db, table: string, db': Db) {
    && db'.catalog.Keys == db.catalog.Keys + {table}
    && db'.tables.Keys == db.tables.Keys + {table}
    && db'.indexes.Keys <= db.indexes.Keys + {table}
    && forall u :: u in db.catalog && u in db.tables && u != table ==>
         && db'.catalog[u] == db.catalog[u] && db'.tables[u] == db.tables[u]
         && IndexesOf(db'.indexes, u) == IndexesOf(db.indexes, u)
  }

  lemma OthersKeptInv(db: Db, table: string, db': Db)
    requires Inv(db) && OthersKept(db, table, db')
    requires TableOk(db'.catalog[table], IndexesOf(db'.indexes, table), db'.tables[table])
    ensures Inv(db')
  {
    hide TableOk;
  }

  lemma CreateIndexKeepsInv(db: Db, table: string, meta: IndexMeta)
    requires Inv(db) && CreateIndex(db, table, meta).Ok?
    ensures var db' := CreateIndex(db, table, meta).value;
      Inv(db') && db'.tables == db.tables && db'.session == db.session
  {
    hide Build, TableOk;
    var schema, m, t := db.catalog[table], IndexesOf(db.indexes, table), db.tables[table];
    NewIndexOk(schema, m, t, meta, Build(EmptyIndex(meta), ColNames(schema), Scan(t)).value);
    OthersKeptInv(db, table, CreateIndex(db, table, meta).value);
  }

  // The scan under CREATE INDEX builds an index that agrees, and the others stay.
  lemma NewIndexOk(schema: TableSchema, m: IndexMap, t: Table, meta: IndexMeta, ix: BTreeIndex)
    requires TableOk(schema, m, t)
    requires Build(EmptyIndex(meta), ColNames(schema), Scan(t)) == Ok(ix)
    requires meta.name !in m
    requires forall i :: 0 <= i < |schema.indexes| ==> schema.indexes[i].name != meta.name
    ensures TableOk(schema.(indexes := schema.indexes + [meta]), m[meta.name := ix], t)
  {
    hide Build, Scan, Agrees, MetasMatch, AllAgree;
    ScanIsComplete(t);
    BuildOneAgrees(meta, ColNames(schema), Scan(t));
    SnocMetas(schema.indexes, meta, m, ix, ColNames(schema), RowVals(t.rows));
    assert ColNames(schema.(indexes := schema.indexes + [meta])) == ColNames(schema);
  }

  lemma CreateTableKeepsInv(db: Db, table: string, columns: seq<ColumnDef>)
    requires Inv(db) && CreateTable(db, table, columns).Ok?
    ensures var db' := CreateTable(db, table, columns).value;
      && Inv(db') && db'.session == db.session
      && table !in db.tables && ValuesOf(db'.tables) == ValuesOf(db.tables)[table := map[]]
  {
    UnknownTable(db, table);
    hide Inv, CreateTable, PrimaryIndex, OthersKept, RowVals, TableOk;
    var db', metas := CreateTable(db, table, columns).value, PrimaryIndex(table, columns);
    CreateTableShape(db, table, columns);
    OtherTablesKept(db, table, db', TableSchema(columns, metas), EMPTY_TABLE, IndexesOf(db'.indexes, table));
    if metas == [] {
      NoIndexOk(db'.catalog[table]);
    } else {
      OneIndex(table, columns);
      EmptyIndexOk(db'.catalog[table], metas[0]);
    }
    OthersKeptInv(db, table, db');
    ValuesOfUpdate(db.tables, table, EMPTY_TABLE);
    NoRows();
  }

  lemma UnknownTable(db: Db, table: string)
    requires Inv(db) && table !in db.catalog
    ensures table !in db.tables && table !in db.indexes
  {
  }

  lemma OneIndex(table: string, columns: seq<ColumnDef>)
    ensures |PrimaryIndex(table, columns)| <= 1
  {
    hide PrimaryKey;
  }

  lemma CreateTableShape(db: Db, table: string, columns: seq<ColumnDef>)
    requires CreateTable(db, table, columns).Ok? && table !in db.tables && table !in db.indexes
    ensures var db', metas := CreateTable(db, table, columns).value, PrimaryIndex(table, columns);
      && db'.session == db.session
      && db'.catalog == db.catalog[table := TableSchema(columns, metas)]
      && db'.tables == db.tables[table := EMPTY_TABLE]
      && db'.indexes == if metas == [] then db.indexes
                        else db.indexes[table := map[metas[0].name := EmptyIndex(metas[0])]]
  {
    hide PrimaryIndex, EmptyIndex;
  }

  lemma OtherTablesKept(db: Db, table: string, db': Db, schema: TableSchema, t: Table, m: IndexMap)
    requires db'.catalog == db.catalog[table := schema] && db'.tables == db.tables[table := t]
    requires db'.indexes == db.indexes || db'.indexes == db.indexes[table := m]
    ensures OthersKept(db, table, db')
  {
  }

  lemma NoRows()
    ensures RowVals(EMPTY_TABLE.rows) == map[]
  {
  }

  lemma NoIndexOk(schema: TableSchema)
    requires schema.indexes == []
    ensures TableOk(schema, map[], EMPTY_TABLE)
  {
  }

  lemma EmptyIndexOk(schema: TableSchema, meta: IndexMeta)
    requires schema.indexes == [meta]
    ensures TableOk(schema, map[meta.name := EmptyIndex(meta)], EMPTY_TABLE)
  {
    hide Agrees;
    assert RowVals(EMPTY_TABLE.rows) == map[];
    NoMetas(ColNames(schema), map[]);
    EmptyAgrees(EmptyIndex(meta), ColNames(schema));
    SnocMetas([], meta, map[], EmptyIndex(meta), ColNames(schema), map[]);
    assert [] + [meta] == [meta];
  }

  // ---- Every step.

  ghost predicate AgreementInv(db: Db) {
    && Inv(db)
    && AllPresent(ValuesOf(db.tables), db.session.undo)
    && (db.session.txn == None || db.session.autoCommit ==> db.session.undo == [])
  }

  // A table created meanwhile does not matter to older undo records.
  lemma {:induction false} NewTableKeepsPresent(vm: RowMap, undo: seq<UndoRecord>, table: string)
    requires AllPresent(vm, undo) && table !in vm
    ensures AllPresent(vm[table := map[]], undo)
    decreases |undo|
  {
    if undo != [] {
      var rec := undo[|undo| - 1];
      NewTableKeepsPresent(UndoValue(vm, rec), undo[..|undo| - 1], table);
      assert UndoValue(vm[table := map[]], rec) == UndoValue(vm, rec)[table := map[]];
    }
  }

  lemma RowStepKeepsAgreement(db: Db, e: Event)
    requires AgreementInv(db) && e.IsRowStep() && Step(db, e).Ok?
    ensures AgreementInv(Step(db, e).value)
  {
    hide Inv, InsertRow, UpdateRow, DeleteRow, Present, UndoValue, ValuesOf;
    if db.session.autoCommit {
      var plain := db.(session := db.session.(autoCommit := false));
      AutoCommitSameData(db, e);
      SameData(db, plain);
      RowStepUndone(plain, e);
      SameData(Step(db, e).value, Step(plain, e).value);
      assert Step(db, e).value.session.undo == [];
    } else {
      RowStepRecords(db, e);
      RowStepUndone(db, e);
      var undo := Step(db, e).value.session.undo;
      assert undo[..|undo| - 1] == db.session.undo;
    }
  }

  // Auto-commit changes only what is recorded for undo.
  lemma AutoCommitSameData(db: Db, e: Event)
    requires e.IsRowStep() && Step(db, e).Ok? && db.session.autoCommit
    ensures var plain := db.(session := db.session.(autoCommit := false));
      && Step(plain, e).Ok?
      && Step(plain, e).value.(session := db.session) == Step(db, e).value
  {
    hide AddRow, DropRow, ColNames, SetIndexes;
  }

  lemma StepKeepsAgreement(db: Db, e: Event)
    requires AgreementInv(db) && Step(db, e).Ok?
    ensures AgreementInv(Step(db, e).value)
  {
    hide Inv, InsertRow, UpdateRow, DeleteRow, CreateIndex, CreateTable, ValuesOf, UndoAll, AllPresent;
    var db' := Step(db, e).value;
    NothingToUndo(ValuesOf(db'.tables));
    match e {
      case EBegin | EAutoBegin | ECommit => SameData(db, db');
      case ERollback =>
        var start := Logged(db, WalOp.Abort(db.session.txn.value)).(session := IDLE);
        SameData(db, start);
        UndoAllExact(start, db.session.undo);
      case ECreateTable(table, columns) =>
        CreateTableKeepsInv(db, table, columns);
        TablesInValues(db);
        NewTableKeepsPresent(ValuesOf(db.tables), db.session.undo, table);
      case ECreateIndex(table, meta) => CreateIndexKeepsInv(db, table, meta);
      case _ => RowStepKeepsAgreement(db, e);
    }
  }

  lemma NothingToUndo(vm: RowMap)
    ensures AllPresent(vm, [])
  {
  }

  lemma TablesInValues(db: Db)
    ensures ValuesOf(db.tables).Keys == db.tables.Keys
  {
  }

  // ---- Rebuild from the rows.

  ghost predicate Rebuildable(catalog: SchemaMap, tables: TableMap) {
    forall t :: t in catalog ==>
      BuildAll(catalog[t].indexes, ColNames(catalog[t]), Scan(TableOf(tables, t))).Ok?
  }

  /** What `rebuild_all` leaves: an entry for every table that has an index. */
  ghost function Rebuilt(catalog: SchemaMap, tables: TableMap): IndexSet
    requires Rebuildable(catalog, tables)
  {
    map t | t in catalog && catalog[t].indexes != [] ::
      BuildAll(catalog[t].indexes, ColNames(catalog[t]), Scan(TableOf(tables, t))).value
  }

  ghost predicate Loaded(catalog: SchemaMap, tables: TableMap) {
    && tables.Keys == catalog.Keys
    && forall t :: t in catalog && t in tables ==> DistinctNames(catalog[t].indexes) && IdsBounded(tables[t])
  }

  /**
   A rebuild succeeds exactly when what is stored satisfies every unique index, and then the
   engine it leaves satisfies the invariant.
   */
  lemma RebuildExact(db: Db)
    requires Loaded(db.catalog, db.tables)
    ensures Rebuildable(db.catalog, db.tables) <==> UniqueValues(db.catalog, ValuesOf(db.tables))
    ensures Rebuildable(db.catalog, db.tables) ==> Inv(db.(indexes := Rebuilt(db.catalog, db.tables)))
  {
    hide BuildAll, UniqueRows, Scan, TableOk, IdsBounded, RowVals;
    forall t | t in db.catalog
      ensures BuildAll(db.catalog[t].indexes, ColNames(db.catalog[t]), Scan(db.tables[t])).Ok?
        <==> UniqueRows(db.catalog[t], RowVals(db.tables[t].rows))
      ensures BuildAll(db.catalog[t].indexes, ColNames(db.catalog[t]), Scan(db.tables[t])).Ok? ==>
        TableOk(db.catalog[t],
                BuildAll(db.catalog[t].indexes, ColNames(db.catalog[t]), Scan(db.tables[t])).value, db.tables[t])
      ensures db.catalog[t].indexes == [] ==>
        BuildAll(db.catalog[t].indexes, ColNames(db.catalog[t]), Scan(db.tables[t])) == Ok(map[])
    {
      RebuildTable(db.catalog[t], db.tables[t]);
    }
    if Rebuildable(db.catalog, db.tables) {
      var ixs := Rebuilt(db.catalog, db.tables);
      forall t | t in db.catalog
        ensures TableOk(db.catalog[t], IndexesOf(ixs, t), db.tables[t])
      {
        assert BuildAll(db.catalog[t].indexes, ColNames(db.catalog[t]), Scan(TableOf(db.tables, t))).Ok?;
      }
    }
  }

  lemma RebuildTable(schema: TableSchema, t: Table)
    requires DistinctNames(schema.indexes) && IdsBounded(t)
    ensures var built := BuildAll(schema.indexes, ColNames(schema), Scan(t));
      && (built.Ok? <==> UniqueRows(schema, RowVals(t.rows)))
      && (built.Ok? ==> TableOk(schema, built.value, t))
      && (schema.indexes == [] ==> built == Ok(map[]))
  {
    hide KeysUnique, Agrees, Scan, ScanValues, Build;
    ScanIsComplete(t);
    BuildAllAgrees(schema.indexes, ColNames(schema), Scan(t));
  }

  /** Index agreement: a rebuild of a running engine succeeds and changes no index. */
  lemma RebuildChangesNothing(db: Db)
    requires Inv(db)
    ensures Rebuildable(db.catalog, db.tables)
    ensures SameIndexes(db, db.(indexes := Rebuilt(db.catalog, db.tables)))
  {
    hide TableAgrees, UniqueRows, ValuesOf, SameDefinitions;
    InvUnique(db);
    assert Loaded(db.catalog, db.tables) by {
      forall t | t in db.catalog ensures DistinctNames(db.catalog[t].indexes) && IdsBounded(db.tables[t]) {
        assert TableOk(db.catalog[t], IndexesOf(db.indexes, t), db.tables[t]);
      }
    }
    RebuildExact(db);
    SameValuesSameIndexes(db, db.(indexes := Rebuilt(db.catalog, db.tables)));
  }

  /** After every serial run of statements that returned Ok, DDL and rollbacks included. */
  lemma {:induction false} RunKeepsAgreement(db: Db, es: seq<Event>)
    requires AgreementInv(db) && Run(db, es).Ok?
    ensures AgreementInv(Run(db, es).value)
  {
    hide AgreementInv, Step;
    if es != [] {
      RunKeepsAgreement(db, es[..|es| - 1]);
      StepKeepsAgreement(Run(db, es[..|es| - 1]).value, es[|es| - 1]);
    }
  }

  lemma LiveIndexesAreRebuilt(db: Db, es: seq<Event>)
    requires AgreementInv(db) && Run(db, es).Ok?
    ensures var db' := Run(db, es).value;
      Rebuildable(db'.catalog, db'.tables) && SameIndexes(db', db'.(indexes := Rebuilt(db'.catalog, db'.tables)))
  {
    hide Run, SameIndexes, Rebuildable, Inv;
    RunKeepsAgreement(db, es);
    RebuildChangesNothing(Run(db, es).value);
  }

  /** A database without tables. */
  const FRESH: Db := Db(map[], map[], map[], [], 0, 1, IDLE)

  lemma FreshAgrees()
    ensures AgreementInv(FRESH)
  {
  }

  /** ROLLBACK fails exactly when an older state breaks a unique index created meanwhile. */
  lemma RollbackExact(db: Db)
    requires AgreementInv(db) && db.session.txn.Some? && !db.session.autoCommit
    ensures RollbackTxn(db).Ok? <==> UniqueAlong(db.catalog, ValuesOf(db.tables), db.session.undo)
  {
    var start := Logged(db, WalOp.Abort(db.session.txn.value)).(session := IDLE);
    SameData(db, start);
    UndoAllExact(start, db.session.undo);
  }
}

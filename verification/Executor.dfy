/** The statement executor of one session, refining the engine's steps. */
module Executors {
  import opened Types
  import opened WalFormat
  import opened Wal
  import opened Tables
  import opened Index
  import opened Catalog
  import opened TableIndexes
  import opened Scans
  import opened Expressions
  import opened Engine
  import opened Statements
  import opened MemoryStorage
  import opened IndexManagement
  import opened Transactions
  import opened Planner

  class Executor {
    const storage: StorageEngine
    const indexes: IndexManager
    const transaction: Transaction
    var catalog: SchemaMap
    var autoCommit: bool
    var activeWriteTxns: int     // the counter a live backup waits for
    ghost const others: int      // what other sessions contribute to it

    ghost predicate Valid()
      reads this, storage, storage.wal, transaction
    {
      && storage.Valid() && transaction.Valid()
      && (transaction.txnId.None? ==> !autoCommit && transaction.undo == [])
      && activeWriteTxns == others + if transaction.txnId.Some? then 1 else 0
    }

    /** The state of the engine this executor stands for. */
    ghost function View(): Db
      reads this, storage, storage.wal, transaction, indexes
    {
      var wal := storage.wal;
      Db(catalog, storage.tables, indexes.indexes, Numbered(wal.openLsn, wal.history),
         wal.openLsn + |wal.history|, wal.nextTxnId, Session(transaction.txnId, autoCommit, transaction.undo))
    }

    constructor (storage: StorageEngine, indexes: IndexManager, transaction: Transaction, catalog: SchemaMap,
                 activeWriteTxns: int)
      requires storage.Valid() && transaction.Valid() && transaction.txnId == None && transaction.undo == []
      ensures Valid() && !autoCommit && this.catalog == catalog && this.activeWriteTxns == activeWriteTxns
      ensures this.storage == storage && this.indexes == indexes && this.transaction == transaction
    {
      this.storage, this.indexes, this.transaction := storage, indexes, transaction;
      this.catalog, this.autoCommit := catalog, false;
      this.activeWriteTxns, this.others := activeWriteTxns, activeWriteTxns;
    }

    // ---- Transactions.

    method Begin() returns (r: Result<(), Error>)
      requires Valid() && !autoCommit
      modifies this, storage.wal, transaction
      ensures Valid() && !autoCommit
      ensures r.Ok? <==> BeginTxn(old(View()), false).Ok?
      ensures r.Ok? ==> View() == BeginTxn(old(View()), false).value
      ensures r.Err? ==> View() == old(View())
    {
      hide WriteAheadLog.Valid, Numbered;
      if transaction.active { return Err(Execution); }
      autoCommit := false;
      NumberedSnoc(storage.wal.openLsn, storage.wal.history, WalOp.Begin(storage.wal.nextTxnId));
      r := transaction.Begin(storage.wal);
      activeWriteTxns := activeWriteTxns + 1;
    }

    method Commit() returns (r: Result<(), Error>)
      requires Valid() && !autoCommit
      modifies this, storage.wal, transaction
      ensures Valid() && !autoCommit
      ensures r.Ok? <==> CommitTxn(old(View())).Ok?
      ensures r.Ok? ==> View() == CommitTxn(old(View())).value
      ensures r.Err? ==> View() == old(View())
    {
      hide WriteAheadLog.Valid, Numbered;
      if !transaction.active { return Err(Execution); }
      autoCommit := false;
      NumberedSnoc(storage.wal.openLsn, storage.wal.history, WalOp.Commit(transaction.txnId.value));
      r := transaction.Commit(storage.wal);
      activeWriteTxns := activeWriteTxns - 1;
    }

    /** Undoes one record on storage and indexes. */
    method ApplyUndo(rec: UndoRecord) returns (r: Result<(), Error>)
      requires storage.Valid()
      modifies storage`tables, indexes
      ensures storage.Valid()
      ensures r.Ok? <==> UndoStep(old(View()), rec).Ok?
      ensures r.Ok? ==> View() == UndoStep(old(View()), rec).value
    {
      hide UndoStep;
      if rec.UndoInsert? {
        r := TakeBack(rec);
      } else {
        r := PutBack(rec);
      }
    }

    method TakeBack(rec: UndoRecord) returns (r: Result<(), Error>)
      requires storage.Valid() && rec.UndoInsert?
      modifies storage`tables, indexes
      ensures storage.Valid()
      ensures r.Ok? <==> UndoStep(old(View()), rec).Ok?
      ensures r.Ok? ==> View() == UndoStep(old(View()), rec).value
    {
      hide WriteAheadLog.Valid, Numbered, DropRow, ColNames;
      var table, id := rec.table, rec.rowId;
      var current := storage.Get(table, id);
      if current.Some? {
        if table !in catalog { return Err(TableNotFound); }
        indexes.RemoveRow(table, current.value.values, ColNames(catalog[table]), id);
        var deleted := storage.ApplyDelete(table, id);
      }
      r := Ok(());
    }

    /** An older row comes back: over the current one, or in the place of a deleted one. */
    method PutBack(rec: UndoRecord) returns (r: Result<(), Error>)
      requires storage.Valid() && !rec.UndoInsert?
      modifies storage`tables, indexes
      ensures storage.Valid()
      ensures r.Ok? <==> UndoStep(old(View()), rec).Ok?
      ensures r.Ok? ==> View() == UndoStep(old(View()), rec).value
    {
      hide WriteAheadLog.Valid, Numbered, AddRow, DropRow, ColNames, SetIndexes;
      var table, id := rec.table, rec.rowId;
      if table !in catalog { return Err(TableNotFound); }
      var colNames := ColNames(catalog[table]);
      if rec.UndoUpdate? {
        var current := storage.Get(table, id);
        if current.Some? {
          DropThenAdd(indexes.indexes, table, colNames, current.value.values, rec.oldRow.values, id);
          indexes.RemoveRow(table, current.value.values, colNames, id);
        }
        var updated := storage.ApplyUpdate(table, id, rec.oldRow);
        if updated.Err? { return Err(updated.error); }
      } else {
        storage.ApplyInsert(table, id, rec.oldRow);
      }
      r := indexes.InsertRow(table, rec.oldRow.values, colNames, id);
    }

    method Rollback() returns (r: Result<(), Error>)
      requires Valid() && !autoCommit
      modifies this, storage`tables, storage.wal, indexes, transaction
      ensures r.Ok? <==> RollbackTxn(old(View())).Ok?
      ensures r.Ok? ==> Valid() && !autoCommit && View() == RollbackTxn(old(View())).value
    {
      hide WriteAheadLog.Valid, Numbered, UndoStep;
      if !transaction.active { return Err(Execution); }
      autoCommit := false;
      NumberedSnoc(storage.wal.openLsn, storage.wal.history, WalOp.Abort(transaction.txnId.value));
      ghost var undo := transaction.undo;
      var records := transaction.Rollback(storage.wal);
      ghost var start := View();
      assert undo[..|undo|] == undo;
      for i := 0 to |records.value|
        invariant storage.Valid() && UndoAll(start, undo) == UndoAll(View(), undo[..|undo| - i])
        modifies storage`tables, indexes
      {
        assert undo[..|undo| - i][..|undo| - i - 1] == undo[..|undo| - (i + 1)];
        var undone := ApplyUndo(records.value[i]);
        if undone.Err? { return Err(undone.error); }
      }
      activeWriteTxns := activeWriteTxns - 1;
      r := Ok(());
    }

    // ---- Statements.

    /** Joins the running transaction or begins one for the statement. */
    method BeginWriteTxn() returns (txn: TxnId)
      requires Valid() && !autoCommit
      modifies this, storage.wal, transaction
      ensures Valid() && View() == Opened(old(View())) && transaction.txnId == Some(txn)
    {
      hide WriteAheadLog.Valid, Numbered;
      if transaction.txnId.Some? { return transaction.txnId.value; }
      NumberedSnoc(storage.wal.openLsn, storage.wal.history, WalOp.Begin(storage.wal.nextTxnId));
      var begun := transaction.Begin(storage.wal);
      autoCommit := true;
      activeWriteTxns := activeWriteTxns + 1;
      txn := transaction.txnId.value;
    }

    method FinishAutoCommit(ghost count: nat)
      requires Valid()
      modifies this, storage.wal, transaction
      ensures Valid() && !autoCommit
      ensures Finished(Ok((old(View()), count))) == Ok((View(), count))
    {
      hide WriteAheadLog.Valid, Numbered;
      if autoCommit {
        NumberedSnoc(storage.wal.openLsn, storage.wal.history, WalOp.Commit(transaction.txnId.value));
        var committed := transaction.Commit(storage.wal);
        autoCommit := false;
        activeWriteTxns := activeWriteTxns - 1;
      }
    }

    method Remember(rec: UndoRecord)
      requires Valid() && transaction.active
      modifies transaction`undo
      ensures Valid() && View() == Recorded(old(View()), rec)
    {
      hide WriteAheadLog.Valid, Numbered;
      if transaction.active && !autoCommit {
        transaction.Record(rec);
      }
    }

    /** The row is stored first; a duplicate key is found afterwards. */
    method StoreNew(table: string, values: Values, txn: TxnId) returns (r: Result<(), Error>)
      requires Valid() && transaction.txnId == Some(txn) && table in catalog
      modifies storage`tables, storage`disk, storage.wal, indexes, transaction`undo
      ensures Valid() && transaction.txnId == Some(txn)
      ensures r.Ok? <==> InsertRow(old(View()), table, values).Ok?
      ensures r.Ok? ==> View() == InsertRow(old(View()), table, values).value
    {
      hide WriteAheadLog.Valid, Numbered, AddRow, ColNames, SetIndexes;
      NumberedSnoc(storage.wal.openLsn, storage.wal.history,
                   WalOp.Insert(txn, table, TableOf(storage.tables, table).nextId, NewRow(values)));
      var id := storage.Insert(table, NewRow(values), txn);
      r := indexes.InsertRow(table, values, ColNames(catalog[table]), id);
      if r.Err? { return; }
      Remember(UndoInsert(table, id));
    }

    method AssignAll(schema: TableSchema, values: Values, assignments: seq<Assignment>, excluded: Option<Values>)
      returns (r: Result<Values, Error>)
      ensures r == Assigned(schema, values, assignments, excluded)
    {
      hide AssignOne;
      var current := values;
      for i := 0 to |assignments|
        invariant Assigned(schema, values, assignments[..i], excluded) == Ok(current)
      {
        assert assignments[..i + 1][..i] == assignments[..i];
        var next := AssignOne(schema, current, assignments[i], excluded);
        if next.Err? {
          AssignedStaysFailed(schema, values, assignments, excluded, i + 1);
          return next;
        }
        current := next.value;
      }
      assert assignments[..|assignments|] == assignments;
      r := Ok(current);
    }

    /** Replaces a stored row by what the assignments make of it. */
    method ChangeRow(table: string, schema: TableSchema, id: RowId, row: Row, assignments: seq<Assignment>,
                     excluded: Option<Values>, txn: TxnId) returns (r: Result<(), Error>)
      requires Valid() && transaction.txnId == Some(txn)
      requires table in catalog && catalog[table] == schema
      requires id in TableOf(storage.tables, table).rows && TableOf(storage.tables, table).rows[id] == row
      modifies storage`tables, storage`disk, storage.wal, indexes, transaction`undo
      ensures Valid() && transaction.txnId == Some(txn)
      ensures r.Ok? <==>
        && Changed(schema, row.values, assignments, excluded).Ok?
        && UpdateRow(old(View()), table, id, Changed(schema, row.values, assignments, excluded).value).Ok?
      ensures r.Ok? ==>
        View() == UpdateRow(old(View()), table, id, Changed(schema, row.values, assignments, excluded).value).value
    {
      hide WriteAheadLog.Valid, Numbered, AddRow, DropRow, ColNames, SetIndexes, Assigned, ValidRow;
      Remember(UndoUpdate(table, id, row));
      indexes.RemoveRow(table, row.values, ColNames(schema), id);
      var changed := AssignAll(schema, row.values, assignments, excluded);
      if changed.Err? { return Err(changed.error); }
      if !ValidRow(schema.columns, changed.value) { return Err(Execution); }
      DropThenAdd(old(indexes.indexes), table, ColNames(schema), row.values, changed.value, id);
      var newRow := Row(changed.value, row.version);
      NumberedSnoc(storage.wal.openLsn, storage.wal.history,
                   WalOp.Update(txn, table, id, Row(changed.value, row.version + 1)));
      var stored := storage.Update(table, id, newRow, txn, row.version);
      r := indexes.InsertRow(table, changed.value, ColNames(schema), id);
    }

    /** The stored row the conflict clause finds. */
    method FindConflictRow(table: string, schema: TableSchema, target: Option<seq<string>>, values: Values)
      returns (r: Result<Option<RowId>, Error>)
      requires table in catalog && catalog[table] == schema
      ensures r == ConflictRow(View(), table, target, values)
    {
      hide WriteAheadLog.Valid, Numbered, ColNames;
      var cols := ConflictColumns(schema, target);
      if cols.Err? { return Err(cols.error); }
      var found := FindUniqueIndex(schema.indexes, cols.value);
      if found.None? { return Err(Execution); }
      var keyValues := KeyValues(cols.value, ColNames(schema), values);
      var ids := indexes.Lookup(table, schema.indexes[found.value].name, keyValues);
      r := Ok(FirstId(ids));
    }

    method ResolveConflict(table: string, schema: TableSchema, id: RowId, proposed: Values,
                           assignments: seq<Assignment>, selection: Option<Expr>, txn: TxnId)
      returns (r: Result<(), Error>)
      requires Valid() && transaction.txnId == Some(txn)
      requires table in catalog && catalog[table] == schema
      modifies storage`tables, storage`disk, storage.wal, indexes, transaction`undo
      ensures Valid() && transaction.txnId == Some(txn)
      ensures r.Ok? <==> UpdateConflict(old(View()), table, id, proposed, assignments, selection).Ok?
      ensures r.Ok? ==> View() == UpdateConflict(old(View()), table, id, proposed, assignments, selection).value
    {
      hide WriteAheadLog.Valid, Numbered, UpdateRow, Changed, EvalWhere, ColNames;
      var existing := storage.Get(table, id);
      if existing.None? { return Err(Execution); }
      if selection.Some? {
        var selected := EvalWhere(selection.value, existing.value.values, ColNames(schema), Some(proposed));
        if selected.Err? { return Err(selected.error); }
        if !selected.value { return Ok(()); }
      }
      r := ChangeRow(table, schema, id, existing.value, assignments, Some(proposed), txn);
    }

    /** Coerces a VALUES row column by column and checks NOT NULL. */
    method Propose(schema: TableSchema, raw: Values) returns (r: Result<Values, Error>)
      ensures r == Proposed(schema, raw)
    {
      hide CoerceTo, ValidRow;
      var columns, values := schema.columns, [];
      for i := 0 to |columns|
        invariant CoerceRow(columns[..i], raw) == Ok(values)
      {
        assert columns[..i + 1][..i] == columns[..i];
        var v := CoerceTo(CellAt(raw, i), columns[i].dataType);
        if v.Err? {
          CoerceStaysFailed(columns, raw, i + 1);
          return Err(v.error);
        }
        values := values + [v.value];
      }
      assert columns[..|columns|] == columns;
      r := if ValidRow(columns, values) then Ok(values) else Err(Execution);
    }

    method InsertOneRow(table: string, schema: TableSchema, onConflict: Option<OnConflict>, raw: Values, txn: TxnId)
      returns (r: Result<nat, Error>)
      requires Valid() && transaction.txnId == Some(txn)
      requires table in catalog && catalog[table] == schema
      modifies storage`tables, storage`disk, storage.wal, indexes, transaction`undo
      ensures Valid() && transaction.txnId == Some(txn)
      ensures r.Ok? <==> InsertOne(old(View()), table, onConflict, raw).Ok?
      ensures r.Ok? ==> InsertOne(old(View()), table, onConflict, raw) == Ok((View(), r.value))
    {
      hide WriteAheadLog.Valid, Numbered, InsertRow, UpdateConflict, ConflictRow, Proposed;
      var values := Propose(schema, raw);
      if values.Err? { return Err(values.error); }
      if onConflict.Some? {
        var conflict := FindConflictRow(table, schema, onConflict.value.target, values.value);
        if conflict.Err? { return Err(conflict.error); }
        if conflict.value.Some? {
          match onConflict.value.action {
            case DoNothing => return Ok(0);
            case DoUpdate(assignments, selection) =>
              var done := ResolveConflict(
                table, schema, conflict.value.value, values.value, assignments, selection, txn);
              if done.Err? { return Err(done.error); }
              return Ok(1);
          }
        }
      }
      var stored := StoreNew(table, values.value, txn);
      if stored.Err? { return Err(stored.error); }
      r := Ok(1);
    }

    method Insert(table: string, onConflict: Option<OnConflict>, rows: seq<Values>) returns (r: Result<nat, Error>)
      requires Valid() && !autoCommit
      modifies this, storage`tables, storage`disk, storage.wal, indexes, transaction
      ensures Valid()
      ensures r.Ok? <==> InsertStatement(old(View()), table, onConflict, rows).Ok?
      ensures r.Ok? ==> !autoCommit && InsertStatement(old(View()), table, onConflict, rows) == Ok((View(), r.value))
    {
      hide WriteAheadLog.Valid, Numbered, InsertOne;
      if table !in catalog { return Err(TableNotFound); }
      var schema := catalog[table];
      var txn := BeginWriteTxn();
      ghost var start := View();
      var count: nat := 0;
      for i := 0 to |rows|
        invariant Valid() && transaction.txnId == Some(txn) && table in catalog && catalog[table] == schema
        invariant InsertRows(start, table, onConflict, rows[..i]) == Ok((View(), count))
        modifies storage`tables, storage`disk, storage.wal, indexes, transaction`undo
      {
        assert rows[..i + 1][..i] == rows[..i];
        var n := InsertOneRow(table, schema, onConflict, rows[i], txn);
        if n.Err? {
          InsertRowsStaysFailed(start, table, onConflict, rows, i + 1);
          return Err(n.error);
        }
        count := count + n.value;
      }
      assert rows[..|rows|] == rows;
      FinishAutoCommit(count);
      r := Ok(count);
    }

    /** One scanned row of an UPDATE. */
    method UpdateScanned(table: string, schema: TableSchema, assignments: seq<Assignment>, where: Option<Expr>,
                         id: RowId, row: Row, txn: TxnId) returns (r: Result<nat, Error>)
      requires Valid() && transaction.txnId == Some(txn)
      requires table in catalog && catalog[table] == schema
      requires id in TableOf(storage.tables, table).rows && TableOf(storage.tables, table).rows[id] == row
      modifies storage`tables, storage`disk, storage.wal, indexes, transaction`undo
      ensures Valid() && transaction.txnId == Some(txn)
      ensures r.Ok? <==> UpdateOne(old(View()), table, schema, assignments, where, (id, row)).Ok?
      ensures r.Ok? ==> UpdateOne(old(View()), table, schema, assignments, where, (id, row)) == Ok((View(), r.value))
    {
      hide WriteAheadLog.Valid, Numbered, UpdateRow, Changed, Selects, ColNames;
      var selected := Selects(where, row.values, ColNames(schema), None);
      if selected.Err? { return Err(selected.error); }
      if !selected.value { return Ok(0); }
      var done := ChangeRow(table, schema, id, row, assignments, None, txn);
      if done.Err? { return Err(done.error); }
      r := Ok(1);
    }

    method Update(table: string, assignments: seq<Assignment>, where: Option<Expr>) returns (r: Result<nat, Error>)
      requires Valid() && !autoCommit
      modifies this, storage`tables, storage`disk, storage.wal, indexes, transaction
      ensures Valid()
      ensures r.Ok? <==> UpdateStatement(old(View()), table, assignments, where).Ok?
      ensures r.Ok? ==> !autoCommit && UpdateStatement(old(View()), table, assignments, where) == Ok((View(), r.value))
    {
      hide WriteAheadLog.Valid, Numbered, UpdateOne, UpdateRows, Scan, Untouched;
      if table !in catalog { return Err(TableNotFound); }
      var schema := catalog[table];
      var scan := storage.Scan(table);
      ScanRows(TableOf(storage.tables, table));
      var txn := BeginWriteTxn();
      ghost var start := View();
      NoRowsYet(start, table, schema, assignments, where);
      var count: nat := 0;
      for i := 0 to |scan|
        invariant Valid() && transaction.txnId == Some(txn) && table in catalog && catalog[table] == schema
        invariant UpdateRows(start, table, schema, assignments, where, scan[..i]) == Ok((View(), count))
        invariant Untouched(TableOf(storage.tables, table), scan, i)
        modifies storage`tables, storage`disk, storage.wal, indexes, transaction`undo
      {
        NextUntouched(TableOf(storage.tables, table), scan, i);
        UpdateNext(start, table, schema, assignments, where, scan, i, View(), count);
        var n := UpdateScanned(table, schema, assignments, where, scan[i].0, scan[i].1, txn);
        if n.Err? { return Err(n.error); }
        count := count + n.value;
      }
      assert scan[..|scan|] == scan;
      FinishAutoCommit(count);
      r := Ok(count);
    }

    method Delete(table: string, where: Option<Expr>) returns (r: Result<nat, Error>)
      requires Valid() && !autoCommit
      modifies this, storage`tables, storage`disk, storage.wal, indexes, transaction
      ensures Valid()
      ensures r.Ok? <==> DeleteStatement(old(View()), table, where).Ok?
      ensures r.Ok? ==> !autoCommit && DeleteStatement(old(View()), table, where) == Ok((View(), r.value))
    {
      hide WriteAheadLog.Valid, Numbered, DeleteOne, DeleteRows, Scan, Untouched;
      if table !in catalog { return Err(TableNotFound); }
      var schema := catalog[table];
      var scan := storage.Scan(table);
      ScanRows(TableOf(storage.tables, table));
      var txn := BeginWriteTxn();
      ghost var start := View();
      NoRowsYet(start, table, schema, [], where);
      var count: nat := 0;
      for i := 0 to |scan|
        invariant Valid() && transaction.txnId == Some(txn) && table in catalog && catalog[table] == schema
        invariant DeleteRows(start, table, schema, where, scan[..i]) == Ok((View(), count))
        invariant Untouched(TableOf(storage.tables, table), scan, i)
        modifies storage`tables, storage`disk, storage.wal, indexes, transaction`undo
      {
        NextUntouched(TableOf(storage.tables, table), scan, i);
        DeleteNext(start, table, schema, where, scan, i, View(), count);
        var n := DeleteScanned(table, schema, where, scan[i].0, scan[i].1, txn);
        if n.Err? { return Err(n.error); }
        count := count + n.value;
      }
      assert scan[..|scan|] == scan;
      FinishAutoCommit(count);
      r := Ok(count);
    }

    /** One scanned row of a DELETE. */
    method DeleteScanned(table: string, schema: TableSchema, where: Option<Expr>, id: RowId, row: Row, txn: TxnId)
      returns (r: Result<nat, Error>)
      requires Valid() && transaction.txnId == Some(txn)
      requires table in catalog && catalog[table] == schema
      requires id in TableOf(storage.tables, table).rows && TableOf(storage.tables, table).rows[id] == row
      modifies storage`tables, storage`disk, storage.wal, indexes, transaction`undo
      ensures Valid() && transaction.txnId == Some(txn)
      ensures r.Ok? <==> DeleteOne(old(View()), table, schema, where, (id, row)).Ok?
      ensures r.Ok? ==> DeleteOne(old(View()), table, schema, where, (id, row)) == Ok((View(), r.value))
    {
      hide WriteAheadLog.Valid, Numbered, Selects, DropRow, ColNames, SetIndexes;
      var selected := Selects(where, row.values, ColNames(schema), None);
      if selected.Err? { return Err(selected.error); }
      if !selected.value { return Ok(0); }
      Remember(UndoDelete(table, id, row));
      indexes.RemoveRow(table, row.values, ColNames(schema), id);
      NumberedSnoc(storage.wal.openLsn, storage.wal.history, WalOp.Delete(txn, table, id));
      var deleted := storage.Delete(table, id, txn);
      r := Ok(1);
    }

    // ---- Schema changes.

    method CreateTable(table: string, columns: seq<ColumnDef>) returns (r: Result<(), Error>)
      requires Valid()
      modifies this`catalog, storage`tables, indexes
      ensures Valid()
      ensures r.Ok? <==> Engine.CreateTable(old(View()), table, columns).Ok?
      ensures r.Ok? ==> View() == Engine.CreateTable(old(View()), table, columns).value
    {
      hide WriteAheadLog.Valid, Numbered, PrimaryIndex, EmptyIndex;
      Agreement.OneIndex(table, columns);
      NamedIndex(PrimaryIndex(table, columns));
      if table in catalog { return Err(Execution); }
      catalog := catalog[table := TableSchema(columns, [])];
      storage.EnsureTable(table);
      var metas := PrimaryIndex(table, columns);
      if metas == [] { return Ok(()); }
      var created := indexes.CreateIndex(table, EmptyIndex(metas[0]));
      if created.Err? { return created; }
      assert metas == [metas[0]];
      Overwritten(old(catalog), table, TableSchema(columns, []), TableSchema(columns, metas));
      catalog := catalog[table := TableSchema(columns, metas)];
      r := Ok(());
    }

    method CreateIndex(table: string, meta: IndexMeta) returns (r: Result<(), Error>)
      requires Valid()
      modifies this`catalog, indexes
      ensures Valid()
      ensures r.Ok? <==> Engine.CreateIndex(old(View()), table, meta).Ok?
      ensures r.Ok? ==> View() == Engine.CreateIndex(old(View()), table, meta).value
    {
      hide WriteAheadLog.Valid, Numbered, Build, Scan, ColNames, Position;
      if table !in catalog { return Err(TableNotFound); }
      var schema := catalog[table];
      for i := 0 to |meta.columns|
        invariant forall k :: 0 <= k < i ==> Position(ColNames(schema), meta.columns[k]).Some?
      {
        if Position(ColNames(schema), meta.columns[i]).None? { return Err(ColumnNotFound); }
      }
      var rows := storage.Scan(table);
      var built := indexes.BuildIndex(meta, ColNames(schema), rows);
      if built.Err? { return Err(built.error); }
      BuildKeepsName(EmptyIndex(meta), ColNames(schema), rows);
      var created := indexes.CreateIndex(table, built.value);
      if created.Err? { return Err(created.error); }
      if exists i :: 0 <= i < |schema.indexes| && schema.indexes[i].name == meta.name { return Err(IndexExists); }
      catalog := catalog[table := schema.(indexes := schema.indexes + [meta])];
      r := Ok(());
    }

    // ---- Queries.

    /** No plan for this WHERE clause uses an index that is not unique. */
    ghost predicate UniquePlansOnly(where: Option<Expr>, m: IndexMap) {
      where.Some? && ExtractEquality(where.value).Some? ==>
        forall n :: n in m && CoversColumn(m[n], ExtractEquality(where.value).value.0) ==> m[n].unique
    }

    /**
     The rows a SELECT keeps are those of a full scan, whatever plan was taken, if every row the
     equality selects is under the literal's key; in the order of the scan if the plan's index is unique.
     */
    method Select(table: string, where: Option<Expr>) returns (r: Result<seq<Row>, Error>)
      requires Valid() && table in catalog && table in storage.tables
      requires AllAgree(IndexesOf(indexes.indexes, table), ColNames(catalog[table]),
                        RowVals(storage.tables[table].rows))
      requires IdsBounded(storage.tables[table])
      ensures var colNames := ColNames(catalog[table]);
        var full := Filtered(where, colNames, Scans.Scan(storage.tables[table]));
        && (r.Ok? <==> full.Ok?)
        && (r.Ok? && (where.Some? ==> UnderLiteralKey(where.value, colNames, storage.tables[table])) ==>
              && multiset(r.value) == multiset(RowsOf(full.value))
              && (UniquePlansOnly(where, IndexesOf(indexes.indexes, table)) ==> r.value == RowsOf(full.value)))
    {
      hide WriteAheadLog.Valid, ColNames, Filtered, Scans.Scan, AllAgree, UnderLiteralKey, EvalWhere, RowVals;
      var colNames := ColNames(catalog[table]);
      var m := IndexesOf(indexes.indexes, table);
      var plan := PlanScan(where, m, colNames);
      if where.Some? {
        PlanExact(where.value, m, colNames, storage.tables[table], plan);
      }
      var candidates;
      match plan {
        case FullScan => candidates := storage.Scan(table);
        case IndexLookup(name, keyValues) =>
          var ids := indexes.Lookup(table, name, keyValues);
          var fetched := storage.FetchByIds(table, ids);
          candidates := fetched.value;
      }
      var kept := [];
      NothingFiltered(where, colNames);
      for i := 0 to |candidates|
        invariant Filtered(where, colNames, candidates[..i]) == Ok(kept)
      {
        FilteredNext(where, colNames, candidates, i, kept);
        var keep := Selects(where, candidates[i].1.values, colNames, None);
        if keep.Err? { return Err(keep.error); }
        if keep.value {
          kept := kept + [candidates[i]];
        }
      }
      assert candidates[..|candidates|] == candidates;
      r := Ok(RowsOf(kept));
    }
  }

  lemma NamedIndex(metas: seq<IndexMeta>)
    ensures metas != [] ==> EmptyIndex(metas[0]).name == metas[0].name
  {
  }

  lemma NothingFiltered(where: Option<Expr>, colNames: seq<string>)
    ensures Filtered(where, colNames, []) == Ok([])
  {
  }

  lemma FilteredNext(where: Option<Expr>, colNames: seq<string>, s: seq<(RowId, Row)>, i: nat, kept: seq<(RowId, Row)>)
    requires i < |s| && Filtered(where, colNames, s[..i]) == Ok(kept)
    ensures var keep := Selects(where, s[i].1.values, colNames, None);
      && (keep.Err? ==> Filtered(where, colNames, s).Err?)
      && (keep.Ok? ==> Filtered(where, colNames, s[..i + 1]) == Ok(if keep.value then kept + [s[i]] else kept))
  {
    hide EvalWhere;
    assert s[..i + 1][..i] == s[..i];
    if Selects(where, s[i].1.values, colNames, None).Err? {
      FilteredStaysFailed(where, colNames, s, i + 1);
    }
  }

  lemma {:induction false} FilteredStaysFailed(where: Option<Expr>, colNames: seq<string>, s: seq<(RowId, Row)>, i: nat)
    requires i <= |s| && Filtered(where, colNames, s[..i]).Err?
    ensures Filtered(where, colNames, s).Err?
    decreases |s|
  {
    hide EvalWhere;
    if i == |s| {
      assert s[..i] == s;
    } else {
      assert s[..|s| - 1][..i] == s[..i];
      FilteredStaysFailed(where, colNames, s[..|s| - 1], i);
    }
  }

  /** Until the first checkpoint the log file holds exactly the records of the engine's log. */
  lemma FileHoldsLog(ex: Executor)
    requires ex.Valid() && ex.storage.wal.initialBytes == [] && !ex.storage.wal.truncated
    ensures ex.storage.wal.file == Stream(ex.storage.wal.codec, ex.View().log)
  {
    hide Stream, Numbered;
    assert ex.storage.wal.Valid();
    assert [] + Stream(ex.storage.wal.codec, ex.storage.wal.log) == Stream(ex.storage.wal.codec, ex.storage.wal.log);
  }

  // ---- The rows of a scan that a loop has not reached yet.

  ghost predicate Untouched(t: Table, scan: seq<(RowId, Row)>, i: nat) {
    && StrictlySorted(scan)
    && forall k :: i <= k < |scan| ==> scan[k].0 in t.rows && t.rows[scan[k].0] == scan[k].1
  }

  lemma ScanRows(t: Table)
    ensures Untouched(t, Scan(t), 0)
  {
    ScanUpToElements(t.rows, t.nextId);
    var scan := Scan(t);
    assert forall k :: 0 <= k < |scan| ==> scan[k] in scan;
  }

  lemma NextUntouched(t: Table, scan: seq<(RowId, Row)>, i: nat)
    requires Untouched(t, scan, i) && i < |scan|
    ensures scan[i].0 in t.rows && t.rows[scan[i].0] == scan[i].1 && Untouched(t, scan, i + 1)
  {
  }

  /** The step changed at most the row of `scan[i]`. */
  lemma OthersUntouched(t: Table, t': Table, scan: seq<(RowId, Row)>, i: nat)
    requires Untouched(t, scan, i) && i < |scan|
    requires forall id :: id in t.rows && id != scan[i].0 ==> id in t'.rows && t'.rows[id] == t.rows[id]
    ensures Untouched(t', scan, i + 1)
  {
    forall k | i + 1 <= k < |scan|
      ensures scan[k].0 in t'.rows && t'.rows[scan[k].0] == scan[k].1
    {
      assert scan[i].0 < scan[k].0;
    }
  }

  lemma UpdateTouchesOne(db: Db, table: string, schema: TableSchema, assignments: seq<Assignment>, where: Option<Expr>,
                         scanned: (RowId, Row))
    requires UpdateOne(db, table, schema, assignments, where, scanned).Ok?
    ensures var db' := UpdateOne(db, table, schema, assignments, where, scanned).value.0;
      var t, t' := TableOf(db.tables, table), TableOf(db'.tables, table);
      forall x :: x in t.rows && x != scanned.0 ==> x in t'.rows && t'.rows[x] == t.rows[x]
  {
    hide AddRow, DropRow, ColNames, SetIndexes, Changed, Selects;
  }

  lemma DeleteTouchesOne(db: Db, table: string, schema: TableSchema, where: Option<Expr>, scanned: (RowId, Row))
    requires DeleteOne(db, table, schema, where, scanned).Ok?
    ensures var db' := DeleteOne(db, table, schema, where, scanned).value.0;
      var t, t' := TableOf(db.tables, table), TableOf(db'.tables, table);
      forall x :: x in t.rows && x != scanned.0 ==> x in t'.rows && t'.rows[x] == t.rows[x]
  {
    hide AddRow, DropRow, ColNames, SetIndexes, Selects;
  }

  lemma {:induction false} UpdateRowsStaysFailed(db: Db, table: string, schema: TableSchema,
                                                 assignments: seq<Assignment>, where: Option<Expr>,
                                                 scan: seq<(RowId, Row)>, i: nat)
    requires i <= |scan| && UpdateRows(db, table, schema, assignments, where, scan[..i]).Err?
    ensures UpdateRows(db, table, schema, assignments, where, scan).Err?
    decreases |scan|
  {
    hide UpdateOne;
    if i == |scan| {
      assert scan[..i] == scan;
    } else {
      assert scan[..|scan| - 1][..i] == scan[..i];
      UpdateRowsStaysFailed(db, table, schema, assignments, where, scan[..|scan| - 1], i);
    }
  }

  lemma {:induction false} DeleteRowsStaysFailed(db: Db, table: string, schema: TableSchema, where: Option<Expr>,
                                                 scan: seq<(RowId, Row)>, i: nat)
    requires i <= |scan| && DeleteRows(db, table, schema, where, scan[..i]).Err?
    ensures DeleteRows(db, table, schema, where, scan).Err?
    decreases |scan|
  {
    hide DeleteOne;
    if i == |scan| {
      assert scan[..i] == scan;
    } else {
      assert scan[..|scan| - 1][..i] == scan[..i];
      DeleteRowsStaysFailed(db, table, schema, where, scan[..|scan| - 1], i);
    }
  }

  lemma NoRowsYet(db: Db, table: string, schema: TableSchema, assignments: seq<Assignment>, where: Option<Expr>)
    ensures UpdateRows(db, table, schema, assignments, where, []) == Ok((db, 0))
    ensures DeleteRows(db, table, schema, where, []) == Ok((db, 0))
  {
  }

  lemma UpdateNext(db: Db, table: string, schema: TableSchema, assignments: seq<Assignment>, where: Option<Expr>,
                   scan: seq<(RowId, Row)>, i: nat, mid: Db, count: nat)
    requires i < |scan| && UpdateRows(db, table, schema, assignments, where, scan[..i]) == Ok((mid, count))
    requires Untouched(TableOf(mid.tables, table), scan, i)
    ensures var one := UpdateOne(mid, table, schema, assignments, where, scan[i]);
      && (one.Err? ==> UpdateRows(db, table, schema, assignments, where, scan).Err?)
      && (one.Ok? ==>
            && UpdateRows(db, table, schema, assignments, where, scan[..i + 1])
              == Ok((one.value.0, count + one.value.1))
            && Untouched(TableOf(one.value.0.tables, table), scan, i + 1))
  {
    hide UpdateOne, Untouched;
    assert scan[..i + 1][..i] == scan[..i];
    var one := UpdateOne(mid, table, schema, assignments, where, scan[i]);
    if one.Err? {
      UpdateRowsStaysFailed(db, table, schema, assignments, where, scan, i + 1);
    } else {
      UpdateTouchesOne(mid, table, schema, assignments, where, scan[i]);
      OthersUntouched(TableOf(mid.tables, table), TableOf(one.value.0.tables, table), scan, i);
    }
  }

  lemma DeleteNext(db: Db, table: string, schema: TableSchema, where: Option<Expr>, scan: seq<(RowId, Row)>, i: nat,
                   mid: Db, count: nat)
    requires i < |scan| && DeleteRows(db, table, schema, where, scan[..i]) == Ok((mid, count))
    requires Untouched(TableOf(mid.tables, table), scan, i)
    ensures var one := DeleteOne(mid, table, schema, where, scan[i]);
      && (one.Err? ==> DeleteRows(db, table, schema, where, scan).Err?)
      && (one.Ok? ==>
            && DeleteRows(db, table, schema, where, scan[..i + 1]) == Ok((one.value.0, count + one.value.1))
            && Untouched(TableOf(one.value.0.tables, table), scan, i + 1))
  {
    hide DeleteOne, Untouched;
    assert scan[..i + 1][..i] == scan[..i];
    var one := DeleteOne(mid, table, schema, where, scan[i]);
    if one.Err? {
      DeleteRowsStaysFailed(db, table, schema, where, scan, i + 1);
    } else {
      DeleteTouchesOne(mid, table, schema, where, scan[i]);
      OthersUntouched(TableOf(mid.tables, table), TableOf(one.value.0.tables, table), scan, i);
    }
  }

  // ---- Loops that stop at the first error.

  lemma {:induction false} CoerceStaysFailed(columns: seq<ColumnDef>, raw: Values, i: nat)
    requires i <= |columns| && CoerceRow(columns[..i], raw).Err?
    ensures CoerceRow(columns, raw) == CoerceRow(columns[..i], raw)
    decreases |columns|
  {
    hide CoerceTo;
    if i == |columns| {
      assert columns[..i] == columns;
    } else {
      assert columns[..|columns| - 1][..i] == columns[..i];
      CoerceStaysFailed(columns[..|columns| - 1], raw, i);
    }
  }

  lemma {:induction false} InsertRowsStaysFailed(db: Db, table: string, onConflict: Option<OnConflict>,
                                                 rows: seq<Values>, i: nat)
    requires i <= |rows| && InsertRows(db, table, onConflict, rows[..i]).Err?
    ensures InsertRows(db, table, onConflict, rows).Err?
    decreases |rows|
  {
    hide InsertOne;
    if i == |rows| {
      assert rows[..i] == rows;
    } else {
      assert rows[..|rows| - 1][..i] == rows[..i];
      InsertRowsStaysFailed(db, table, onConflict, rows[..|rows| - 1], i);
    }
  }

  lemma {:induction false} AssignedStaysFailed(schema: TableSchema, values: Values, assignments: seq<Assignment>,
                                               excluded: Option<Values>, i: nat)
    requires i <= |assignments| && Assigned(schema, values, assignments[..i], excluded).Err?
    ensures Assigned(schema, values, assignments, excluded) == Assigned(schema, values, assignments[..i], excluded)
    decreases |assignments|
  {
    hide AssignOne;
    if i == |assignments| {
      assert assignments[..i] == assignments;
    } else {
      assert assignments[..|assignments| - 1][..i] == assignments[..i];
      AssignedStaysFailed(schema, values, assignments[..|assignments| - 1], excluded, i);
    }
  }

  // Dropping a row and adding one touch the same table entry, if there is one.
  lemma DropThenAdd(ixs: IndexSet, table: string, colNames: seq<string>, before: Values, after: Values, id: RowId)
    ensures var dropped := DropRow(IndexesOf(ixs, table), colNames, before, id);
      && IndexesOf(SetIndexes(ixs, table, dropped), table) == dropped
      && var added := AddRow(dropped, colNames, after, id);
         added.Ok? ==>
           SetIndexes(SetIndexes(ixs, table, dropped), table, added.value) == SetIndexes(ixs, table, added.value)
  {
    hide AddRow;
    var dropped := DropRow(IndexesOf(ixs, table), colNames, before, id);
    assert table !in ixs ==> dropped == map[];
    if table in ixs && AddRow(dropped, colNames, after, id).Ok? {
      Overwritten(ixs, table, dropped, AddRow(dropped, colNames, after, id).value);
    }
  }

  lemma Overwritten<T>(m: map<string, T>, k: string, a: T, b: T)
    ensures m[k := a][k := b] == m[k := b]
  {
  }
}

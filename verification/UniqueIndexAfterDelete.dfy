/**
 CREATE UNIQUE INDEX after a deletion that is taken back: a ROLLBACK that fails, and a database that
 cannot be opened after a crash.
 */
module UniqueIndexAfterDelete {
  import opened Types
  import opened WalFormat
  import opened Tables
  import opened Index
  import opened Catalog
  import opened TableIndexes
  import opened Scans
  import opened Engine
  import opened Rollback
  import opened Agreement
  import opened CrashAtomicity
  import opened Reopening

  /** A table without indexes that holds the same value twice. */
  function TwoEqualRows(v: Value): Db {
    var rows: map<RowId, Row> := map[1 := Row([v], 1), 2 := Row([v], 1)];
    var schema := TableSchema([ColumnDef("c", TText, true, false)], []);
    Db(map["t" := schema], map["t" := Table(rows, 3)], map[], [], 0, 1, IDLE)
  }

  const UNIQUE_C: IndexMeta := IndexMeta("u", ["c"], true)

  /** Deleting one of the rows lets the index be built, and the older state no longer fits it. */
  function Statements(): seq<Event> {
    [EBegin, EDelete("t", 2), ECreateIndex("t", UNIQUE_C)]
  }

  lemma TwoEqualRowsAgree(v: Value)
    ensures AgreementInv(TwoEqualRows(v))
  {
    var db := TwoEqualRows(v);
    assert TableOk(db.catalog["t"], IndexesOf(db.indexes, "t"), db.tables["t"]);
  }

  function Deleted(v: Value): Db {
    var log := [Entry(1, WalOp.Begin(1)), Entry(2, WalOp.Delete(1, "t", 2))];
    TwoEqualRows(v).(tables := map["t" := Table(map[1 := Row([v], 1)], 3)], log := log, lsn := 2, nextTxn := 2,
                     session := Session(Some(1), false, [UndoDelete("t", 2, Row([v], 1))]))
  }

  lemma DeleteRuns(v: Value)
    ensures Run(TwoEqualRows(v), [EBegin, EDelete("t", 2)]) == Ok(Deleted(v))
  {
    var db := TwoEqualRows(v);
    var begun := BeginTxn(db, false).value;
    DeleteStep(v);
    hide BeginTxn, DeleteRow, Deleted, TwoEqualRows;
    assert [EBegin][..0] == [] && [EBegin, EDelete("t", 2)][..1] == [EBegin];
    assert Run(db, []) == Ok(db);
    assert Run(db, [EBegin]) == Ok(begun);
  }

  lemma DeleteStep(v: Value)
    ensures BeginTxn(TwoEqualRows(v), false).Ok?
    ensures DeleteRow(BeginTxn(TwoEqualRows(v), false).value, "t", 2) == Ok(Deleted(v))
  {
    var begun := BeginTxn(TwoEqualRows(v), false).value;
    var db := DeleteRow(begun, "t", 2).value;
    assert db.tables["t"].rows == map[1 := Row([v], 1)];
    assert db.tables == Deleted(v).tables;
    assert db.log == Deleted(v).log;
    assert db.session.undo == Deleted(v).session.undo;
    assert db.indexes == map[] && db.catalog == Deleted(v).catalog;
  }

  lemma OneRowIndexed(v: Value)
    ensures ColNames(Deleted(v).catalog["t"]) == ["c"]
    ensures Build(EmptyIndex(UNIQUE_C), ["c"], Scan(Deleted(v).tables["t"])).Ok?
  {
    hide Scan, Build, ScanValues, KeyOf, Agrees;
    var t := Deleted(v).tables["t"];
    ScanIsComplete(t);
    OneKey(Row([v], 1));
    assert t.rows == map[1 := Row([v], 1)];
    BuildAgrees(EmptyIndex(UNIQUE_C), ["c"], Scan(t));
  }

  lemma OneKey(row: Row)
    ensures KeysUnique(true, KeysOf(["c"], ["c"], RowVals(map[1 := row])))
  {
    hide KeyOf;
  }

  lemma IndexRuns(v: Value, db: Db)
    requires db.catalog == Deleted(v).catalog && db.tables == Deleted(v).tables && db.indexes == map[]
    ensures CreateIndex(db, "t", UNIQUE_C).Ok?
    ensures var db' := CreateIndex(db, "t", UNIQUE_C).value;
      && db'.catalog.Keys == {"t"} && db'.catalog["t"].indexes == [UNIQUE_C]
      && ColNames(db'.catalog["t"]) == ["c"]
      && db'.tables == db.tables && db'.session == db.session && db'.log == db.log
  {
    OneRowIndexed(v);
    hide Build, Scan, EmptyIndex;
    assert EqIgnoreCase("c", "c");
    assert Position(["c"], "c") == Some(0);
    assert UNIQUE_C.columns == ["c"];
    assert CreateIndex(db, "t", UNIQUE_C).Ok?;
    assert ColNames(CreateIndex(db, "t", UNIQUE_C).value.catalog["t"]) == ColNames(db.catalog["t"]);
  }

  /** ROLLBACK runs into the index: the deleted row cannot come back. */
  lemma {:induction false} RollbackFails(v: Value)
    ensures AgreementInv(TwoEqualRows(v))
    ensures Run(TwoEqualRows(v), Statements()).Ok?
    ensures RollbackTxn(Run(TwoEqualRows(v), Statements()).value).Err?
  {
    TwoEqualRowsAgree(v);
    DeleteRuns(v);
    IndexRuns(v, Deleted(v));
    assert Statements()[..2] == [EBegin, EDelete("t", 2)];
    hide Inv, CreateIndex, RollbackTxn, DeleteRow, BeginTxn;
    var db := CreateIndex(Deleted(v), "t", UNIQUE_C).value;
    assert Run(TwoEqualRows(v), Statements()) == Ok(db);
    RunKeepsAgreement(TwoEqualRows(v), Statements());
    RollbackExact(db);
    NotUniqueBefore(v, db.catalog);
  }

  lemma {:induction false} NotUniqueBefore(v: Value, catalog: SchemaMap)
    requires "t" in catalog && catalog["t"].indexes == [UNIQUE_C] && ColNames(catalog["t"]) == ["c"]
    ensures !UniqueAlong(catalog, ValuesOf(Deleted(v).tables), Deleted(v).session.undo)
  {
    var rec := UndoDelete("t", 2, Row([v], 1));
    var vm := UndoValue(ValuesOf(Deleted(v).tables), rec);
    var keys := KeysOf(["c"], ["c"], vm["t"]);
    assert keys[1] == keys[2];
    assert !UniqueFor(UNIQUE_C, ["c"], vm["t"]);
    assert catalog["t"].indexes[0] == UNIQUE_C;
    assert !UniqueRows(catalog["t"], vm["t"]);
    assert Deleted(v).session.undo == [rec];
  }

  // ---- The same deletion, committed, and a crash that takes the Commit record.

  function Committing(): seq<Event> {
    [EBegin, EDelete("t", 2), ECommit, ECreateIndex("t", UNIQUE_C)]
  }

  /** The transaction is over and its index stands. */
  function Indexed(v: Value): Db {
    var done := CommitTxn(Deleted(v)).value;
    IndexRuns(v, done);
    CreateIndex(done, "t", UNIQUE_C).value
  }

  function LogOfDelete(): seq<Entry> {
    [Entry(1, WalOp.Begin(1)), Entry(2, WalOp.Delete(1, "t", 2)), Entry(3, WalOp.Commit(1))]
  }

  lemma CommittingRuns(v: Value)
    ensures Run(TwoEqualRows(v), Committing()) == Ok(Indexed(v))
    ensures var db := Indexed(v);
      && db.catalog.Keys == {"t"} && db.catalog["t"].indexes == [UNIQUE_C] && ColNames(db.catalog["t"]) == ["c"]
      && db.log == LogOfDelete()
    ensures var committed := Run(TwoEqualRows(v), Committing()[..3]);
      committed.Ok? && committed.value.log == LogOfDelete()
  {
    hide Run, BeginTxn, DeleteRow, CreateIndex, RollbackTxn;
    DeleteRuns(v);
    var done := CommitTxn(Deleted(v)).value;
    IndexRuns(v, done);
    assert done.log == LogOfDelete();
    var es := Committing();
    RunSnoc(TwoEqualRows(v), [EBegin, EDelete("t", 2)], Deleted(v), ECommit, es[..3]);
    RunSnoc(TwoEqualRows(v), es[..3], done, ECreateIndex("t", UNIQUE_C), es);
  }

  lemma NothingDurable(v: Value)
    ensures DurablePoint(TwoEqualRows(v), Committing(), 2) == 0
  {
    hide Run, DurablePoint, Indexed, TwoEqualRows;
    CommittingRuns(v);
    DurablePointIsLast(TwoEqualRows(v), Committing(), 2);
  }

  lemma TwoEqualRowsStarted(v: Value)
    ensures Started(TwoEqualRows(v).tables, TwoEqualRows(v))
  {
    TwoEqualRowsAgree(v);
  }

  lemma NotUniqueRows(v: Value, catalog: SchemaMap)
    requires "t" in catalog && catalog["t"].indexes == [UNIQUE_C] && ColNames(catalog["t"]) == ["c"]
    ensures !UniqueValues(catalog, ValuesOf(TwoEqualRows(v).tables))
  {
    var vm := ValuesOf(TwoEqualRows(v).tables);
    var keys := KeysOf(["c"], ["c"], vm["t"]);
    assert keys[1] == keys[2];
    assert !UniqueFor(UNIQUE_C, ["c"], vm["t"]);
    assert catalog["t"].indexes[0] == UNIQUE_C;
    assert !UniqueRows(catalog["t"], vm["t"]);
  }

  /**
   The deleted row is back because its Commit record was lost, and the index, which the catalog
   file has, does not fit: opening fails.
   */
  lemma OpeningFails(c: Codec, v: Value, lsn: nat)
    requires AllEncodable(c, LogOfDelete())
    ensures Started(TwoEqualRows(v).tables, TwoEqualRows(v))
    ensures Run(TwoEqualRows(v), Committing()) == Ok(Indexed(v)) && Indexed(v).log == LogOfDelete()
    ensures var k := |Stream(c, LogOfDelete()[..2])|;
      && k <= |Stream(c, LogOfDelete())|
      && Reopened(Indexed(v).catalog, TwoEqualRows(v).tables, Surviving(c, LogOfDelete(), k, 0), lsn).Err?
  {
    hide Stream, Surviving, CompleteFrames, DurablePoint, Run, Started, Reopened, Indexed, UniqueValues, ValuesOf;
    TwoEqualRowsStarted(v);
    CommittingRuns(v);
    NothingDurable(v);
    var k := |Stream(c, LogOfDelete()[..2])|;
    CutAfterFrames(c, LogOfDelete(), 2);
    ReopenExact(c, TwoEqualRows(v).tables, TwoEqualRows(v), Committing(), k, 0, lsn);
    RunNothing(TwoEqualRows(v));
    assert Committing()[..0] == [];
    NotUniqueRows(v, Indexed(v).catalog);
  }
}

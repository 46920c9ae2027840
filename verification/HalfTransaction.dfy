/** A run whose second transaction comes back by half: a checkpoint, and a crash before the log was synced. */
module HalfTransaction {
  import opened Types
  import opened WalFormat
  import opened Tables
  import opened Index
  import opened Catalog
  import opened Replaying
  import opened Engine
  import opened CrashAtomicity
  import opened InterruptedCheckpoint

  const SCHEMA: TableSchema := TableSchema([ColumnDef("c", TText, true, false)], [])

  const FILES: TableMap := map["t" := EMPTY_TABLE]

  const NO_ROWS: Db := Db(map["t" := SCHEMA], FILES, map[], [], 0, 1, IDLE)

  /** One transaction inserts row 1; the other updates it and inserts row 2. */
  function TwoTransactions(a: Values, b: Values, c: Values): seq<Event> {
    [EBegin, EInsert("t", a), ECommit, EBegin, EUpdate("t", 1, b), EInsert("t", c), ECommit]
  }

  function FirstLog(a: Values): seq<Entry> {
    [Entry(1, WalOp.Begin(1)), Entry(2, WalOp.Insert(1, "t", 1, Row(a, 1))), Entry(3, WalOp.Commit(1))]
  }

  function SecondLog(b: Values, c: Values): seq<Entry> {
    [Entry(4, WalOp.Begin(2)), Entry(5, WalOp.Update(2, "t", 1, Row(b, 2))),
     Entry(6, WalOp.Insert(2, "t", 2, Row(c, 1))), Entry(7, WalOp.Commit(2))]
  }

  function AfterFirst(a: Values): Db {
    NO_ROWS.(tables := map["t" := Table(map[1 := Row(a, 1)], 2)], log := FirstLog(a), lsn := 3, nextTxn := 2)
  }

  function AfterBoth(a: Values, b: Values, c: Values): Db {
    NO_ROWS.(tables := map["t" := Table(map[1 := Row(b, 2), 2 := Row(c, 1)], 3)],
             log := FirstLog(a) + SecondLog(b, c), lsn := 7, nextTxn := 3)
  }

  lemma NoRowsStarted()
    ensures Started(FILES, NO_ROWS)
  {
    assert TableOk(SCHEMA, map[], EMPTY_TABLE);
  }

  // ---- Steps in a table without indexes.

  ghost predicate Plain(db: Db) {
    db.indexes == map[] && db.catalog == NO_ROWS.catalog && "t" in db.tables && db.session.txn.Some?
  }

  lemma PlainInsert(db: Db, values: Values)
    requires Plain(db)
    ensures var t := db.tables["t"];
      InsertRow(db, "t", values)
      == Ok(Recorded(Logged(db.(tables := db.tables["t" := InsertNew(t, NewRow(values))]),
                            WalOp.Insert(db.session.txn.value, "t", t.nextId, NewRow(values))),
                     UndoInsert("t", t.nextId)))
  {
  }

  lemma PlainUpdate(db: Db, id: RowId, values: Values)
    requires Plain(db) && id in db.tables["t"].rows
    ensures var t := db.tables["t"];
      var row := Row(values, t.rows[id].version + 1);
      UpdateRow(db, "t", id, values)
      == Ok(Recorded(Logged(db.(tables := db.tables["t" := t.(rows := t.rows[id := row])]),
                            WalOp.Update(db.session.txn.value, "t", id, row)),
                     UndoUpdate("t", id, t.rows[id])))
  {
  }

  function Begun(db: Db): Db {
    Logged(db, WalOp.Begin(db.nextTxn)).(nextTxn := db.nextTxn + 1, session := Session(Some(db.nextTxn), false, []))
  }

  /** The first transaction before its COMMIT. */
  function Unfinished(a: Values): Db {
    NO_ROWS.(tables := AfterFirst(a).tables, log := FirstLog(a)[..2], lsn := 2, nextTxn := 2,
             session := Session(Some(1), false, [UndoInsert("t", 1)]))
  }

  lemma FirstInsert(a: Values)
    ensures InsertRow(Begun(NO_ROWS), "t", a) == Ok(Unfinished(a))
  {
    var begun := Begun(NO_ROWS);
    PlainInsert(begun, a);
    var inserted := InsertRow(begun, "t", a).value;
    assert inserted.tables["t"] == Unfinished(a).tables["t"];
    assert inserted.log == Unfinished(a).log;
    assert inserted == Unfinished(a);
  }

  lemma FirstCommit(a: Values)
    ensures CommitTxn(Unfinished(a)) == Ok(AfterFirst(a))
  {
    assert CommitTxn(Unfinished(a)).value.log == FirstLog(a);
  }

  lemma UnfinishedRuns(a: Values)
    ensures Run(NO_ROWS, [EBegin, EInsert("t", a)]) == Ok(Unfinished(a))
  {
    hide InsertRow, UpdateRow, DeleteRow, CommitTxn, BeginTxn, RollbackTxn, CreateTable, CreateIndex;
    hide Run, Unfinished, Begun;
    BeginStep(NO_ROWS);
    FirstInsert(a);
    RunNothing(NO_ROWS);
    RunSnoc(NO_ROWS, [], NO_ROWS, EBegin, [EBegin]);
    RunSnoc(NO_ROWS, [EBegin], Begun(NO_ROWS), EInsert("t", a), [EBegin, EInsert("t", a)]);
  }

  lemma FirstRuns(a: Values)
    ensures Run(NO_ROWS, [EBegin, EInsert("t", a), ECommit]) == Ok(AfterFirst(a))
  {
    hide InsertRow, UpdateRow, DeleteRow, CommitTxn, BeginTxn, RollbackTxn, CreateTable, CreateIndex;
    hide Run, Unfinished, AfterFirst;
    UnfinishedRuns(a);
    FirstCommit(a);
    RunSnoc(NO_ROWS, [EBegin, EInsert("t", a)], Unfinished(a), ECommit, [EBegin, EInsert("t", a), ECommit]);
  }

  lemma BothRun(a: Values, b: Values, c: Values)
    ensures Run(NO_ROWS, TwoTransactions(a, b, c)) == Ok(AfterBoth(a, b, c))
    ensures TwoTransactions(a, b, c)[..3] == [EBegin, EInsert("t", a), ECommit]
  {
    hide InsertRow, UpdateRow, DeleteRow, CommitTxn, BeginTxn, RollbackTxn, CreateTable, CreateIndex;
    hide Run, AfterFirst, AfterBoth, Begun;
    IdleAfterFirst(a);
    var es := TwoTransactions(a, b, c);
    FirstRuns(a);
    SecondSteps(a, b, c);
    var begun := Begun(AfterFirst(a));
    var updated := UpdateRow(begun, "t", 1, b).value;
    var inserted := InsertRow(updated, "t", c).value;
    BeginStep(AfterFirst(a));
    assert es[..3] == [EBegin, EInsert("t", a), ECommit];
    RunSnoc(NO_ROWS, es[..3], AfterFirst(a), EBegin, es[..4]);
    RunSnoc(NO_ROWS, es[..4], begun, EUpdate("t", 1, b), es[..5]);
    RunSnoc(NO_ROWS, es[..5], updated, EInsert("t", c), es[..6]);
    RunSnoc(NO_ROWS, es[..6], inserted, ECommit, es);
  }

  lemma IdleAfterFirst(a: Values)
    ensures AfterFirst(a).session.txn == None
  {
  }

  lemma BeginStep(db: Db)
    requires db.session.txn == None
    ensures BeginTxn(db, false) == Ok(Begun(db))
  {
  }

  lemma SecondSteps(a: Values, b: Values, c: Values)
    ensures var updated := UpdateRow(Begun(AfterFirst(a)), "t", 1, b);
      && updated.Ok?
      && var inserted := InsertRow(updated.value, "t", c);
         inserted.Ok? && CommitTxn(inserted.value) == Ok(AfterBoth(a, b, c))
  {
    var begun := Begun(AfterFirst(a));
    PlainUpdate(begun, 1, b);
    var updated := UpdateRow(begun, "t", 1, b).value;
    hide UpdateRow;
    PlainInsert(updated, c);
    var inserted := InsertRow(updated, "t", c).value;
    hide InsertRow;
    var done := CommitTxn(inserted).value;
    assert done.tables["t"].rows == AfterBoth(a, b, c).tables["t"].rows;
    assert done.tables == AfterBoth(a, b, c).tables;
    assert done.log == FirstLog(a) + SecondLog(b, c);
  }

  // ---- The crash: three records survive, and the table file was already written.

  lemma DurableFirst(a: Values, b: Values, x: Values)
    ensures DurablePoint(NO_ROWS, TwoTransactions(a, b, x), 3) == 3
    ensures Run(NO_ROWS, TwoTransactions(a, b, x)[..3]) == Ok(AfterFirst(a))
  {
    var es := TwoTransactions(a, b, x);
    FirstRuns(a);
    BothRun(a, b, x);
    hide Run, DurablePoint;
    DurablePointIsLast(NO_ROWS, es, 3);
    assert DurableCommit(NO_ROWS, es, 3, 3);
    assert es[..7] == es;
  }

  lemma SelectedSnoc(entries: seq<Entry>, e: Entry, all: seq<Entry>)
    ensures Selected(entries + [e], all)
      == Selected(entries, all) + if e.op.IsDataOp() && Committed(all, e.op.txn) then [e] else []
  {
    assert (entries + [e])[..|entries|] == entries;
  }

  lemma FirstSelected(a: Values)
    ensures CommittedData(FirstLog(a)) == [Entry(2, WalOp.Insert(1, "t", 1, Row(a, 1)))]
  {
    var log := FirstLog(a);
    assert Committed(log, 1);
    hide Committed;
    SelectedSnoc([], log[0], log);
    SelectedSnoc([log[0]], log[1], log);
    SelectedSnoc([log[0], log[1]], log[2], log);
    hide Selected;
    assert [] + [log[0]] == [log[0]] && [log[0]] + [log[1]] == [log[0], log[1]];
    assert [log[0], log[1]] + [log[2]] == log;
    NothingSelected(log);
  }

  lemma NothingSelected(all: seq<Entry>)
    ensures Selected([], all) == []
  {
  }

  lemma OneApplied(ts: TableMap, op: WalOp)
    ensures ApplyAll(ts, [op]) == ApplyOp(ts, op)
  {
    assert [op][..0] == [];
  }

  lemma FirstReplayed(a: Values, ts: TableMap)
    ensures Recovered(ts, FirstLog(a)) == Ok(ts["t" := InsertAt(TableOf(ts, "t"), 1, Row(a, 1))])
  {
    hide CommittedData, ToApply, ApplyAll;
    FirstSelected(a);
    SortedLogOrder(FirstLog(a));
    var op := WalOp.Insert(1, "t", 1, Row(a, 1));
    assert Ops([Entry(2, op)]) == [op];
    OneApplied(ts, op);
  }

  lemma ThreeSurvive(c: Codec, a: Values, b: Values, x: Values)
    requires AllEncodable(c, AfterBoth(a, b, x).log)
    ensures var log := AfterBoth(a, b, x).log;
      var k := |Stream(c, log[..3])|;
      k <= |Stream(c, log)| && CompleteFrames(c, log, k) == 3 && Surviving(c, log, k, 0) == FirstLog(a)
  {
    hide Stream, CompleteFrames, Surviving, Run, Started, TwoTransactions;
    var db := AfterBoth(a, b, x);
    NoRowsStarted();
    BothRun(a, b, x);
    CutAfterFrames(c, db.log, 3);
    assert db.log[..3] == FirstLog(a);
    var start := RunKeepsCrashInv(FILES, NO_ROWS, TwoTransactions(a, b, x));
    CrashInvShows(FILES, db, start, 0);
    SurvivingIsPrefix(c, db, 0, |Stream(c, db.log[..3])|, 0);
  }

  /** The table file holds both rows as memory did; the first transaction is replayed over them. */
  lemma FileAhead(c: Codec, a: Values, b: Values, x: Values, k: nat)
    requires k <= |Stream(c, AfterBoth(a, b, x).log)| && Surviving(c, AfterBoth(a, b, x).log, k, 0) == FirstLog(a)
    ensures var db := AfterBoth(a, b, x);
      var r := AfterInterruption(c, FILES, db, {"t"}, k, 0);
      && r.Ok? && Stored(r.value, "t", 1) == Some(a) && Stored(r.value, "t", 2) == Some(x)
      && Stored(AfterFirst(a).tables, "t", 2) == None && Stored(db.tables, "t", 1) == Some(b)
  {
    hide Stream, Surviving, Recovered, FirstLog, SecondLog;
    var db := AfterBoth(a, b, x);
    assert Ensured(Mixed(FILES, db.tables, {"t"}), db.catalog) == db.tables;
    FirstReplayed(a, db.tables);
  }

  /**
   A row of the second transaction is back and its update of the other row is not: neither the last
   durable COMMIT nor what memory held.
   */
  lemma HalfComesBack(c: Codec, a: Values, b: Values, x: Values)
    requires AllEncodable(c, AfterBoth(a, b, x).log)
    ensures var es, db := TwoTransactions(a, b, x), AfterBoth(a, b, x);
      var k := |Stream(c, db.log[..3])|;
      && Started(FILES, NO_ROWS) && Run(NO_ROWS, es) == Ok(db) && k <= |Stream(c, db.log)|
      && DurablePoint(NO_ROWS, es, CompleteFrames(c, db.log, k)) == 3 && Run(NO_ROWS, es[..3]) == Ok(AfterFirst(a))
      && var r := AfterInterruption(c, FILES, db, {"t"}, k, 0);
         && r.Ok? && Stored(r.value, "t", 1) == Some(a) && Stored(r.value, "t", 2) == Some(x)
         && LastCommit(NO_ROWS, es) == Ok(db)
         && (a != b ==> !Atomic(c, FILES, db, AfterFirst(a).tables, db.tables, k, 0))
  {
    hide Stream, CompleteFrames, Surviving, Run, Started, DurablePoint, AfterInterruption, AfterBoth, AfterFirst;
    var db := AfterBoth(a, b, x);
    ThreeSurvive(c, a, b, x);
    NoRowsStarted();
    BothRun(a, b, x);
    DurableFirst(a, b, x);
    var k := |Stream(c, db.log[..3])|;
    FileAhead(c, a, b, x, k);
    LastIsSecond(a, b, x);
    NotAtomic(c, db, AfterFirst(a).tables, k);
  }

  lemma LastIsSecond(a: Values, b: Values, x: Values)
    ensures Run(NO_ROWS, TwoTransactions(a, b, x)).Ok?
    ensures LastCommit(NO_ROWS, TwoTransactions(a, b, x)) == Ok(AfterBoth(a, b, x))
  {
    BothRun(a, b, x);
    hide Run, DurablePoint;
    var es := TwoTransactions(a, b, x);
    DurablePointIsLast(NO_ROWS, es, |AfterBoth(a, b, x).log|);
    assert es[..7] == es;
    assert DurableCommit(NO_ROWS, es, 7, |AfterBoth(a, b, x).log|);
  }

  lemma NotAtomic(c: Codec, db: Db, durable: TableMap, k: nat)
    requires k <= |Stream(c, db.log)|
    ensures var r := AfterInterruption(c, FILES, db, {"t"}, k, 0);
      r.Ok? && Stored(r.value, "t", 2) != Stored(durable, "t", 2)
      && Stored(r.value, "t", 1) != Stored(db.tables, "t", 1)
      ==> !Atomic(c, FILES, db, durable, db.tables, k, 0)
  {
    hide Stream, AfterInterruption, Stored;
    var r := AfterInterruption(c, FILES, db, {"t"}, k, 0);
    assert Atomic(c, FILES, db, durable, db.tables, k, 0) ==> Stores(r, durable) || Stores(r, db.tables);
  }

  // ---- A checkpoint inside a transaction: its table file holds a row that was never committed.

  lemma BegunOnly(a: Values)
    ensures !Committed(FirstLog(a)[..2], 1)
  {
    var first, second := FirstLog(a)[0], FirstLog(a)[1];
    assert FirstLog(a)[..2] == [first, second];
    assert [first, second][..1] == [first] && [first][..0] == [];
    assert !Committed([first], 1);
  }

  lemma NothingCommitted(a: Values, ts: TableMap)
    ensures Recovered(ts, FirstLog(a)[..2]) == Ok(ts)
  {
    hide Committed;
    var log := FirstLog(a)[..2];
    BegunOnly(a);
    assert log == [FirstLog(a)[0], FirstLog(a)[1]];
    SelectedSnoc([], log[0], log);
    SelectedSnoc([log[0]], log[1], log);
    assert [] + [log[0]] == [log[0]] && [log[0]] + [log[1]] == log;
    SortedLogOrder(log);
  }

  lemma NoCommitYet(a: Values, n: nat)
    ensures DurablePoint(NO_ROWS, [EBegin, EInsert("t", a)], n) == 0
  {
    hide Run;
    assert [EBegin, EInsert("t", a)][..1] == [EBegin] && [EBegin][..0] == [];
  }

  /** The whole log survives, and recovery stores a row of a transaction that never committed. */
  lemma UncommittedComesBack(c: Codec, a: Values)
    requires AllEncodable(c, Unfinished(a).log)
    ensures var es, db := [EBegin, EInsert("t", a)], Unfinished(a);
      && Started(FILES, NO_ROWS) && Run(NO_ROWS, es) == Ok(db) && LastCommit(NO_ROWS, es) == Ok(NO_ROWS)
      && var k := |Stream(c, db.log)|;
         var r := AfterInterruption(c, FILES, db, {"t"}, k, 0);
         && r.Ok? && Stored(r.value, "t", 1) == Some(a)
         && !Atomic(c, FILES, db, NO_ROWS.tables, NO_ROWS.tables, k, 0)
  {
    hide Stream, Surviving, Run, Started, DurablePoint, AfterInterruption, Unfinished;
    var es, db := [EBegin, EInsert("t", a)], Unfinished(a);
    NoRowsStarted();
    UnfinishedRuns(a);
    NoCommitYet(a, |db.log|);
    RunNothing(NO_ROWS);
    assert es[..0] == [];
    UnfinishedStored(c, a);
    assert Atomic(c, FILES, db, NO_ROWS.tables, NO_ROWS.tables, |Stream(c, db.log)|, 0) ==>
        Stores(AfterInterruption(c, FILES, db, {"t"}, |Stream(c, db.log)|, 0), NO_ROWS.tables);
  }

  lemma UnfinishedStored(c: Codec, a: Values)
    requires AllEncodable(c, Unfinished(a).log)
    ensures var r := AfterInterruption(c, FILES, Unfinished(a), {"t"}, |Stream(c, Unfinished(a).log)|, 0);
      r.Ok? && Stored(r.value, "t", 1) == Some(a) && Stored(NO_ROWS.tables, "t", 1) == None
  {
    hide Stream, Surviving, Recovered, FirstLog;
    var db := Unfinished(a);
    AllSurvives(c, a);
    assert Ensured(Mixed(FILES, db.tables, {"t"}), db.catalog) == db.tables;
    NothingCommitted(a, db.tables);
  }

  lemma AllSurvives(c: Codec, a: Values)
    requires AllEncodable(c, Unfinished(a).log)
    ensures Surviving(c, Unfinished(a).log, |Stream(c, Unfinished(a).log)|, 0) == Unfinished(a).log
  {
    hide Stream, Surviving, Run, Started, CompleteFrames;
    var db := Unfinished(a);
    NoRowsStarted();
    UnfinishedRuns(a);
    var start := RunKeepsCrashInv(FILES, NO_ROWS, [EBegin, EInsert("t", a)]);
    CrashInvShows(FILES, db, start, 0);
    CutAfterFrames(c, db.log, |db.log|);
    assert db.log[..|db.log|] == db.log;
    SurvivingIsPrefix(c, db, 0, |Stream(c, db.log)|, 0);
  }
}

/** What every step of a run keeps between the stored rows and the log: the invariant behind crash recovery. */
module LogInvariant {
  import opened Types
  import opened WalFormat
  import opened Tables
  import opened Index
  import opened Catalog
  import opened TableIndexes
  import opened Scans
  import opened Replaying
  import opened Engine
  import opened Rollback
  import opened Agreement

  // ---- What each step appends.

  ghost function LogOp(db: Db, e: Event): WalOp
    requires !e.IsDdl() && (db.session.txn == None ==> e.EBegin? || e.EAutoBegin?)
  {
    match e
    case EBegin | EAutoBegin => WalOp.Begin(db.nextTxn)
    case EInsert(table, values) =>
      WalOp.Insert(db.session.txn.value, table, TableOf(db.tables, table).nextId, NewRow(values))
    case EUpdate(table, id, values) =>
      var rows := TableOf(db.tables, table).rows;
      WalOp.Update(db.session.txn.value, table, id, Row(values, if id in rows then rows[id].version + 1 else 1))
    case EDelete(table, id) => WalOp.Delete(db.session.txn.value, table, id)
    case ECommit => WalOp.Commit(db.session.txn.value)
    case ERollback => WalOp.Abort(db.session.txn.value)
  }

  lemma {:induction false} UndoAllKeepsRest(db: Db, undo: seq<UndoRecord>)
    requires UndoAll(db, undo).Ok?
    ensures var db' := UndoAll(db, undo).value;
      && db'.catalog == db.catalog && db'.log == db.log && db'.lsn == db.lsn && db'.nextTxn == db.nextTxn
      && db'.session == db.session
    decreases |undo|
  {
    hide UndoStep;
    if undo != [] {
      UndoKeepsRest(db, undo[|undo| - 1]);
      UndoAllKeepsRest(UndoStep(db, undo[|undo| - 1]).value, undo[..|undo| - 1]);
    }
  }

  ghost predicate Appends(db: Db, e: Event, db': Db)
    requires !e.IsDdl() && (db.session.txn == None ==> e.EBegin? || e.EAutoBegin?)
  {
    && db'.log == db.log + [Entry(db.lsn + 1, LogOp(db, e))]
    && db'.lsn == db.lsn + 1
    && db'.catalog == db.catalog
    && db'.nextTxn == db.nextTxn + (if e.EBegin? || e.EAutoBegin? then 1 else 0)
    && db'.session.txn == (if e.EBegin? || e.EAutoBegin? then Some(db.nextTxn)
                           else if e.IsRowStep() then db.session.txn else None)
  }

  lemma StepAppends(db: Db, e: Event)
    requires Step(db, e).Ok? && !e.IsDdl()
    ensures db.session.txn == None <==> e.EBegin? || e.EAutoBegin?
    ensures Appends(db, e, Step(db, e).value)
  {
    hide AddRow, DropRow, ColNames, SetIndexes, UndoAll;
    if e.ERollback? {
      UndoAllKeepsRest(Logged(db, WalOp.Abort(db.session.txn.value)).(session := IDLE), db.session.undo);
    }
  }

  lemma DdlKeepsLog(db: Db, e: Event)
    requires Step(db, e).Ok? && e.IsDdl()
    ensures var db' := Step(db, e).value;
      && db'.log == db.log && db'.lsn == db.lsn && db'.nextTxn == db.nextTxn && db'.session == db.session
      && db.catalog.Keys <= db'.catalog.Keys
  {
    hide Build, PrimaryIndex, ColNames, Scan;
  }

  // ---- The shape of the log.

  ghost predicate EntryOk(e: Entry, i: nat, lsn0: nat, nextTxn: TxnId, txn: Option<TxnId>, tables: set<string>) {
    && e.lsn == lsn0 + i + 1
    && e.op.txn < nextTxn
    && (txn.Some? ==> e.op != WalOp.Commit(txn.value))
    && (e.op.IsDataOp() ==> e.op.table in tables && e.op.rowId >= 1)
  }

  ghost predicate LogOk(lsn0: nat, db: Db) {
    && db.lsn == lsn0 + |db.log|
    && (db.session.txn.Some? ==> db.session.txn.value < db.nextTxn)
    && forall i :: 0 <= i < |db.log| ==>
         EntryOk(db.log[i], i, lsn0, db.nextTxn, db.session.txn, db.catalog.Keys)
  }

  lemma LogStaysOk(db: Db, e: Event, lsn0: nat)
    requires Inv(db) && Step(db, e).Ok? && LogOk(lsn0, db)
    ensures LogOk(lsn0, Step(db, e).value)
  {
    hide Step, Inv, Appends;
    if e.IsDdl() {
      DdlKeepsLog(db, e);
    } else {
      StepAppends(db, e);
      LogGrows(db, e, lsn0, Step(db, e).value);
    }
  }

  lemma LogGrows(db: Db, e: Event, lsn0: nat, db': Db)
    requires Inv(db) && Step(db, e).Ok? && LogOk(lsn0, db) && !e.IsDdl()
    requires db.session.txn == None <==> e.EBegin? || e.EAutoBegin?
    requires Appends(db, e, db')
    ensures LogOk(lsn0, db')
  {
    hide Inv, Step, LogOp;
    LogOpTxn(db, e);
    if e.IsRowStep() {
      KnownTable(db, e);
    }
    forall i | 0 <= i < |db.log|
      ensures EntryOk(db'.log[i], i, lsn0, db'.nextTxn, db'.session.txn, db'.catalog.Keys)
    {
      assert EntryOk(db.log[i], i, lsn0, db.nextTxn, db.session.txn, db.catalog.Keys);
    }
  }

  lemma LogOpTxn(db: Db, e: Event)
    requires !e.IsDdl() && (db.session.txn == None <==> e.EBegin? || e.EAutoBegin?)
    ensures LogOp(db, e).txn == if db.session.txn.Some? then db.session.txn.value else db.nextTxn
    ensures LogOp(db, e).IsDataOp() <==> e.IsRowStep()
    ensures LogOp(db, e).Commit? <==> e.ECommit?
    ensures e.IsRowStep() ==> LogOp(db, e).table == e.table
    ensures e.IsRowStep() && !e.EInsert? ==> LogOp(db, e).rowId == e.rowId
    ensures e.EInsert? ==> LogOp(db, e).rowId == TableOf(db.tables, e.table).nextId
  {
  }

  lemma KnownTable(db: Db, e: Event)
    requires Inv(db) && Step(db, e).Ok? && e.IsRowStep() && db.session.txn.Some?
    ensures e.table in db.catalog && LogOp(db, e).rowId >= 1
  {
    hide AddRow, DropRow, ColNames, SetIndexes, TableOk;
    assert e.table in db.catalog;
    InvBounded(db, e.table);
  }

  // ---- What a log shows, record by record.

  function StoredIn(vm: RowMap, table: string, id: RowId): Option<Values> {
    if table in vm && id in vm[table] then Some(vm[table][id]) else None
  }

  /** What the committed records of a log make of the row a disk holds. */
  function Shown(disk: TableMap, log: seq<Entry>, table: string, id: RowId): Option<Values> {
    Effects(Ops(CommittedData(log)), table, id, Stored(disk, table, id))
  }

  ghost predicate Shows(disk: TableMap, log: seq<Entry>, vm: RowMap) {
    forall table, id :: Shown(disk, log, table, id) == StoredIn(vm, table, id)
  }

  /** The same after the running transaction's records `section` took effect too. */
  ghost predicate ShowsWith(disk: TableMap, log: seq<Entry>, section: seq<Entry>, vm: RowMap) {
    forall table, id ::
      Effects(Ops(DataOf(section)), table, id, Shown(disk, log, table, id)) == StoredIn(vm, table, id)
  }

  lemma StoredInValues(tables: TableMap, table: string, id: RowId)
    ensures StoredIn(ValuesOf(tables), table, id) == Stored(tables, table, id)
  {
  }

  lemma OpsConcat(a: seq<Entry>, b: seq<Entry>)
    ensures Ops(a + b) == Ops(a) + Ops(b)
  {
  }

  lemma {:induction false} EffectsConcat(a: seq<WalOp>, b: seq<WalOp>, table: string, id: RowId, v: Option<Values>)
    ensures Effects(a + b, table, id, v) == Effects(b, table, id, Effects(a, table, id, v))
    decreases |b|
  {
    if b == [] {
      assert a + b == a;
    } else {
      EffectsConcat(a, b[..|b| - 1], table, id, v);
      assert (a + b)[..|a + b| - 1] == a + b[..|b| - 1];
    }
  }

  /** The log splits where the running transaction began; nothing after that is committed. */
  ghost predicate SectionOk(log: seq<Entry>, start: nat, txn: TxnId) {
    && start <= |log|
    && (forall i :: 0 <= i < start ==> log[i].op.txn != txn)
    && (forall i :: start <= i < |log| ==>
          log[i].op.txn == txn && !log[i].op.Commit? && !log[i].op.Abort?)
    && CommittedData(log[..start]) == CommittedData(log)
  }

  ghost predicate CrashInv(disk: TableMap, db: Db, start: nat, lsn0: nat) {
    && AgreementInv(db)
    && LogOk(lsn0, db)
    && (db.session.txn == None ==> Shows(disk, db.log, ValuesOf(db.tables)))
    && (db.session.txn.Some? ==>
          && SectionOk(db.log, start, db.session.txn.value)
          && ShowsWith(disk, db.log, db.log[start..], ValuesOf(db.tables)))
    && (db.session.txn.Some? && !db.session.autoCommit ==>
          Shows(disk, db.log, UndoValues(ValuesOf(db.tables), db.session.undo)))
  }

  // ---- Each step.

  lemma {:induction false} NoCommit(log: seq<Entry>, txn: TxnId)
    requires forall i :: 0 <= i < |log| ==> log[i].op != WalOp.Commit(txn)
    ensures !Committed(log, txn)
  {
    if log != [] {
      NoCommit(log[..|log| - 1], txn);
    }
  }

  /** Only a COMMIT changes which data records are committed. */
  lemma OnlyCommitAdds(db: Db, e: Event, lsn0: nat)
    requires LogOk(lsn0, db) && Step(db, e).Ok? && !e.ECommit?
    ensures CommittedData(Step(db, e).value.log) == CommittedData(db.log)
  {
    hide Step, CommittedData, LogOp;
    if e.IsDdl() {
      DdlKeepsLog(db, e);
    } else {
      StepAppends(db, e);
      LogOpTxn(db, e);
      var op := LogOp(db, e);
      forall i | 0 <= i < |db.log| ensures db.log[i].op != WalOp.Commit(op.txn) {
        assert EntryOk(db.log[i], i, lsn0, db.nextTxn, db.session.txn, db.catalog.Keys);
      }
      NoCommit(db.log, op.txn);
      NonCommitAddsNothing(db.log, Entry(db.lsn + 1, op));
    }
  }

  lemma ShowsFrom(disk: TableMap, a: seq<Entry>, b: seq<Entry>, vm: RowMap)
    requires Shows(disk, a, vm) && CommittedData(a) == CommittedData(b)
    ensures Shows(disk, b, vm)
  {
    forall table, id ensures Shown(disk, b, table, id) == StoredIn(vm, table, id) {
      assert Shown(disk, a, table, id) == StoredIn(vm, table, id);
    }
  }

  lemma BeginKeepsCrashInv(disk: TableMap, db: Db, e: Event, lsn0: nat, start: nat)
    requires CrashInv(disk, db, start, lsn0) && Step(db, e).Ok? && (e.EBegin? || e.EAutoBegin?)
    ensures CrashInv(disk, Step(db, e).value, |db.log|, lsn0)
  {
    hide CommittedData, Shows, ShowsWith, AgreementInv, ValuesOf, LogOk;
    var db' := Step(db, e).value;
    assert db'.tables == db.tables && db'.session.undo == [];
    StepKeepsAgreement(db, e);
    assert Inv(db) by { AgreementHasInv(db); }
    LogStaysOk(db, e, lsn0);
    StepAppends(db, e);
    OnlyCommitAdds(db, e, lsn0);
    ShowsFrom(disk, db.log, db'.log, ValuesOf(db.tables));
    OlderTxns(db, lsn0);
    assert db'.log[..|db.log|] == db.log;
    assert db'.log[|db.log|..] == [Entry(db.lsn + 1, WalOp.Begin(db.nextTxn))];
    BeginShows(disk, db'.log, Entry(db.lsn + 1, WalOp.Begin(db.nextTxn)), ValuesOf(db.tables));
  }

  lemma AgreementHasInv(db: Db)
    requires AgreementInv(db)
    ensures Inv(db)
    ensures db.session.txn == None || db.session.autoCommit ==> db.session.undo == []
    ensures AllPresent(ValuesOf(db.tables), db.session.undo)
  {
  }

  lemma OlderTxns(db: Db, lsn0: nat)
    requires LogOk(lsn0, db)
    ensures forall i :: 0 <= i < |db.log| ==> db.log[i].op.txn < db.nextTxn
  {
    forall i | 0 <= i < |db.log| ensures db.log[i].op.txn < db.nextTxn {
      assert EntryOk(db.log[i], i, lsn0, db.nextTxn, db.session.txn, db.catalog.Keys);
    }
  }

  // A Begin record alone has no effect.
  lemma BeginShows(disk: TableMap, log: seq<Entry>, e: Entry, vm: RowMap)
    requires Shows(disk, log, vm) && e.op.Begin?
    ensures ShowsWith(disk, log, [e], vm)
  {
    assert DataOf([e]) == [];
    forall table, id
      ensures Effects(Ops(DataOf([e])), table, id, Shown(disk, log, table, id)) == StoredIn(vm, table, id)
    {
      assert Shown(disk, log, table, id) == StoredIn(vm, table, id);
    }
  }

  /** A row step does to the stored values what its record does. */
  lemma RowStepEffect(db: Db, e: Event, table: string, id: RowId)
    requires Inv(db) && e.IsRowStep() && Step(db, e).Ok? && db.session.txn.Some?
    ensures Stored(Step(db, e).value.tables, table, id) == Effect(LogOp(db, e), table, id, Stored(db.tables, table, id))
  {
    hide AddRow, DropRow, ColNames, SetIndexes, TableOk;
    assert e.table in db.catalog && e.table in db.tables;
  }

  lemma RowStepShows(disk: TableMap, db: Db, e: Event, log': seq<Entry>, section: seq<Entry>)
    requires Inv(db) && e.IsRowStep() && Step(db, e).Ok? && db.session.txn.Some?
    requires ShowsWith(disk, db.log, section, ValuesOf(db.tables)) && CommittedData(log') == CommittedData(db.log)
    ensures ShowsWith(disk, log', section + [Entry(db.lsn + 1, LogOp(db, e))], ValuesOf(Step(db, e).value.tables))
  {
    hide Step, Inv, CommittedData, ValuesOf, Effect, LogOp, Stored, StoredIn;
    var op, entry := LogOp(db, e), Entry(db.lsn + 1, LogOp(db, e));
    LogOpTxn(db, e);
    DataOfSnoc(section, entry);
    OpsConcat(DataOf(section), [entry]);
    forall table, id
      ensures Effects(Ops(DataOf(section + [entry])), table, id, Shown(disk, log', table, id))
        == StoredIn(ValuesOf(Step(db, e).value.tables), table, id)
    {
      var v := Shown(disk, db.log, table, id);
      EffectsSnoc(Ops(DataOf(section)), op, table, id, v);
      assert Ops([entry]) == [op];
      RowStepEffect(db, e, table, id);
      StoredInValues(db.tables, table, id);
      StoredInValues(Step(db, e).value.tables, table, id);
    }
  }

  lemma DataOfSnoc(section: seq<Entry>, entry: Entry)
    ensures DataOf(section + [entry]) == DataOf(section) + if entry.op.IsDataOp() then [entry] else []
  {
    assert (section + [entry])[..|section|] == section;
  }

  lemma EffectsSnoc(ops: seq<WalOp>, op: WalOp, table: string, id: RowId, v: Option<Values>)
    ensures Effects(ops + [op], table, id, v) == Effect(op, table, id, Effects(ops, table, id, v))
  {
    assert (ops + [op])[..|ops|] == ops;
  }

  lemma RowStepKeepsCrashInv(disk: TableMap, db: Db, e: Event, lsn0: nat, start: nat)
    requires CrashInv(disk, db, start, lsn0) && Step(db, e).Ok? && e.IsRowStep()
    ensures CrashInv(disk, Step(db, e).value, start, lsn0)
  {
    hide CommittedData, Shows, ShowsWith, AgreementInv, ValuesOf, LogOk, Step, LogOp;
    var db' := Step(db, e).value;
    StepKeepsAgreement(db, e);
    AgreementHasInv(db);
    LogStaysOk(db, e, lsn0);
    StepAppends(db, e);
    LogOpTxn(db, e);
    OnlyCommitAdds(db, e, lsn0);
    assert db'.log[start..] == db.log[start..] + [Entry(db.lsn + 1, LogOp(db, e))];
    RowStepShows(disk, db, e, db'.log, db.log[start..]);
    assert db'.log[..start] == db.log[..start];
    RowStepAutoCommit(db, e);
    if !db.session.autoCommit {
      RowStepUndoValues(db, e);
      ShowsFrom(disk, db.log, db'.log, UndoValues(ValuesOf(db.tables), db.session.undo));
    }
  }

  lemma RowStepAutoCommit(db: Db, e: Event)
    requires Step(db, e).Ok? && e.IsRowStep()
    ensures Step(db, e).value.session.autoCommit == db.session.autoCommit
  {
    hide AddRow, DropRow, ColNames, SetIndexes;
  }

  lemma RowStepUndoValues(db: Db, e: Event)
    requires Inv(db) && Step(db, e).Ok? && e.IsRowStep() && !db.session.autoCommit
    ensures var db' := Step(db, e).value;
      UndoValues(ValuesOf(db'.tables), db'.session.undo) == UndoValues(ValuesOf(db.tables), db.session.undo)
  {
    hide Step, Inv, ValuesOf, UndoOf;
    RowStepUndone(db, e);
    var undo := Step(db, e).value.session.undo;
    assert undo[..|undo| - 1] == db.session.undo;
  }

  lemma CommitKeepsCrashInv(disk: TableMap, db: Db, e: Event, lsn0: nat, start: nat)
    requires CrashInv(disk, db, start, lsn0) && Step(db, e).Ok? && e.ECommit?
    ensures CrashInv(disk, Step(db, e).value, start, lsn0)
  {
    hide CommittedData, Shows, ShowsWith, AgreementInv, ValuesOf, LogOk;
    var db' := Step(db, e).value;
    assert db'.tables == db.tables && db'.session.txn == None;
    StepKeepsAgreement(db, e);
    AgreementHasInv(db);
    LogStaysOk(db, e, lsn0);
    StepAppends(db, e);
    CommitShows(disk, db.log, start, Entry(db.lsn + 1, LogOp(db, e)), ValuesOf(db.tables));
  }

  lemma CommitShows(disk: TableMap, log: seq<Entry>, start: nat, e: Entry, vm: RowMap)
    requires e.op.Commit? && SectionOk(log, start, e.op.txn) && ShowsWith(disk, log, log[start..], vm)
    ensures Shows(disk, log + [e], vm)
  {
    hide CommittedData, DataOf, Stored, Effects;
    var section := log[start..];
    assert log == log[..start] + section;
    CommitAddsTransaction(log[..start], section, e);
    OpsConcat(CommittedData(log), DataOf(section));
    forall table, id ensures Shown(disk, log + [e], table, id) == StoredIn(vm, table, id) {
      EffectsConcat(Ops(CommittedData(log)), Ops(DataOf(section)), table, id, Stored(disk, table, id));
      assert Effects(Ops(DataOf(section)), table, id, Shown(disk, log, table, id)) == StoredIn(vm, table, id);
    }
  }

  lemma RollbackKeepsCrashInv(disk: TableMap, db: Db, e: Event, lsn0: nat, start: nat)
    requires CrashInv(disk, db, start, lsn0) && Step(db, e).Ok? && e.ERollback?
    ensures CrashInv(disk, Step(db, e).value, start, lsn0)
  {
    hide CommittedData, Shows, ShowsWith, AgreementInv, ValuesOf, LogOk, UndoAll;
    var db' := Step(db, e).value;
    StepKeepsAgreement(db, e);
    AgreementHasInv(db);
    LogStaysOk(db, e, lsn0);
    StepAppends(db, e);
    OnlyCommitAdds(db, e, lsn0);
    RolledBackValues(db);
    ShowsFrom(disk, db.log, db'.log, ValuesOf(db'.tables));
  }

  lemma RolledBackValues(db: Db)
    requires AgreementInv(db) && RollbackTxn(db).Ok?
    ensures ValuesOf(RollbackTxn(db).value.tables) == UndoValues(ValuesOf(db.tables), db.session.undo)
  {
    hide Inv, UndoAll, ValuesOf;
    var start := Logged(db, WalOp.Abort(db.session.txn.value)).(session := IDLE);
    SameData(db, start);
    UndoAllExact(start, db.session.undo);
  }

  lemma DdlKeepsCrashInv(disk: TableMap, db: Db, e: Event, lsn0: nat, start: nat)
    requires CrashInv(disk, db, start, lsn0) && Step(db, e).Ok? && e.IsDdl()
    ensures CrashInv(disk, Step(db, e).value, start, lsn0)
  {
    hide CommittedData, Shows, ShowsWith, AgreementInv, ValuesOf, LogOk, Step;
    var db' := Step(db, e).value;
    StepKeepsAgreement(db, e);
    AgreementHasInv(db);
    LogStaysOk(db, e, lsn0);
    DdlKeepsLog(db, e);
    DdlKeepsValues(db, e);
    if db.session.txn == None {
      SameShows(disk, db.log, ValuesOf(db.tables), ValuesOf(db'.tables));
    } else {
      SameShowsWith(disk, db.log, db.log[start..], ValuesOf(db.tables), ValuesOf(db'.tables));
      if !db.session.autoCommit {
        SameShows(disk, db.log, UndoValues(ValuesOf(db.tables), db.session.undo),
                  UndoValues(ValuesOf(db'.tables), db.session.undo));
      }
    }
  }

  ghost predicate SameStored(a: RowMap, b: RowMap) {
    forall table, id :: StoredIn(a, table, id) == StoredIn(b, table, id)
  }

  lemma SameShows(disk: TableMap, log: seq<Entry>, a: RowMap, b: RowMap)
    requires Shows(disk, log, a) && SameStored(a, b)
    ensures Shows(disk, log, b)
  {
    hide Shown, StoredIn;
  }

  lemma SameShowsWith(disk: TableMap, log: seq<Entry>, section: seq<Entry>, a: RowMap, b: RowMap)
    requires ShowsWith(disk, log, section, a) && SameStored(a, b)
    ensures ShowsWith(disk, log, section, b)
  {
    hide Shown, StoredIn, Effects, DataOf;
  }

  lemma DdlKeepsValues(db: Db, e: Event)
    requires AgreementInv(db) && Step(db, e).Ok? && e.IsDdl()
    ensures var db' := Step(db, e).value;
      && SameStored(ValuesOf(db.tables), ValuesOf(db'.tables))
      && SameStored(UndoValues(ValuesOf(db.tables), db.session.undo),
                    UndoValues(ValuesOf(db'.tables), db.session.undo))
  {
    hide CreateTable, CreateIndex, Inv, ValuesOf;
    match e {
      case ECreateIndex(table, meta) => CreateIndexKeepsInv(db, table, meta);
      case ECreateTable(table, columns) =>
        CreateTableKeepsInv(db, table, columns);
        TablesInValues(db);
        UndoBesideNewTable(ValuesOf(db.tables), db.session.undo, table);
        NewTableStored(ValuesOf(db.tables), table);
        NewTableStored(UndoValues(ValuesOf(db.tables), db.session.undo), table);
    }
  }

  lemma NewTableStored(vm: RowMap, table: string)
    requires table !in vm
    ensures SameStored(vm, vm[table := map[]])
  {
  }

  lemma {:induction false} UndoBesideNewTable(vm: RowMap, undo: seq<UndoRecord>, table: string)
    requires AllPresent(vm, undo) && table !in vm
    ensures table !in UndoValues(vm, undo)
    ensures UndoValues(vm[table := map[]], undo) == UndoValues(vm, undo)[table := map[]]
    decreases |undo|
  {
    if undo != [] {
      var rec := undo[|undo| - 1];
      UndoBesideNewTable(UndoValue(vm, rec), undo[..|undo| - 1], table);
      assert UndoValue(vm[table := map[]], rec) == UndoValue(vm, rec)[table := map[]];
    }
  }
}

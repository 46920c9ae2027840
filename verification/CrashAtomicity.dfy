/** Crash atomicity: what any prefix of the log's bytes brings back. */
module CrashAtomicity {
  import opened Types
  import opened WalFormat
  import opened Tables
  import opened Catalog
  import opened Sorting
  import opened Replaying
  import opened Engine
  import opened Agreement
  import opened Wal
  import opened LogInvariant

  // ---- Reopening.

  /** The table files as loaded, with an empty table for every catalog entry that has no file. */
  function Ensured(disk: TableMap, catalog: SchemaMap): TableMap {
    map t | t in disk.Keys + catalog.Keys :: TableOf(disk, t)
  }

  // ---- Which commits survive.

  /** Event `j - 1` is a COMMIT and its record is among the first `n` of the log. */
  predicate DurableCommit(db: Db, es: seq<Event>, j: nat, n: nat) {
    && 0 < j <= |es|
    && es[j - 1] == ECommit
    && Run(db, es[..j]).Ok?
    && |Run(db, es[..j]).value.log| <= n
  }

  /** The length of the run up to its last durable COMMIT; 0 if there is none. */
  function DurablePoint(db: Db, es: seq<Event>, n: nat): (d: nat)
    ensures d <= |es|
  {
    if es == [] then 0
    else if DurableCommit(db, es, |es|, n) then |es|
    else DurablePoint(db, es[..|es| - 1], n)
  }

  lemma DurableInPrefix(db: Db, es: seq<Event>, j: nat, n: nat)
    requires es != [] && j < |es|
    ensures DurableCommit(db, es, j, n) <==> DurableCommit(db, es[..|es| - 1], j, n)
  {
    hide Run;
    assert es[..|es| - 1][..j] == es[..j];
  }

  lemma {:induction false} DurablePointIsLast(db: Db, es: seq<Event>, n: nat)
    ensures DurablePoint(db, es, n) > 0 ==> DurableCommit(db, es, DurablePoint(db, es, n), n)
    ensures forall j: nat :: DurableCommit(db, es, j, n) ==> j <= DurablePoint(db, es, n)
  {
    hide Run, DurableCommit;
    if es != [] && !DurableCommit(db, es, |es|, n) {
      var init := es[..|es| - 1];
      DurablePointIsLast(db, init, n);
      DurableInPrefix(db, es, DurablePoint(db, init, n), n);
      forall j: nat | DurableCommit(db, es, j, n)
        ensures j <= DurablePoint(db, es, n)
      {
        DurableBound(db, es, j, n);
        DurableInPrefix(db, es, j, n);
      }
    } else {
      forall j: nat | DurableCommit(db, es, j, n)
        ensures j <= |es|
      {
        DurableBound(db, es, j, n);
      }
    }
  }

  lemma DurableBound(db: Db, es: seq<Event>, j: nat, n: nat)
    requires DurableCommit(db, es, j, n)
    ensures 0 < j <= |es|
  {
  }

  // ---- Every run.

  /** The engine at rest, with an empty log over the table files `disk`. */
  ghost predicate Started(disk: TableMap, db: Db) {
    && AgreementInv(db)
    && db.session == IDLE && db.log == []
    && db.tables == Ensured(disk, db.catalog)
  }

  /** A database without tables and without table files is a start. */
  lemma FreshStarted()
    ensures Started(map[], FRESH)
  {
    FreshAgrees();
    assert Ensured(map[], FRESH.catalog) == map[];
  }

  lemma StartedCrashInv(disk: TableMap, db: Db)
    requires Started(disk, db)
    ensures CrashInv(disk, db, 0, db.lsn)
  {
    hide AgreementInv;
    forall table, id ensures Shown(disk, [], table, id) == StoredIn(ValuesOf(db.tables), table, id) {
      StoredInValues(db.tables, table, id);
    }
  }

  lemma StepKeepsCrashInv(disk: TableMap, db: Db, e: Event, lsn0: nat, start: nat) returns (start': nat)
    requires CrashInv(disk, db, start, lsn0) && Step(db, e).Ok?
    ensures CrashInv(disk, Step(db, e).value, start', lsn0)
  {
    hide CrashInv, Step;
    start' := start;
    match e {
      case EBegin | EAutoBegin =>
        start' := |db.log|;
        BeginKeepsCrashInv(disk, db, e, lsn0, start);
      case ECommit => CommitKeepsCrashInv(disk, db, e, lsn0, start);
      case ERollback => RollbackKeepsCrashInv(disk, db, e, lsn0, start);
      case ECreateTable(_, _) => DdlKeepsCrashInv(disk, db, e, lsn0, start);
      case ECreateIndex(_, _) => DdlKeepsCrashInv(disk, db, e, lsn0, start);
      case _ => RowStepKeepsCrashInv(disk, db, e, lsn0, start);
    }
  }

  lemma {:induction false} RunKeepsCrashInv(disk: TableMap, db: Db, es: seq<Event>) returns (start: nat)
    requires Started(disk, db) && Run(db, es).Ok?
    ensures CrashInv(disk, Run(db, es).value, start, db.lsn)
    decreases |es|
  {
    hide CrashInv, Step, Started;
    if es == [] {
      StartedCrashInv(disk, db);
      start := 0;
    } else {
      start := RunKeepsCrashInv(disk, db, es[..|es| - 1]);
      start := StepKeepsCrashInv(disk, Run(db, es[..|es| - 1]).value, es[|es| - 1], db.lsn, start);
    }
  }

  function Cut(log: seq<Entry>, n: nat): seq<Entry> {
    if n < |log| then log[..n] else log
  }

  /** The first `n` records of the log show what was stored at the last durable COMMIT. */
  lemma {:induction false} PrefixShows(disk: TableMap, db: Db, es: seq<Event>, n: nat)
    requires Started(disk, db) && Run(db, es).Ok?
    ensures Run(db, es[..DurablePoint(db, es, n)]).Ok?
    ensures Shows(disk, Cut(Run(db, es).value.log, n),
                  ValuesOf(Run(db, es[..DurablePoint(db, es, n)]).value.tables))
    decreases |es|
  {
    hide CrashInv, Step, Shows, ValuesOf, Started, CommittedData;
    var start := RunKeepsCrashInv(disk, db, es);
    assert es[..|es|] == es;
    if es == [] {
      CrashInvShows(disk, db, start, db.lsn);
      StartedLog(disk, db);
    } else if DurableCommit(db, es, |es|, n) {
      CommitEnds(Run(db, es[..|es| - 1]).value, es[|es| - 1]);
      CrashInvShows(disk, Run(db, es).value, start, db.lsn);
    } else {
      var init, e := es[..|es| - 1], es[|es| - 1];
      var mid := Run(db, init).value;
      PrefixShows(disk, db, init, n);
      assert init[..DurablePoint(db, init, n)] == es[..DurablePoint(db, init, n)];
      var before := RunKeepsCrashInv(disk, db, init);
      CutShows(disk, mid, e, before, db.lsn, n, ValuesOf(Run(db, es[..DurablePoint(db, es, n)]).value.tables));
    }
  }

  lemma StartedLog(disk: TableMap, db: Db)
    requires Started(disk, db)
    ensures db.log == [] && db.session.txn == None
  {
  }

  lemma CrashInvShows(disk: TableMap, db: Db, start: nat, lsn0: nat)
    requires CrashInv(disk, db, start, lsn0)
    ensures db.session.txn == None ==> Shows(disk, db.log, ValuesOf(db.tables))
    ensures LogOk(lsn0, db) && AgreementInv(db)
  {
  }

  lemma CommitEnds(db: Db, e: Event)
    requires e.ECommit? && Step(db, e).Ok?
    ensures Step(db, e).value.session.txn == None
  {
  }

  // A step that is not a durable COMMIT leaves the first `n` records showing the same.
  lemma CutShows(disk: TableMap, db: Db, e: Event, start: nat, lsn0: nat, n: nat, vm: RowMap)
    requires CrashInv(disk, db, start, lsn0) && Step(db, e).Ok?
    requires e == ECommit ==> n < |Step(db, e).value.log|
    requires Shows(disk, Cut(db.log, n), vm)
    ensures Shows(disk, Cut(Step(db, e).value.log, n), vm)
  {
    hide CrashInv, Step, Shows, CommittedData, LogOp;
    CrashInvShows(disk, db, start, lsn0);
    var log, log' := db.log, Step(db, e).value.log;
    if e.IsDdl() {
      DdlKeepsLog(db, e);
    } else {
      StepAppends(db, e);
      if n <= |log| {
        assert log'[..n] == Cut(log, n);
      } else {
        OnlyCommitAdds(db, e, lsn0);
        ShowsFrom(disk, log, log', vm);
      }
    }
  }

  // ---- Recovery from a prefix of the records.

  lemma LogIsSorted(db: Db, lsn0: nat, n: nat)
    requires LogOk(lsn0, db) && n <= |db.log|
    ensures StrictlySortedBy(db.log[..n], Lsn)
    ensures forall i :: 0 <= i < n ==> db.log[..n][i].lsn == lsn0 + i + 1
    ensures forall i :: 0 <= i < n && db.log[..n][i].op.IsDataOp() ==>
      db.log[..n][i].op.table in db.catalog && db.log[..n][i].op.rowId >= 1
  {
    forall i | 0 <= i < n
      ensures db.log[..n][i].lsn == lsn0 + i + 1
      ensures db.log[..n][i].op.IsDataOp() ==>
        db.log[..n][i].op.table in db.catalog && db.log[..n][i].op.rowId >= 1
    {
      assert EntryOk(db.log[i], i, lsn0, db.nextTxn, db.session.txn, db.catalog.Keys);
    }
  }

  ghost predicate PositiveIds(ops: seq<WalOp>) {
    forall i :: 0 <= i < |ops| && ops[i].IsDataOp() ==> ops[i].rowId >= 1
  }

  ghost predicate AllBounded(tables: TableMap) {
    forall t :: t in tables ==> IdsBounded(tables[t])
  }

  lemma {:induction false} ReplayKeepsBounds(tables: TableMap, ops: seq<WalOp>)
    requires AllBounded(tables) && PositiveIds(ops) && ApplyAll(tables, ops).Ok?
    ensures AllBounded(ApplyAll(tables, ops).value)
  {
    if ops != [] {
      var init := ops[..|ops| - 1];
      ReplayKeepsBounds(tables, init);
      ReplayOpKeepsBounds(ApplyAll(tables, init).value, ops[|ops| - 1]);
    }
  }

  lemma ReplayOpKeepsBounds(tables: TableMap, op: WalOp)
    requires AllBounded(tables) && ApplyOp(tables, op).Ok? && (op.IsDataOp() ==> op.rowId >= 1)
    ensures AllBounded(ApplyOp(tables, op).value)
  {
  }

  lemma CommittedOps(entries: seq<Entry>, tables: set<string>)
    requires forall i :: 0 <= i < |entries| && entries[i].op.IsDataOp() ==>
      entries[i].op.table in tables && entries[i].op.rowId >= 1
    ensures var ops := Ops(CommittedData(entries));
      PositiveIds(ops) && forall i :: 0 <= i < |ops| ==> ops[i].IsDataOp() ==> ops[i].table in tables
  {
    hide Selected;
    SelectedElements(entries, entries);
    var s := CommittedData(entries);
    forall i | 0 <= i < |s|
      ensures s[i].op.rowId >= 1 && s[i].op.table in tables
    {
      assert s[i] in s;
    }
  }

  /** Replaying the surviving records succeeds and stores exactly what they show. */
  lemma RecoveredValues(disk: TableMap, catalog: SchemaMap, log: seq<Entry>, vm: RowMap)
    requires StrictlySortedBy(log, Lsn) && Shows(disk, log, vm)
    requires forall i :: 0 <= i < |log| && log[i].op.IsDataOp() ==>
      log[i].op.table in catalog && log[i].op.rowId >= 1
    ensures Recovered(Ensured(disk, catalog), log).Ok?
    ensures var tables := Recovered(Ensured(disk, catalog), log).value;
      && SameStored(ValuesOf(tables), vm)
      && tables.Keys == disk.Keys + catalog.Keys
      && (AllBounded(Ensured(disk, catalog)) ==> AllBounded(tables))
  {
    hide CommittedData, Shows, ValuesOf, Ops, Effects, StoredIn, Stored;
    var base, ops := Ensured(disk, catalog), Ops(CommittedData(log));
    SortedLogOrder(log);
    CommittedOps(log, catalog.Keys);
    ApplyAllOk(base, ops);
    var tables := ApplyAll(base, ops).value;
    forall table, id ensures StoredIn(ValuesOf(tables), table, id) == StoredIn(vm, table, id) {
      ApplyAllEffects(base, ops, table, id);
      EnsuredStored(disk, catalog, table, id);
      StoredInValues(tables, table, id);
      ShowsAt(disk, log, vm, table, id);
    }
    if AllBounded(base) {
      ReplayKeepsBounds(base, ops);
    }
  }

  lemma EnsuredStored(disk: TableMap, catalog: SchemaMap, table: string, id: RowId)
    ensures Stored(Ensured(disk, catalog), table, id) == Stored(disk, table, id)
  {
  }

  lemma ShowsAt(disk: TableMap, log: seq<Entry>, vm: RowMap, table: string, id: RowId)
    requires Shows(disk, log, vm)
    ensures Effects(Ops(CommittedData(log)), table, id, Stored(disk, table, id)) == StoredIn(vm, table, id)
  {
    assert Shown(disk, log, table, id) == StoredIn(vm, table, id);
  }

  // ---- The theorem.

  /** The records a reader gets from the first `k` bytes of the run's log. */
  function Surviving(c: Codec, log: seq<Entry>, k: nat, from: nat): seq<Entry>
    requires k <= |Stream(c, log)|
  {
    Replay(c, Stream(c, log)[..k], from)
  }

  lemma SurvivingIsPrefix(c: Codec, db: Db, lsn0: nat, k: nat, from: nat)
    requires AllEncodable(c, db.log) && k <= |Stream(c, db.log)|
    requires LogOk(lsn0, db) && from <= lsn0
    ensures Surviving(c, db.log, k, from) == db.log[..CompleteFrames(c, db.log, k)]
  {
    hide Stream, Replay, CompleteFrames, Above;
    var n := CompleteFrames(c, db.log, k);
    TornTail(c, db.log, k, from);
    LogIsSorted(db, lsn0, n);
    AboveConsecutive(db.log[..n], lsn0, from);
  }

  ghost predicate RecoveredTo(recovered: Result<TableMap, Error>, known: set<string>, tables: TableMap) {
    && recovered.Ok?
    && SameStored(ValuesOf(recovered.value), ValuesOf(tables))
    && recovered.value.Keys == known
  }

  // The same with what a rebuild of the indexes needs to know.
  lemma RecoveredState(c: Codec, disk: TableMap, db: Db, es: seq<Event>, k: nat, from: nat)
    requires Started(disk, db) && Run(db, es).Ok? && from <= db.lsn
    requires AllEncodable(c, Run(db, es).value.log)
    requires k <= |Stream(c, Run(db, es).value.log)|
    ensures var db' := Run(db, es).value;
      var d := DurablePoint(db, es, CompleteFrames(c, db'.log, k));
      && Run(db, es[..d]).Ok?
      && var recovered := Recovered(Ensured(disk, db'.catalog), Surviving(c, db'.log, k, from));
         && RecoveredTo(recovered, disk.Keys + db'.catalog.Keys, Run(db, es[..d]).value.tables)
         && (AllBounded(Ensured(disk, db'.catalog)) ==> AllBounded(recovered.value))
  {
    hide Stream, CompleteFrames, Surviving, Shows, Run, Started, ValuesOf, Recovered, SameStored, AllBounded;
    var db' := Run(db, es).value;
    var n := CompleteFrames(c, db'.log, k);
    var log, d := db'.log[..n], DurablePoint(db, es, n);
    var start := RunKeepsCrashInv(disk, db, es);
    CrashInvShows(disk, db', start, db.lsn);
    SurvivingIsPrefix(c, db', db.lsn, k, from);
    PrefixShows(disk, db, es, n);
    assert Cut(db'.log, n) == log;
    LogIsSorted(db', db.lsn, n);
    RecoveredValues(disk, db'.catalog, log, ValuesOf(Run(db, es[..d]).value.tables));
  }

  /**
   Crash atomicity and durability: for every serial run and every prefix of the log's bytes,
   replaying what survives over the table files succeeds, and stores exactly the row values that
   were stored when the last COMMIT whose record lies whole in the prefix was done.
   */
  lemma CrashAtomic(c: Codec, disk: TableMap, db: Db, es: seq<Event>, k: nat, from: nat)
    requires Started(disk, db) && Run(db, es).Ok? && from <= db.lsn
    requires AllEncodable(c, Run(db, es).value.log)
    requires k <= |Stream(c, Run(db, es).value.log)|
    ensures var db' := Run(db, es).value;
      var d := DurablePoint(db, es, CompleteFrames(c, db'.log, k));
      && Run(db, es[..d]).Ok?
      && var recovered := Recovered(Ensured(disk, db'.catalog), Surviving(c, db'.log, k, from));
         recovered.Ok? && SameValues(recovered.value, Run(db, es[..d]).value.tables)
  {
    hide Stream, CompleteFrames, Surviving, Run, Started, Recovered, SameValues;
    RecoveredState(c, disk, db, es, k, from);
    var db' := Run(db, es).value;
    var d := DurablePoint(db, es, CompleteFrames(c, db'.log, k));
    SameStoredValues(Recovered(Ensured(disk, db'.catalog), Surviving(c, db'.log, k, from)).value,
                     Run(db, es[..d]).value.tables);
  }

  lemma SameStoredValues(a: TableMap, b: TableMap)
    requires SameStored(ValuesOf(a), ValuesOf(b))
    ensures SameValues(a, b)
  {
    hide ValuesOf, Stored, StoredIn;
    forall table, id ensures Stored(a, table, id) == Stored(b, table, id) {
      StoredInValues(a, table, id);
      StoredInValues(b, table, id);
      assert StoredIn(ValuesOf(a), table, id) == StoredIn(ValuesOf(b), table, id);
    }
  }

  /** From an empty database: what the log alone brings back. */
  lemma CrashAtomicFromEmpty(c: Codec, es: seq<Event>, k: nat)
    requires Run(FRESH, es).Ok?
    requires AllEncodable(c, Run(FRESH, es).value.log)
    requires k <= |Stream(c, Run(FRESH, es).value.log)|
    ensures var db := Run(FRESH, es).value;
      var d := DurablePoint(FRESH, es, CompleteFrames(c, db.log, k));
      && Run(FRESH, es[..d]).Ok?
      && var recovered := Recovered(Ensured(map[], db.catalog), Replay(c, Stream(c, db.log)[..k], 0));
         recovered.Ok? && SameValues(recovered.value, Run(FRESH, es[..d]).value.tables)
  {
    hide Stream, Replay, CompleteFrames, Run, Started, Recovered, SameValues;
    FreshStarted();
    CrashAtomic(c, map[], FRESH, es, k, 0);
  }
}

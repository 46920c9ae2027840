/**
 A crash inside a checkpoint that also takes the end of the log.  The checkpoint writes the table
 files first and syncs the log afterwards, so the files can be ahead of the surviving records.
 */
module InterruptedCheckpoint {
  import opened Types
  import opened WalFormat
  import opened Tables
  import opened Replaying
  import opened Engine
  import opened LogInvariant
  import opened CrashAtomicity
  import opened Reopening

  /** Recovery from `k` surviving log bytes over table files of which `persisted` were just written. */
  ghost function AfterInterruption(c: Codec, disk: TableMap, db: Db, persisted: set<string>, k: nat, from: nat):
    Result<TableMap, Error>
    requires k <= |Stream(c, db.log)|
  {
    Recovered(Ensured(Mixed(disk, db.tables, persisted), db.catalog), Surviving(c, db.log, k, from))
  }

  ghost predicate Stores(r: Result<TableMap, Error>, ts: TableMap) {
    r.Ok? && SameValues(r.value, ts)
  }

  /** Every mixture of table files recovers one of two states. */
  ghost predicate Atomic(c: Codec, disk: TableMap, db: Db, durable: TableMap, target: TableMap, k: nat, from: nat)
    requires k <= |Stream(c, db.log)|
  {
    forall persisted ::
      var r := AfterInterruption(c, disk, db, persisted, k, from);
      Stores(r, durable) || Stores(r, target)
  }

  ghost predicate DifferOnlyIn(a: TableMap, b: TableMap, t: string) {
    forall table, id :: table != t ==> Stored(a, table, id) == Stored(b, table, id)
  }

  /** What the run's last COMMIT stored, whether its record survives or not. */
  ghost function LastCommit(db: Db, es: seq<Event>): Result<Db, Error>
    requires Run(db, es).Ok?
  {
    Run(db, es[..DurablePoint(db, es, |Run(db, es).value.log|)])
  }

  /**
   When the crash also takes the end of the log, or the checkpoint came inside a transaction.
   Every mixture of old and new table files recovers the last durable COMMIT or the last COMMIT,
   exactly if replaying the surviving records over memory gives the durable state, or gives the
   last committed one and the two states differ in at most one table.
   */
  lemma LostTailExact(c: Codec, disk: TableMap, db: Db, es: seq<Event>, k: nat, from: nat)
    requires Started(disk, db) && Run(db, es).Ok? && from <= db.lsn
    requires AllEncodable(c, Run(db, es).value.log)
    requires k <= |Stream(c, Run(db, es).value.log)|
    ensures var db' := Run(db, es).value;
      var d := DurablePoint(db, es, CompleteFrames(c, db'.log, k));
      && Run(db, es[..d]).Ok?
      && LastCommit(db, es).Ok?
      && var durable, target := Run(db, es[..d]).value.tables, LastCommit(db, es).value.tables;
         var replayed := Recovered(db'.tables, Surviving(c, db'.log, k, from));
         && replayed.Ok?
         && (Atomic(c, disk, db', durable, target, k, from)
             <==> (Stores(replayed, durable)
                   || (Stores(replayed, target) && exists t :: DifferOnlyIn(durable, target, t))))
  {
    hide Stream, CompleteFrames, Surviving, Run, Started, Recovered, SameValues, Inv, Ensured, TablesKnown, Mixed;
    var db' := Run(db, es).value;
    var d := DurablePoint(db, es, CompleteFrames(c, db'.log, k));
    var entries, base := Surviving(c, db'.log, k, from), Ensured(disk, db'.catalog);
    CrashAtomic(c, disk, db, es, k, from);
    PrefixShows(disk, db, es, |db'.log|);
    SurvivingKnown(c, disk, db, es, k, from);
    var durable := Run(db, es[..d]).value.tables;
    forall persisted
      ensures Blend(AfterInterruption(c, disk, db', persisted, k, from), durable,
                    Recovered(db'.tables, entries), persisted)
    {
      EnsuredMixed(disk, db'.tables, persisted, db'.catalog);
      RecoverMixed(base, db'.tables, durable, persisted, entries);
    }
    hide AfterInterruption;
    AtomicExact(c, disk, db', durable, LastCommit(db, es).value.tables, Recovered(db'.tables, entries), k, from);
  }

  /** `r` stores the values of `replayed` in the tables `persisted` and those of `durable` elsewhere. */
  ghost predicate Blend(r: Result<TableMap, Error>, durable: TableMap, replayed: Result<TableMap, Error>,
                        persisted: set<string>) {
    && r.Ok? && replayed.Ok?
    && forall table, id ::
         Stored(r.value, table, id) == Stored(if table in persisted then replayed.value else durable, table, id)
  }

  lemma RecoverMixed(base: TableMap, memory: TableMap, durable: TableMap, persisted: set<string>, entries: seq<Entry>)
    requires base.Keys <= memory.Keys && TablesKnown(base, Ops(ToApply(entries)))
    requires Stores(Recovered(base, entries), durable)
    ensures Blend(Recovered(Mixed(base, memory, persisted), entries), durable, Recovered(memory, entries), persisted)
  {
    hide ApplyAll, ToApply, Stored, Mixed, TablesKnown;
    MixedReplay(base, memory, persisted, Ops(ToApply(entries)));
  }

  lemma AtomicExact(c: Codec, disk: TableMap, db: Db, durable: TableMap, target: TableMap,
                    replayed: Result<TableMap, Error>, k: nat, from: nat)
    requires k <= |Stream(c, db.log)|
    requires forall persisted :: Blend(AfterInterruption(c, disk, db, persisted, k, from), durable, replayed, persisted)
    ensures replayed.Ok?
    ensures Atomic(c, disk, db, durable, target, k, from)
      <==> (Stores(replayed, durable)
            || (Stores(replayed, target) && exists t :: DifferOnlyIn(durable, target, t)))
  {
    hide AfterInterruption, Stream, Stored;
    assert Blend(AfterInterruption(c, disk, db, {}, k, from), durable, replayed, {});
    if Atomic(c, disk, db, durable, target, k, from) {
      TablesOfBoth(durable, replayed.value, target);
      var all := TablesOf(durable, replayed.value, target);
      var r := AfterInterruption(c, disk, db, all, k, from);
      assert Blend(r, durable, replayed, all);
      assert SameValues(r.value, replayed.value);
      assert Stores(r, durable) || Stores(r, target);
      if !Stores(replayed, durable) {
        assert SameValues(replayed.value, target);
        AtMostOneTable(c, disk, db, durable, target, replayed, k, from);
      }
    }
    if Stores(replayed, durable) || (Stores(replayed, target) && exists t :: DifferOnlyIn(durable, target, t)) {
      forall persisted
        ensures var r := AfterInterruption(c, disk, db, persisted, k, from); Stores(r, durable) || Stores(r, target)
      {
        var r := AfterInterruption(c, disk, db, persisted, k, from);
        assert Blend(r, durable, replayed, persisted);
        if Stores(replayed, durable) {
          assert SameValues(r.value, durable);
        } else {
          var t :| DifferOnlyIn(durable, target, t);
          if t in persisted {
            assert SameValues(r.value, target);
          } else {
            assert SameValues(r.value, durable);
          }
        }
      }
    }
  }

  function TablesOf(a: TableMap, b: TableMap, c: TableMap): set<string> {
    a.Keys + b.Keys + c.Keys
  }

  lemma TablesOfBoth(a: TableMap, b: TableMap, c: TableMap)
    ensures forall table, id :: table !in TablesOf(a, b, c) ==>
      Stored(a, table, id) == Stored(b, table, id) == Stored(c, table, id) == None
  {
  }

  // Two differing tables, of which one was written, give neither state.
  lemma AtMostOneTable(c: Codec, disk: TableMap, db: Db, durable: TableMap, target: TableMap,
                       replayed: Result<TableMap, Error>, k: nat, from: nat)
    requires k <= |Stream(c, db.log)|
    requires forall persisted :: Blend(AfterInterruption(c, disk, db, persisted, k, from), durable, replayed, persisted)
    requires Atomic(c, disk, db, durable, target, k, from) && Stores(replayed, target)
    ensures exists t :: DifferOnlyIn(durable, target, t)
  {
    hide AfterInterruption, Stream, Stored;
    if forall table, id :: Stored(durable, table, id) == Stored(target, table, id) {
      assert DifferOnlyIn(durable, target, "");
    } else {
      var t, i :| Stored(durable, t, i) != Stored(target, t, i);
      var r := AfterInterruption(c, disk, db, {t}, k, from);
      assert Blend(r, durable, replayed, {t});
      assert Stored(r.value, t, i) == Stored(target, t, i);
      assert Stores(r, target);
      assert DifferOnlyIn(durable, target, t);
    }
  }

  lemma SurvivingKnown(c: Codec, disk: TableMap, db: Db, es: seq<Event>, k: nat, from: nat)
    requires Started(disk, db) && Run(db, es).Ok? && from <= db.lsn
    requires AllEncodable(c, Run(db, es).value.log)
    requires k <= |Stream(c, Run(db, es).value.log)|
    ensures var db' := Run(db, es).value;
      var base := Ensured(disk, db'.catalog);
      && TablesKnown(base, Ops(ToApply(Surviving(c, db'.log, k, from))))
      && base.Keys <= db'.tables.Keys
  {
    hide Stream, CompleteFrames, Surviving, Run, Started, CommittedData, Ops, ToApply, Inv;
    var db' := Run(db, es).value;
    var n := CompleteFrames(c, db'.log, k);
    var start := RunKeepsCrashInv(disk, db, es);
    CrashInvShows(disk, db', start, db.lsn);
    AgreementHasInv(db');
    AllTablesKnown(db');
    StartedFiles(disk, db);
    CatalogGrows(db, es);
    SurvivingIsPrefix(c, db', db.lsn, k, from);
    LogIsSorted(db', db.lsn, n);
    SortedLogOrder(db'.log[..n]);
    CommittedOps(db'.log[..n], db'.catalog.Keys);
  }
}

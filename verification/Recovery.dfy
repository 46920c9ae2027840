/** Two-pass replay of the log into the store. */
module Recovery {
  import opened Types
  import opened WalFormat
  import opened Wal
  import opened Tables
  import opened Sorting
  import opened Replaying
  import opened MemoryStorage

  /** What the first pass knows about a transaction. */
  datatype TxnState = TxnState(committed: bool, aborted: bool, dataOps: seq<Entry>)

  const NEW_TXN: TxnState := TxnState(false, false, [])

  function StateOf(txns: map<TxnId, TxnState>, txn: TxnId): TxnState {
    if txn in txns then txns[txn] else NEW_TXN
  }

  /** The data records of one transaction, in file order. */
  function DataOfTxn(entries: seq<Entry>, txn: TxnId): seq<Entry> {
    if entries == [] then []
    else
      var last := entries[|entries| - 1];
      DataOfTxn(entries[..|entries| - 1], txn) + if last.op.IsDataOp() && last.op.txn == txn then [last] else []
  }

  /** Its state after the records `entries`. */
  ghost predicate Describes(s: TxnState, entries: seq<Entry>, txn: TxnId) {
    && (s.committed && !s.aborted <==> Committed(entries, txn))
    && (s.aborted ==> !s.committed)
    && s.dataOps == DataOfTxn(entries, txn)
  }

  function NextState(s: TxnState, e: Entry): TxnState {
    match e.op
    case Begin(_) => s
    case Commit(_) => s.(committed := true, aborted := false)
    case Abort(_) => s.(aborted := true, committed := false)
    case _ => s.(dataOps := s.dataOps + [e])
  }

  lemma NextDescribes(s: TxnState, entries: seq<Entry>, e: Entry, txn: TxnId)
    requires Describes(s, entries, txn)
    ensures Describes(if e.op.txn == txn then NextState(s, e) else s, entries + [e], txn)
  {
    assert (entries + [e])[..|entries|] == entries;
  }

  lemma {:induction false} DataOfTxnElements(entries: seq<Entry>, txn: TxnId)
    ensures forall e :: e in DataOfTxn(entries, txn) <==> e in entries && e.op.IsDataOp() && e.op.txn == txn
    ensures DistinctKeys(entries, Lsn) ==> DistinctKeys(DataOfTxn(entries, txn), Lsn)
  {
    if entries != [] {
      var init, last := entries[..|entries| - 1], entries[|entries| - 1];
      assert entries == init + [last];
      DataOfTxnElements(init, txn);
      if DistinctKeys(entries, Lsn) {
        assert DistinctKeys(init, Lsn);
        var s := DataOfTxn(init, txn);
        forall i | 0 <= i < |s| ensures s[i].lsn != last.lsn {
          assert s[i] in init;
          var k :| 0 <= k < |init| && init[k] == s[i];
          assert Lsn(entries[k]) != Lsn(entries[|entries| - 1]);
        }
        SnocDistinct(s, last);
      }
    }
  }

  /** First pass: groups the records by transaction. */
  method GroupByTxn(entries: seq<Entry>) returns (txns: map<TxnId, TxnState>)
    ensures forall txn :: Describes(StateOf(txns, txn), entries, txn)
  {
    hide Describes;
    txns := map[];
    forall txn ensures Describes(StateOf(txns, txn), [], txn) {
      NothingSeen(txn);
    }
    for i := 0 to |entries|
      invariant forall txn :: Describes(StateOf(txns, txn), entries[..i], txn)
    {
      var e := entries[i];
      ghost var before := txns;
      assert entries[..i + 1] == entries[..i] + [e];
      forall txn
        ensures Describes(if e.op.txn == txn then NextState(StateOf(before, txn), e) else StateOf(before, txn),
                          entries[..i + 1], txn)
      {
        NextDescribes(StateOf(before, txn), entries[..i], e, txn);
      }
      var state := StateOf(txns, e.op.txn);
      match e.op {
        case Begin(_) =>
        case Commit(_) => state := state.(committed := true, aborted := false);
        case Abort(_) => state := state.(aborted := true, committed := false);
        case _ => state := state.(dataOps := state.dataOps + [e]);
      }
      txns := txns[e.op.txn := state];
      forall txn ensures Describes(StateOf(txns, txn), entries[..i + 1], txn) {
        assert StateOf(txns, txn)
            == if e.op.txn == txn then NextState(StateOf(before, txn), e) else StateOf(before, txn);
      }
    }
    assert entries[..|entries|] == entries;
  }

  lemma NothingSeen(txn: TxnId)
    ensures Describes(NEW_TXN, [], txn)
  {
  }

  /** Which records were gathered once the transactions `done` were looked at. */
  ghost predicate Gathered(gathered: seq<Entry>, entries: seq<Entry>, done: set<TxnId>) {
    && DistinctKeys(gathered, Lsn)
    && forall e :: e in gathered <==>
         (e in entries && e.op.IsDataOp() && Committed(entries, e.op.txn) && e.op.txn in done)
  }

  lemma GatherOne(gathered: seq<Entry>, entries: seq<Entry>, done: set<TxnId>, txn: TxnId, s: TxnState)
    requires Gathered(gathered, entries, done) && txn !in done
    requires DistinctKeys(entries, Lsn) && Describes(s, entries, txn)
    ensures Gathered(gathered + if s.committed && !s.aborted then s.dataOps else [], entries, done + {txn})
  {
    DataOfTxnElements(entries, txn);
    if s.committed && !s.aborted {
      forall i, j | 0 <= i < |gathered| && 0 <= j < |s.dataOps|
        ensures gathered[i].lsn != s.dataOps[j].lsn
      {
        assert gathered[i] in gathered && s.dataOps[j] in s.dataOps;
        DistinctLsns(entries, gathered[i], s.dataOps[j]);
      }
    }
  }

  lemma DistinctLsns(entries: seq<Entry>, a: Entry, b: Entry)
    requires DistinctKeys(entries, Lsn) && a in entries && b in entries && a != b
    ensures a.lsn != b.lsn
  {
    var i :| 0 <= i < |entries| && entries[i] == a;
    var j :| 0 <= j < |entries| && entries[j] == b;
    assert Lsn(entries[i]) != Lsn(entries[j]);
  }

  /** Second pass: collects the committed transactions in whatever order the map yields them. */
  method Gather(entries: seq<Entry>, txns: map<TxnId, TxnState>) returns (toApply: seq<Entry>)
    requires DistinctKeys(entries, Lsn)
    requires forall txn :: Describes(StateOf(txns, txn), entries, txn)
    ensures Gathered(toApply, entries, txns.Keys)
  {
    hide Describes, Gathered, Committed;
    toApply := [];
    var left := txns.Keys;
    ghost var done := {};
    NothingGathered(entries);
    while left != {}
      invariant left <= txns.Keys && done == txns.Keys - left
      invariant Gathered(toApply, entries, done)
      decreases |left|
    {
      var txn :| txn in left;
      var state := txns[txn];
      assert state == StateOf(txns, txn);
      GatherOne(toApply, entries, done, txn, state);
      if state.committed && !state.aborted {
        toApply := toApply + state.dataOps;
      } else {
        assert toApply + [] == toApply;
      }
      left := left - {txn};
      done := done + {txn};
      assert done == txns.Keys - left;
    }
    assert done == txns.Keys;
  }

  lemma NothingGathered(entries: seq<Entry>)
    ensures Gathered([], entries, {})
  {
  }

  lemma KnownTxn(entries: seq<Entry>, txns: map<TxnId, TxnState>, e: Entry)
    requires e in entries && e.op.IsDataOp()
    requires Describes(StateOf(txns, e.op.txn), entries, e.op.txn)
    ensures e.op.txn in txns
  {
    DataOfTxnElements(entries, e.op.txn);
    assert e in StateOf(txns, e.op.txn).dataOps;
  }

  lemma AllGathered(gathered: seq<Entry>, entries: seq<Entry>, txns: map<TxnId, TxnState>)
    requires DistinctKeys(entries, Lsn) && Gathered(gathered, entries, txns.Keys)
    requires forall txn :: Describes(StateOf(txns, txn), entries, txn)
    ensures SortByKey(gathered, Lsn) == ToApply(entries)
  {
    SelectedElements(entries, entries);
    forall e ensures e in gathered <==> e in CommittedData(entries) {
      if e in CommittedData(entries) {
        KnownTxn(entries, txns, e);
      }
    }
    GatheringOrderIrrelevant(entries, gathered);
  }

  /**
   Replays the log above the stored checkpoint: the data records of committed transactions, by LSN,
   each exactly once.
   */
  method ReplayWal(storage: StorageEngine) returns (r: Result<nat, Error>)
    requires storage.Valid()
    requires DistinctKeys(Replay(storage.wal.codec, storage.wal.file, storage.wal.checkpointLsn), Lsn)
    modifies storage`tables
    ensures storage.Valid()
    ensures var entries := Replay(storage.wal.codec, storage.wal.file, storage.wal.checkpointLsn);
      if Recovered(old(storage.tables), entries).Ok?
      then r == Ok(|CommittedData(entries)|) && storage.tables == Recovered(old(storage.tables), entries).value
      else r == Err(TableNotFound)
  {
    hide Replay, Describes, Gathered, CommittedData, ToApply, WriteAheadLog.Valid;
    var from := storage.wal.checkpointLsn;
    var entries := storage.wal.ReplaySince(from);
    var txns := GroupByTxn(entries);
    var gathered := Gather(entries, txns);
    AllGathered(gathered, entries, txns);
    var toApply := SortByKey(gathered, Lsn);
    var count := |toApply|;
    SortKeepsSize(entries);
    ghost var before := storage.tables;
    for i := 0 to |toApply|
      invariant storage.Valid()
      invariant ApplyAll(before, Ops(toApply[..i])) == Ok(storage.tables)
    {
      assert Ops(toApply[..i + 1])[..i] == Ops(toApply[..i]);
      assert Ops(toApply)[..i + 1] == Ops(toApply[..i + 1]);
      var applied := storage.ApplyWalOp(toApply[i].op);
      if applied.Err? {
        StaysFailed(before, Ops(toApply), i + 1);
        return Err(applied.error);
      }
    }
    assert toApply[..|toApply|] == toApply;
    r := Ok(count);
  }

  lemma SortKeepsSize(entries: seq<Entry>)
    ensures |ToApply(entries)| == |CommittedData(entries)|
  {
    SortByKeySorts(CommittedData(entries), Lsn);
    assert |multiset(ToApply(entries))| == |ToApply(entries)|;
  }

  // A prefix that fails makes the whole list fail.
  lemma {:induction false} StaysFailed(ts: TableMap, ops: seq<WalOp>, i: nat)
    requires i <= |ops| && ApplyAll(ts, ops[..i]).Err?
    ensures ApplyAll(ts, ops).Err?
    decreases |ops|
  {
    if i == |ops| {
      assert ops[..i] == ops;
    } else {
      assert ops[..|ops| - 1][..i] == ops[..i];
      StaysFailed(ts, ops[..|ops| - 1], i);
    }
  }
}

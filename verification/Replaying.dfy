/** What the two-pass replay selects from a log: the data records of committed transactions, by LSN. */
module Replaying {
  import opened Types
  import opened WalFormat
  import opened Tables
  import opened Sorting

  /** The last Commit or Abort record of a transaction decides. */
  function Committed(entries: seq<Entry>, txn: TxnId): bool {
    if entries == [] then false
    else
      match entries[|entries| - 1].op
      case Commit(t) => t == txn || Committed(entries[..|entries| - 1], txn)
      case Abort(t) => t != txn && Committed(entries[..|entries| - 1], txn)
      case _ => Committed(entries[..|entries| - 1], txn)
  }

  /** The data records of transactions that `all` commits, in the order of `entries`. */
  function Selected(entries: seq<Entry>, all: seq<Entry>): seq<Entry> {
    if entries == [] then []
    else
      var last := entries[|entries| - 1];
      Selected(entries[..|entries| - 1], all)
        + if last.op.IsDataOp() && Committed(all, last.op.txn) then [last] else []
  }

  function CommittedData(entries: seq<Entry>): seq<Entry> {
    Selected(entries, entries)
  }

  function Lsn(e: Entry): nat {
    e.lsn
  }

  /** What the replay applies, in the order it applies it. */
  function ToApply(entries: seq<Entry>): seq<Entry> {
    SortByKey(CommittedData(entries), Lsn)
  }

  function Ops(entries: seq<Entry>): seq<WalOp> {
    seq(|entries|, i requires 0 <= i < |entries| => entries[i].op)
  }

  /** The tables after recovery from `disk`. */
  function Recovered(disk: TableMap, entries: seq<Entry>): Result<TableMap, Error> {
    ApplyAll(disk, Ops(ToApply(entries)))
  }

  // ---- Which entries are selected.

  lemma {:induction false} SelectedElements(entries: seq<Entry>, all: seq<Entry>)
    ensures forall e :: e in Selected(entries, all) <==> e in entries && e.op.IsDataOp() && Committed(all, e.op.txn)
  {
    if entries != [] {
      var init, last := entries[..|entries| - 1], entries[|entries| - 1];
      SelectedElements(init, all);
      assert entries == init + [last];
    }
  }

  lemma {:induction false} SelectedDistinct(entries: seq<Entry>, all: seq<Entry>)
    requires DistinctKeys(entries, Lsn)
    ensures DistinctKeys(Selected(entries, all), Lsn)
  {
    if entries != [] {
      var init, last := entries[..|entries| - 1], entries[|entries| - 1];
      SelectedDistinct(init, all);
      SelectedElements(init, all);
      var s := Selected(init, all);
      forall i | 0 <= i < |s| ensures s[i].lsn != last.lsn {
        assert s[i] in init;
        var k :| 0 <= k < |init| && init[k] == s[i];
        assert Lsn(entries[k]) != Lsn(entries[|entries| - 1]);
      }
      SnocDistinct(s, last);
    }
  }

  lemma SnocDistinct(s: seq<Entry>, last: Entry)
    requires DistinctKeys(s, Lsn) && forall i :: 0 <= i < |s| ==> s[i].lsn != last.lsn
    ensures DistinctKeys(s + [last], Lsn)
  {
  }

  lemma {:induction false} SelectedSorted(entries: seq<Entry>, all: seq<Entry>)
    requires StrictlySortedBy(entries, Lsn)
    ensures StrictlySortedBy(Selected(entries, all), Lsn)
  {
    if entries != [] {
      var init, last := entries[..|entries| - 1], entries[|entries| - 1];
      SelectedSorted(init, all);
      SelectedElements(init, all);
      var s := Selected(init, all);
      forall i | 0 <= i < |s| ensures s[i].lsn < last.lsn {
        assert s[i] in init;
        var k :| 0 <= k < |init| && init[k] == s[i];
        assert Lsn(entries[k]) < Lsn(entries[|entries| - 1]);
      }
    }
  }

  /** On a log whose file order is the LSN order, sorting changes nothing. */
  lemma SortedLogOrder(entries: seq<Entry>)
    requires StrictlySortedBy(entries, Lsn)
    ensures ToApply(entries) == CommittedData(entries)
  {
    SelectedSorted(entries, entries);
    var s := CommittedData(entries);
    SortOfPermutation(s, s, Lsn);
  }

  /**
   Whatever order a hash map hands out the transactions in: gathering the data records of the
   committed ones and sorting them by LSN gives the same list.
   */
  lemma GatheringOrderIrrelevant(entries: seq<Entry>, gathered: seq<Entry>)
    requires DistinctKeys(entries, Lsn) && DistinctKeys(gathered, Lsn)
    requires forall e :: e in gathered <==> e in CommittedData(entries)
    ensures SortByKey(gathered, Lsn) == ToApply(entries)
  {
    SelectedDistinct(entries, entries);
    var s := CommittedData(entries);
    SortDistinct(s, Lsn);
    SortByKeySorts(s, Lsn);
    forall e ensures e in gathered <==> e in ToApply(entries) {
      assert e in ToApply(entries) <==> e in multiset(ToApply(entries));
      assert e in s <==> e in multiset(s);
    }
    SortOfPermutation(gathered, ToApply(entries), Lsn);
  }

  // ---- One terminator per transaction: the order of the frames in the file does not matter.

  predicate Terminates(op: WalOp, txn: TxnId) {
    op == WalOp.Commit(txn) || op == WalOp.Abort(txn)
  }

  ghost predicate OneTerminator(entries: seq<Entry>) {
    forall i, j, txn :: 0 <= i < j < |entries| && Terminates(entries[i].op, txn) ==> !Terminates(entries[j].op, txn)
  }

  ghost predicate HasCommit(entries: seq<Entry>, txn: TxnId) {
    exists i :: 0 <= i < |entries| && entries[i].op == WalOp.Commit(txn)
  }

  lemma {:induction false} CommittedHasCommit(entries: seq<Entry>, txn: TxnId)
    requires OneTerminator(entries)
    ensures Committed(entries, txn) <==> HasCommit(entries, txn)
  {
    hide HasCommit, OneTerminator, Committed;
    if entries == [] {
      NothingCommitted(txn);
    } else {
      var n := |entries| - 1;
      var init, last := entries[..n], entries[n];
      assert entries == init + [last];
      TerminatorLast(init, last, txn);
      CommittedHasCommit(init, txn);
      HasCommitSnoc(init, last, txn);
      CommittedSnoc(init, last, txn);
    }
  }

  lemma NothingCommitted(txn: TxnId)
    ensures !Committed([], txn) && !HasCommit([], txn)
  {
  }

  lemma CommittedSnoc(init: seq<Entry>, last: Entry, txn: TxnId)
    ensures Committed(init + [last], txn)
      <==> last.op == WalOp.Commit(txn) || (Committed(init, txn) && last.op != WalOp.Abort(txn))
  {
    assert (init + [last])[..|init|] == init;
  }

  lemma TerminatorLast(init: seq<Entry>, last: Entry, txn: TxnId)
    requires OneTerminator(init + [last])
    ensures OneTerminator(init)
    ensures HasCommit(init, txn) ==> !Terminates(last.op, txn)
  {
    var entries := init + [last];
    assert forall i :: 0 <= i < |init| ==> entries[i] == init[i];
    if HasCommit(init, txn) {
      var i :| 0 <= i < |init| && init[i].op == WalOp.Commit(txn);
      assert Terminates(entries[i].op, txn) && entries[|init|] == last;
    }
  }

  lemma HasCommitSnoc(init: seq<Entry>, last: Entry, txn: TxnId)
    ensures HasCommit(init + [last], txn) <==> HasCommit(init, txn) || last.op == WalOp.Commit(txn)
  {
    var entries := init + [last];
    assert entries[|init|] == last;
    if HasCommit(init, txn) {
      var i :| 0 <= i < |init| && init[i].op == WalOp.Commit(txn);
      assert entries[i] == init[i];
    }
    if HasCommit(entries, txn) {
      var i :| 0 <= i < |entries| && entries[i].op == WalOp.Commit(txn);
      assert i == |init| || init[i].op == WalOp.Commit(txn);
    }
  }

  /** Two files with the same frames, in any order, are replayed alike. */
  lemma FileOrderIrrelevant(a: seq<Entry>, b: seq<Entry>)
    requires OneTerminator(a) && OneTerminator(b)
    requires DistinctKeys(a, Lsn) && DistinctKeys(b, Lsn)
    requires forall e :: e in a <==> e in b
    ensures ToApply(a) == ToApply(b)
  {
    SelectedElements(a, a);
    SelectedElements(b, b);
    SelectedDistinct(b, b);
    forall txn ensures Committed(a, txn) <==> Committed(b, txn) {
      CommittedHasCommit(a, txn);
      CommittedHasCommit(b, txn);
      SameCommits(a, b, txn);
    }
    GatheringOrderIrrelevant(a, CommittedData(b));
  }

  lemma SameCommits(a: seq<Entry>, b: seq<Entry>, txn: TxnId)
    requires forall e :: e in a <==> e in b
    ensures HasCommit(a, txn) <==> HasCommit(b, txn)
  {
    if HasCommit(a, txn) {
      var i :| 0 <= i < |a| && a[i].op == WalOp.Commit(txn);
      assert a[i] in b;
    }
    if HasCommit(b, txn) {
      var i :| 0 <= i < |b| && b[i].op == WalOp.Commit(txn);
      assert b[i] in a;
    }
  }

  // ---- Growing a log.

  lemma {:induction false} SelectedSameStatus(entries: seq<Entry>, a: seq<Entry>, b: seq<Entry>)
    requires forall i :: 0 <= i < |entries| && entries[i].op.IsDataOp() ==>
      (Committed(a, entries[i].op.txn) <==> Committed(b, entries[i].op.txn))
    ensures Selected(entries, a) == Selected(entries, b)
  {
    if entries != [] {
      SelectedSameStatus(entries[..|entries| - 1], a, b);
    }
  }

  lemma {:induction false} SelectedConcat(x: seq<Entry>, y: seq<Entry>, all: seq<Entry>)
    ensures Selected(x + y, all) == Selected(x, all) + Selected(y, all)
    decreases |y|
  {
    if y == [] {
      assert x + y == x;
    } else {
      SelectedConcat(x, y[..|y| - 1], all);
      assert (x + y)[..|x + y| - 1] == x + y[..|y| - 1];
    }
  }

  /** A record that is not a Commit adds nothing while its transaction is not committed. */
  lemma NonCommitAddsNothing(log: seq<Entry>, e: Entry)
    requires !e.op.Commit? && !Committed(log, e.op.txn)
    ensures CommittedData(log + [e]) == CommittedData(log)
    ensures !Committed(log + [e], e.op.txn)
  {
    var log' := log + [e];
    assert log'[..|log|] == log;
    SelectedSameStatus(log, log', log);
  }

  /** The data records of a log section that all belong to one transaction. */
  function DataOf(entries: seq<Entry>): seq<Entry> {
    if entries == [] then []
    else
      var last := entries[|entries| - 1];
      DataOf(entries[..|entries| - 1]) + if last.op.IsDataOp() then [last] else []
  }

  lemma {:induction false} SelectedAll(entries: seq<Entry>, all: seq<Entry>, txn: TxnId)
    requires Committed(all, txn)
    requires forall i :: 0 <= i < |entries| ==> entries[i].op.txn == txn
    ensures Selected(entries, all) == DataOf(entries)
  {
    if entries != [] {
      SelectedAll(entries[..|entries| - 1], all, txn);
    }
  }

  /** A Commit record adds the data records of its transaction, which end the log. */
  lemma CommitAddsTransaction(before: seq<Entry>, section: seq<Entry>, e: Entry)
    requires e.op.Commit?
    requires forall i :: 0 <= i < |section| ==> section[i].op.txn == e.op.txn
    requires forall i :: 0 <= i < |section| ==> !section[i].op.Commit? && !section[i].op.Abort?
    requires forall i :: 0 <= i < |before| ==> before[i].op.txn != e.op.txn
    ensures CommittedData(before + section + [e]) == CommittedData(before) + DataOf(section)
  {
    hide Selected, DataOf, Committed;
    var log := before + section + [e];
    assert log == before + (section + [e]);
    SelectedConcat(before, section + [e], log);
    SelectedConcat(section, [e], log);
    LastCommits(before + section, e);
    SelectedAll(section, log, e.op.txn);
    forall i | 0 <= i < |before| && before[i].op.IsDataOp()
      ensures Committed(log, before[i].op.txn) <==> Committed(before, before[i].op.txn)
    {
      OtherStatusKept(before, section + [e], before[i].op.txn, e.op.txn);
    }
    SelectedSameStatus(before, log, before);
  }

  lemma LastCommits(init: seq<Entry>, e: Entry)
    requires e.op.Commit?
    ensures Committed(init + [e], e.op.txn) && Selected([e], init + [e]) == []
  {
    assert (init + [e])[..|init|] == init;
  }

  lemma {:induction false} OtherStatusKept(before: seq<Entry>, section: seq<Entry>, txn: TxnId, other: TxnId)
    requires txn != other && forall i :: 0 <= i < |section| ==> section[i].op.txn == other
    ensures Committed(before + section, txn) <==> Committed(before, txn)
    decreases |section|
  {
    if section == [] {
      assert before + section == before;
    } else {
      var n := |section| - 1;
      OtherStatusKept(before, section[..n], txn, other);
      assert (before + section)[..|before + section| - 1] == before + section[..n];
      assert (before + section)[|before + section| - 1] == section[n];
    }
  }
}

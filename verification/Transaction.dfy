/** The transaction of a session: its id and its undo list. */
module Transactions {
  import opened Types
  import opened WalFormat
  import opened Wal
  import opened Engine

  function Reversed(undo: seq<UndoRecord>): (r: seq<UndoRecord>)
    ensures |r| == |undo| && forall i :: 0 <= i < |r| ==> r[i] == undo[|undo| - 1 - i]
  {
    seq(|undo|, i requires 0 <= i < |undo| => undo[|undo| - 1 - i])
  }

  class Transaction {
    var active: bool
    var txnId: Option<TxnId>
    var undo: seq<UndoRecord>

    ghost predicate Valid()
      reads this
    {
      active <==> txnId.Some?
    }

    constructor ()
      ensures Valid() && txnId == None && undo == []
    {
      active, txnId, undo := false, None, [];
    }

    method Begin(wal: WriteAheadLog) returns (r: Result<(), Error>)
      requires Valid() && wal.Valid()
      modifies this, wal
      ensures Valid() && wal.Valid()
      ensures old(txnId).Some? ==>
        r == Err(Execution) && txnId == old(txnId) && undo == old(undo) && wal.history == old(wal.history)
        && wal.nextTxnId == old(wal.nextTxnId)
      ensures old(txnId).None? ==>
        && r == Ok(()) && txnId == Some(old(wal.nextTxnId)) && undo == []
        && wal.nextTxnId == old(wal.nextTxnId) + 1
        && wal.history == old(wal.history) + [WalOp.Begin(old(wal.nextTxnId))]
    {
      hide WriteAheadLog.Valid;
      if active { return Err(Execution); }
      var id := wal.AllocTxnId();
      var at := wal.Append(WalOp.Begin(id));
      txnId, active, undo := Some(id), true, [];
      r := Ok(());
    }

    method Commit(wal: WriteAheadLog) returns (r: Result<(), Error>)
      requires Valid() && wal.Valid()
      modifies this, wal
      ensures Valid() && wal.Valid() && wal.nextTxnId == old(wal.nextTxnId)
      ensures old(txnId).None? ==>
        r == Err(Execution) && txnId == None && undo == old(undo) && wal.history == old(wal.history)
      ensures old(txnId).Some? ==>
        && r == Ok(()) && txnId == None && undo == []
        && wal.history == old(wal.history) + [WalOp.Commit(old(txnId).value)]
    {
      hide WriteAheadLog.Valid;
      if txnId.None? { return Err(Execution); }
      var id := txnId.value;
      txnId := None;
      var at := wal.Append(WalOp.Commit(id));
      active, undo := false, [];
      r := Ok(());
    }

    /** Hands out the undo records, the last one first. */
    method Rollback(wal: WriteAheadLog) returns (r: Result<seq<UndoRecord>, Error>)
      requires Valid() && wal.Valid()
      modifies this, wal
      ensures Valid() && wal.Valid() && wal.nextTxnId == old(wal.nextTxnId)
      ensures old(txnId).None? ==>
        r == Err(Execution) && txnId == None && undo == old(undo) && wal.history == old(wal.history)
      ensures old(txnId).Some? ==>
        && r == Ok(Reversed(old(undo))) && txnId == None && undo == []
        && wal.history == old(wal.history) + [WalOp.Abort(old(txnId).value)]
    {
      hide WriteAheadLog.Valid;
      if txnId.None? { return Err(Execution); }
      var id := txnId.value;
      txnId := None;
      var at := wal.Append(WalOp.Abort(id));
      active := false;
      r := Ok(Reversed(undo));
      undo := [];
    }

    method Record(entry: UndoRecord)
      modifies this`undo
      ensures undo == if active then old(undo) + [entry] else old(undo)
    {
      if active {
        undo := undo + [entry];
      }
    }
  }
}

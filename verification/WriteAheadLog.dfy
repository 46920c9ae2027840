/** The write-ahead log object: LSNs, batched syncs, checkpoint mark and truncation. */
module Wal {
  import opened Bytes
  import opened WalFormat

  const CHECKPOINT_INTERVAL: nat := 50
  const WAL_SYNC_BATCH: nat := 10

  function Max(a: nat, b: nat): nat {
    if a < b then b else a
  }

  /** The highest LSN found by hopping from header to header without reading bodies. */
  function MaxLsn(data: seq<byte>): nat
    decreases |data|
  {
    if |data| < 12 then 0
    else
      var bodyLen := FromBigEndian(data[8..12]);
      if bodyLen < 4 then 0
      else
        var rest := if 12 + bodyLen <= |data| then data[12 + bodyLen..] else [];
        Max(FromBigEndian(data[..8]), MaxLsn(rest))
  }

  function LastLsn(es: seq<Entry>): nat {
    if es == [] then 0 else Max(es[0].lsn, LastLsn(es[1..]))
  }

  lemma {:induction false} MaxLsnOfStream(c: Codec, es: seq<Entry>)
    requires AllEncodable(c, es)
    ensures MaxLsn(Stream(c, es)) == LastLsn(es)
  {
    hide FromBigEndian, BigEndian, EncodeEntry;
    if es != [] {
      var e, frame, data := es[0], EncodeEntry(c, es[0]), Stream(c, es);
      assert Encodable(c, e) && AllEncodable(c, es[1..]);
      FrameLayout(c, e);
      Widths();
      BigEndianRoundTrip(e.lsn, 8);
      BigEndianRoundTrip(4 + |c.encode(e.op)|, 4);
      assert data[..8] == frame[..8] && data[8..12] == frame[8..12];
      assert data[|frame|..] == Stream(c, es[1..]);
      MaxLsnOfStream(c, es[1..]);
    }
  }

  lemma StreamSnoc(c: Codec, es: seq<Entry>, e: Entry)
    ensures Stream(c, es + [e]) == Stream(c, es) + EncodeEntry(c, e)
  {
    StreamConcat(c, es, [e]);
    assert Stream(c, [e]) == EncodeEntry(c, e) + Stream(c, []);
  }

  /** Records with consecutive LSNs. */
  function Numbered(start: nat, ops: seq<WalOp>): (es: seq<Entry>)
    ensures |es| == |ops|
  {
    seq(|ops|, i requires 0 <= i < |ops| => Entry(start + i + 1, ops[i]))
  }

  lemma NumberedSnoc(start: nat, ops: seq<WalOp>, op: WalOp)
    ensures Numbered(start, ops + [op]) == Numbered(start, ops) + [Entry(start + |ops| + 1, op)]
  {
  }

  class WriteAheadLog {
    const codec: Codec
    const checkpointLsn: nat       // read once, at open
    var file: seq<byte>            // wal.log
    var storedCheckpoint: nat      // checkpoint.bin
    var synced: nat                // bytes of `file` known to be on disk
    var lsn: nat
    var nextTxnId: TxnId
    var opsSinceCheckpoint: nat
    var unsyncedWrites: nat

    ghost var initialBytes: seq<byte>    // what this generation of the log started with
    ghost var startLsn: nat
    ghost var log: seq<Entry>      // what was appended since
    ghost const openLsn: nat
    ghost var history: seq<WalOp>  // what was appended since the open, truncated or not
    ghost var truncated: bool

    ghost predicate Valid()
      reads this
    {
      && file == initialBytes + Stream(codec, log)
      && lsn == startLsn + |log|
      && (forall i :: 0 <= i < |log| ==> log[i].lsn == startLsn + i + 1)
      && (!truncated ==> startLsn == openLsn && log == Numbered(openLsn, history))
      && unsyncedWrites < WAL_SYNC_BATCH && unsyncedWrites <= |log|
      && |initialBytes| + |Stream(codec, log[..|log| - unsyncedWrites])| <= synced <= |file|
    }

    constructor Open(codec: Codec, file: seq<byte>, storedCheckpoint: nat)
      ensures Valid() && log == [] && initialBytes == file == this.file
      ensures openLsn == startLsn == MaxLsn(file) && history == [] && !truncated
      ensures nextTxnId == 1 && opsSinceCheckpoint == 0
      ensures this.codec == codec && checkpointLsn == storedCheckpoint == this.storedCheckpoint
    {
      this.codec := codec;
      this.checkpointLsn := storedCheckpoint;
      this.file := file;
      this.storedCheckpoint := storedCheckpoint;
      // What an earlier process left is taken as on disk; where it matters the file began empty.
      synced := |file|;
      nextTxnId := 1;
      opsSinceCheckpoint, unsyncedWrites := 0, 0;
      initialBytes, log := file, [];
      startLsn, openLsn := MaxLsn(file), MaxLsn(file);
      history, truncated := [], false;
      new;
      lsn := ReadMaxLsn(file);
    }

    static method ReadMaxLsn(data: seq<byte>) returns (maxLsn: nat)
      ensures maxLsn == MaxLsn(data)
    {
      hide FromBigEndian;
      maxLsn := 0;
      var pos := 0;
      assert data[0..] == data;
      while pos <= |data|
        invariant 0 <= pos
        invariant MaxLsn(data) == Max(maxLsn, if pos <= |data| then MaxLsn(data[pos..]) else 0)
        decreases |data| - pos
      {
        ghost var rest := data[pos..];
        if |data| - pos < 8 { break; }
        var lsn := FromBigEndian(data[pos..pos + 8]);
        if |data| - pos < 12 { break; }
        var bodyLen := FromBigEndian(data[pos + 8..pos + 12]);
        assert data[pos..pos + 8] == rest[..8] && data[pos + 8..pos + 12] == rest[8..12];
        if bodyLen < 4 { break; }
        assert 12 + bodyLen <= |rest| ==> rest[12 + bodyLen..] == data[pos + 12 + bodyLen..];
        pos := pos + 12 + bodyLen;   // seeking past the end succeeds
        maxLsn := Max(maxLsn, lsn);
      }
    }

    method AllocTxnId() returns (id: TxnId)
      requires Valid()
      modifies this`nextTxnId
      ensures Valid()
      ensures id == old(nextTxnId) && nextTxnId == id + 1
    {
      id := nextTxnId;
      nextTxnId := nextTxnId + 1;
    }

    method Append(op: WalOp) returns (at: nat)
      requires Valid()
      modifies this`file, this`synced, this`lsn, this`opsSinceCheckpoint, this`unsyncedWrites, this`log,
        this`history
      ensures Valid()
      ensures at == lsn == old(lsn) + 1
      ensures log == old(log) + [Entry(at, op)] && history == old(history) + [op]
      ensures opsSinceCheckpoint == old(opsSinceCheckpoint) + 1
      ensures if old(unsyncedWrites) + 1 < WAL_SYNC_BATCH
        then synced == old(synced) && unsyncedWrites == old(unsyncedWrites) + 1
        else synced == |file| && unsyncedWrites == 0
    {
      hide EncodeEntry, Stream, Numbered;
      NumberedSnoc(openLsn, history, op);
      lsn := lsn + 1;
      at := lsn;
      var e := Entry(at, op);
      file := file + EncodeEntry(codec, e);
      StreamSnoc(codec, log, e);
      assert (log + [e])[..|log| - unsyncedWrites] == log[..|log| - unsyncedWrites];
      log, history := log + [e], history + [op];
      opsSinceCheckpoint := opsSinceCheckpoint + 1;
      unsyncedWrites := unsyncedWrites + 1;
      if unsyncedWrites >= WAL_SYNC_BATCH {
        synced := |file|;
        unsyncedWrites := 0;
        assert log[..|log|] == log;
      }
    }

    method Flush()
      requires Valid()
      modifies this`synced, this`unsyncedWrites
      ensures Valid() && synced == |file| && unsyncedWrites == 0
    {
      synced := |file|;
      unsyncedWrites := 0;
      assert log[..|log|] == log;
    }

    predicate ShouldCheckpoint()
      reads this
    {
      opsSinceCheckpoint >= CHECKPOINT_INTERVAL
    }

    method MarkCheckpoint(at: nat)
      requires Valid()
      modifies this`synced, this`unsyncedWrites, this`storedCheckpoint, this`opsSinceCheckpoint
      ensures Valid() && synced == |file|
      ensures storedCheckpoint == at && opsSinceCheckpoint == 0
    {
      hide Stream, Numbered;
      Flush();
      storedCheckpoint := at;
      opsSinceCheckpoint := 0;
    }

    method ReplaySince(from: nat) returns (entries: seq<Entry>)
      requires Valid()
      ensures entries == Replay(codec, file, from)
    {
      entries := ReplayFromBytes(codec, file, from);
    }

    method Truncate()
      requires Valid()
      modifies this`file, this`synced, this`lsn, this`unsyncedWrites, this`initialBytes, this`startLsn, this`log,
        this`truncated
      ensures Valid() && file == [] && initialBytes == [] && log == [] && lsn == 0 == startLsn
    {
      hide Numbered, EncodeEntry;
      Flush();
      file, synced := [], 0;
      lsn := 0;
      initialBytes, startLsn, log, truncated := [], 0, [], true;
    }
  }

  // ---- What the batched sync and the restarted LSN mean for a reader.

  /** Entries numbered consecutively from `start + 1`: the filter drops a prefix. */
  lemma {:induction false} AboveConsecutive(es: seq<Entry>, start: nat, from: nat)
    requires forall i :: 0 <= i < |es| ==> es[i].lsn == start + i + 1
    ensures Above(es, from) == es[if from <= start then 0 else if from - start <= |es| then from - start else |es|..]
    decreases |es|
  {
    if es != [] {
      AboveConsecutive(es[1..], start + 1, from);
    }
  }

  /**
   Bounded loss: whatever a crash leaves of the file beyond the synced bytes, all but at most the
   last nine records of a log generation are read back.
   */
  lemma BoundedLoss(wal: WriteAheadLog, k: nat)
    requires wal.Valid() && wal.initialBytes == []
    requires AllEncodable(wal.codec, wal.log)
    requires wal.synced <= k <= |wal.file|
    ensures var n := CompleteFrames(wal.codec, wal.log, k);
      |wal.log| - 9 <= n <= |wal.log| && Replay(wal.codec, wal.file[..k], 0) == wal.log[..n]
  {
    hide Stream, Replay, CompleteFrames;
    assert wal.file == Stream(wal.codec, wal.log);
    var n := CompleteFrames(wal.codec, wal.log, k);
    var s := |wal.log| - wal.unsyncedWrites;
    CompleteFramesMaximal(wal.codec, wal.log, k, s);
    TornTail(wal.codec, wal.log, k, 0);
    AboveConsecutive(wal.log[..n], wal.startLsn, 0);
  }

  /**
   After a truncation LSNs start again at 1 while the stored checkpoint LSN stays: a reader that
   skips up to the stored LSN sees everything if and only if nothing was appended or the stored
   LSN is 0.
   */
  lemma RestartedLsnSkips(wal: WriteAheadLog)
    requires wal.Valid() && wal.initialBytes == [] && wal.startLsn == 0
    requires AllEncodable(wal.codec, wal.log)
    ensures var dropped := if wal.storedCheckpoint <= |wal.log| then wal.storedCheckpoint else |wal.log|;
      Replay(wal.codec, wal.file, wal.storedCheckpoint) == wal.log[dropped..]
    ensures Replay(wal.codec, wal.file, wal.storedCheckpoint) == wal.log
      <==> wal.log == [] || wal.storedCheckpoint == 0
  {
    hide Stream, Replay;
    assert wal.file == Stream(wal.codec, wal.log);
    StreamRoundTrip(wal.codec, wal.log, wal.storedCheckpoint);
    AboveConsecutive(wal.log, 0, wal.storedCheckpoint);
  }
}

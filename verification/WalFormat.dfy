/**
 The byte format of the write-ahead log: frames of LSN, body length, checksum and payload,
 and the reader that stops at the first torn or damaged frame.
 */
module WalFormat {
  import opened Types
  import opened Bytes
  import opened Checksum

  type TxnId = nat

  datatype WalOp =
    | Begin(txn: TxnId)
    | Commit(txn: TxnId)
    | Abort(txn: TxnId)
    | Insert(txn: TxnId, table: string, rowId: RowId, row: Row)
    | Update(txn: TxnId, table: string, rowId: RowId, row: Row)
    | Delete(txn: TxnId, table: string, rowId: RowId)
  {
    predicate IsDataOp() {
      Insert? || Update? || Delete?
    }
  }

  datatype Entry = Entry(lsn: nat, op: WalOp)

  /** The payload serializer is foreign code. */
  datatype Codec = Codec(encode: WalOp -> seq<byte>, decode: seq<byte> -> Option<WalOp>)

  /** The entry fits the frame's fields, and the serializer can read what it writes of it. */
  predicate Encodable(c: Codec, e: Entry) {
    && e.lsn < U64_LIMIT && 4 + |c.encode(e.op)| < U32_LIMIT
    && c.decode(c.encode(e.op)) == Some(e.op)
  }

  ghost predicate AllEncodable(c: Codec, es: seq<Entry>) {
    forall i :: 0 <= i < |es| ==> Encodable(c, es[i])
  }

  // ---- Some serializer can read and write any given log.

  function PlaceOf(ops: seq<WalOp>, op: WalOp): (i: nat)
    requires op in ops
    ensures i < |ops| && ops[i] == op
  {
    if ops[0] == op then 0 else 1 + PlaceOf(ops[1..], op)
  }

  /** Writes the place of a record in a list. */
  function ListCodec(ops: seq<WalOp>): Codec {
    Codec(op => if op in ops then BigEndian(PlaceOf(ops, op), 4) else [],
          s => if s != [] && FromBigEndian(s) < |ops| then Some(ops[FromBigEndian(s)]) else None)
  }

  /** No log is excluded by what the theorems ask of the serializer: there is one that fits. */
  lemma EveryLogEncodable(es: seq<Entry>)
    requires |es| < U32_LIMIT && forall i :: 0 <= i < |es| ==> es[i].lsn < U64_LIMIT
    ensures AllEncodable(ListCodec(seq(|es|, i requires 0 <= i < |es| => es[i].op)), es)
  {
    hide BigEndian, FromBigEndian, PlaceOf;
    var ops := seq(|es|, i requires 0 <= i < |es| => es[i].op);
    Widths();
    forall i | 0 <= i < |es| ensures Encodable(ListCodec(ops), es[i]) {
      assert ops[i] == es[i].op;
      BigEndianRoundTrip(PlaceOf(ops, es[i].op), 4);
    }
  }

  const HEADER: nat := 16

  function FrameOf(lsn: nat, payload: seq<byte>, crc: int): seq<byte>
    requires 0 <= crc
  {
    BigEndian(lsn, 8) + (BigEndian(4 + |payload|, 4) + (BigEndian(crc, 4) + payload))
  }

  function EncodeEntry(c: Codec, e: Entry): (frame: seq<byte>)
    ensures |frame| == HEADER + |c.encode(e.op)|
  {
    var payload := c.encode(e.op);
    CrcRange(payload);
    FrameOf(e.lsn, payload, Crc(payload))
  }

  function Stream(c: Codec, es: seq<Entry>): seq<byte> {
    if es == [] then [] else EncodeEntry(c, es[0]) + Stream(c, es[1..])
  }

  function Above(es: seq<Entry>, from: nat): seq<Entry> {
    if es == [] then []
    else (if es[0].lsn > from then [es[0]] else []) + Above(es[1..], from)
  }

  /** Reads one frame off the front: the entry and the number of bytes it took. */
  function ReadFrame(c: Codec, data: seq<byte>): (r: Option<(Entry, nat)>)
    ensures r.Some? ==> HEADER <= r.value.1 <= |data|
  {
    if |data| < 12 then None
    else
      var bodyLen := FromBigEndian(data[8..12]);
      if bodyLen < 4 || |data| < 16 || |data| < 12 + bodyLen then None
      else
        var payload := data[16..12 + bodyLen];
        if Crc(payload) != FromBigEndian(data[12..16]) then None
        else
          match c.decode(payload)
          case None => None
          case Some(op) => Some((Entry(FromBigEndian(data[..8]), op), 12 + bodyLen))
  }

  function Replay(c: Codec, data: seq<byte>, from: nat): seq<Entry>
    decreases |data|
  {
    match ReadFrame(c, data)
    case None => []
    case Some((e, n)) => (if e.lsn > from then [e] else []) + Replay(c, data[n..], from)
  }

  lemma SliceOfRest(data: seq<byte>, pos: nat, i: nat, j: nat)
    requires i <= j && pos + j <= |data|
    ensures data[pos..][i..j] == data[pos + i..pos + j]
  {
  }

  /** The reader as it runs: a cursor over the bytes. */
  method ReplayFromBytes(c: Codec, data: seq<byte>, from: nat) returns (entries: seq<Entry>)
    ensures entries == Replay(c, data, from)
  {
    hide FromBigEndian, Crc, Replay;
    entries := [];
    var pos := 0;
    assert data[0..] == data;
    while true
      invariant 0 <= pos <= |data|
      invariant Replay(c, data, from) == entries + Replay(c, data[pos..], from)
      decreases |data| - pos
    {
      ghost var rest := data[pos..];
      ReplayStep(c, rest, from);
      if |data| - pos < 8 { break; }
      var lsn := FromBigEndian(data[pos..pos + 8]);
      if |data| - pos < 12 { break; }
      var bodyLen := FromBigEndian(data[pos + 8..pos + 12]);
      assert data[pos..pos + 8] == rest[..8] && data[pos + 8..pos + 12] == rest[8..12];
      if bodyLen < 4 { break; }
      if |data| - pos < 16 { break; }
      var storedCrc := FromBigEndian(data[pos + 12..pos + 16]);
      var payloadLen := bodyLen - 4;
      if |data| - pos - 16 < payloadLen { break; }
      var payload := data[pos + 16..pos + 16 + payloadLen];
      assert data[pos + 12..pos + 16] == rest[12..16];
      SliceOfRest(data, pos, 16, 12 + bodyLen);
      var crc := Crc32(payload);
      if crc != storedCrc { break; }
      var op := c.decode(payload);
      if op.None? { break; }
      if lsn > from {
        entries := entries + [Entry(lsn, op.value)];
      }
      pos := pos + 16 + payloadLen;
      assert rest[12 + bodyLen..] == data[pos..];
    }
    ReplayStep(c, data[pos..], from);
  }

  lemma ReplayStep(c: Codec, data: seq<byte>, from: nat)
    ensures ReadFrame(c, data) == None ==> Replay(c, data, from) == []
    ensures ReadFrame(c, data).Some? ==>
      var (e, n) := ReadFrame(c, data).value;
      Replay(c, data, from) == (if e.lsn > from then [e] else []) + Replay(c, data[n..], from)
  {
  }

  // ---- Frames survive the reader.

  lemma CrcRange(payload: seq<byte>)
    ensures 0 <= Crc(payload) < U32_LIMIT
  {
    RegisterBound(INIT, payload);
  }

  lemma FrameLayout(c: Codec, e: Entry)
    ensures EncodeEntry(c, e)[..8] == BigEndian(e.lsn, 8)
    ensures EncodeEntry(c, e)[8..12] == BigEndian(4 + |c.encode(e.op)|, 4)
    ensures Crc(c.encode(e.op)) >= 0 && EncodeEntry(c, e)[12..16] == BigEndian(Crc(c.encode(e.op)), 4)
    ensures EncodeEntry(c, e)[16..] == c.encode(e.op)
  {
    hide Crc, BigEndian;
    CrcRange(c.encode(e.op));
  }

  lemma ReadWholeFrame(c: Codec, e: Entry, rest: seq<byte>)
    requires Encodable(c, e)
    ensures ReadFrame(c, EncodeEntry(c, e) + rest) == Some((e, |EncodeEntry(c, e)|))
  {
    hide FromBigEndian, BigEndian, Crc, EncodeEntry;
    var payload := c.encode(e.op);
    var data := EncodeEntry(c, e) + rest;
    CrcRange(payload);
    FrameLayout(c, e);
    Widths();
    BigEndianRoundTrip(e.lsn, 8);
    BigEndianRoundTrip(4 + |payload|, 4);
    BigEndianRoundTrip(Crc(payload), 4);
    assert data[..8] == BigEndian(e.lsn, 8);
    assert data[8..12] == BigEndian(4 + |payload|, 4);
    assert data[12..16] == BigEndian(Crc(payload), 4);
    assert data[16..16 + |payload|] == payload;
  }

  lemma ReadTornFrame(c: Codec, e: Entry, k: nat)
    requires Encodable(c, e) && k < |EncodeEntry(c, e)|
    ensures ReadFrame(c, EncodeEntry(c, e)[..k]) == None
  {
    hide FromBigEndian, BigEndian, Crc, EncodeEntry;
    var payload := c.encode(e.op);
    var data := EncodeEntry(c, e)[..k];
    FrameLayout(c, e);
    if k >= 12 {
      Widths();
      BigEndianRoundTrip(4 + |payload|, 4);
      assert data[8..12] == EncodeEntry(c, e)[8..12];
    }
  }

  /** The number of frames that lie whole in the first `k` bytes of the stream. */
  function CompleteFrames(c: Codec, es: seq<Entry>, k: nat): (n: nat)
    ensures n <= |es|
  {
    if es == [] || k < |EncodeEntry(c, es[0])| then 0
    else 1 + CompleteFrames(c, es[1..], k - |EncodeEntry(c, es[0])|)
  }

  /** It is the largest `n` whose first `n` frames fit into `k` bytes. */
  lemma {:induction false} CompleteFramesMaximal(c: Codec, es: seq<Entry>, k: nat, n: nat)
    requires n <= |es|
    ensures n <= CompleteFrames(c, es, k) <==> |Stream(c, es[..n])| <= k
  {
    if n > 0 {
      assert es[..n][1..] == es[1..][..n - 1];
      if |EncodeEntry(c, es[0])| <= k {
        CompleteFramesMaximal(c, es[1..], k - |EncodeEntry(c, es[0])|, n - 1);
      }
    }
  }

  lemma CutAfterFrames(c: Codec, es: seq<Entry>, n: nat)
    requires n <= |es|
    ensures |Stream(c, es[..n])| <= |Stream(c, es)|
    ensures CompleteFrames(c, es, |Stream(c, es[..n])|) == n
  {
    hide CompleteFrames, Stream;
    assert es == es[..n] + es[n..];
    StreamConcat(c, es[..n], es[n..]);
    CompleteFramesMaximal(c, es, |Stream(c, es[..n])|, n);
    if n < |es| {
      assert es[..n + 1] == es[..n] + [es[n]];
      StreamConcat(c, es[..n], [es[n]]);
      StreamOfOne(c, es[n]);
      CompleteFramesMaximal(c, es, |Stream(c, es[..n])|, n + 1);
    }
  }

  lemma StreamOfOne(c: Codec, e: Entry)
    ensures Stream(c, [e]) == EncodeEntry(c, e)
  {
    hide EncodeEntry;
    assert [e][1..] == [];
  }

  /** Torn tail: cutting the log anywhere loses exactly the frames that are not complete. */
  lemma {:induction false} TornTail(c: Codec, es: seq<Entry>, k: nat, from: nat)
    requires AllEncodable(c, es)
    requires k <= |Stream(c, es)|
    ensures Replay(c, Stream(c, es)[..k], from) == Above(es[..CompleteFrames(c, es, k)], from)
    decreases |es|
  {
    hide ReadFrame, EncodeEntry;
    if es == [] {
      EmptyFrame(c);
    } else {
      var frame, rest := EncodeEntry(c, es[0]), Stream(c, es[1..]);
      if k < |frame| {
        assert (frame + rest)[..k] == frame[..k];
        ReadTornFrame(c, es[0], k);
      } else {
        var data := (frame + rest)[..k];
        assert data == frame + rest[..k - |frame|];
        ReadWholeFrame(c, es[0], rest[..k - |frame|]);
        assert data[|frame|..] == rest[..k - |frame|];
        assert AllEncodable(c, es[1..]);
        TornTail(c, es[1..], k - |frame|, from);
        var n := CompleteFrames(c, es, k);
        assert es[..n][1..] == es[1..][..n - 1];
      }
    }
  }

  lemma EmptyFrame(c: Codec)
    ensures ReadFrame(c, []) == None
  {
  }

  /** Replaying what was encoded gives back the entries above the checkpoint. */
  lemma StreamRoundTrip(c: Codec, es: seq<Entry>, from: nat)
    requires AllEncodable(c, es)
    ensures Replay(c, Stream(c, es), from) == Above(es, from)
  {
    hide Stream, Replay, Above, EncodeEntry;
    var s := Stream(c, es);
    assert s[..|s|] == s && es[..|es|] == es;
    CompleteFramesMaximal(c, es, |s|, |es|);
    TornTail(c, es, |s|, from);
  }

  /** Whatever follows the valid frames, they are read first. */
  lemma {:induction false} ReplayConcat(c: Codec, es: seq<Entry>, tail: seq<byte>, from: nat)
    requires AllEncodable(c, es)
    ensures Replay(c, Stream(c, es) + tail, from) == Above(es, from) + Replay(c, tail, from)
    decreases |es|
  {
    hide ReadFrame, EncodeEntry;
    if es == [] {
      assert Stream(c, es) + tail == tail;
    } else {
      var e, frame, rest := es[0], EncodeEntry(c, es[0]), Stream(c, es[1..]);
      var data := frame + (rest + tail);
      assert Stream(c, es) + tail == data;
      ReadWholeFrame(c, e, rest + tail);
      assert data[|frame|..] == rest + tail;
      assert AllEncodable(c, es[1..]);
      ReplayConcat(c, es[1..], tail, from);
      var kept := if e.lsn > from then [e] else [];
      assert Replay(c, data, from) == kept + (Above(es[1..], from) + Replay(c, tail, from));
      assert Above(es, from) == kept + Above(es[1..], from);
    }
  }

  lemma JunkKeepsPrefix(c: Codec, es: seq<Entry>, junk: seq<byte>, from: nat)
    requires AllEncodable(c, es)
    ensures Above(es, from) <= Replay(c, Stream(c, es) + junk, from)
  {
    ReplayConcat(c, es, junk, from);
  }

  lemma {:induction false} StreamConcat(c: Codec, a: seq<Entry>, b: seq<Entry>)
    ensures Stream(c, a + b) == Stream(c, a) + Stream(c, b)
  {
    hide EncodeEntry;
    if a == [] {
      assert a + b == b;
    } else {
      assert (a + b)[1..] == a[1..] + b;
      StreamConcat(c, a[1..], b);
    }
  }

  /** The bytes at which the payload of entry `i` starts and ends. */
  function PayloadStart(c: Codec, es: seq<Entry>, i: nat): nat
    requires i < |es|
  {
    |Stream(c, es[..i])| + HEADER
  }

  function PayloadEnd(c: Codec, es: seq<Entry>, i: nat): nat
    requires i < |es|
  {
    PayloadStart(c, es, i) + |c.encode(es[i].op)|
  }

  // A frame whose payload fails its checksum stops the reader.
  lemma ReadDamagedFrame(c: Codec, e: Entry, q: seq<byte>, rest: seq<byte>)
    requires Encodable(c, e) && |q| == |c.encode(e.op)|
    requires Crc(q) != Crc(c.encode(e.op))
    ensures ReadFrame(c, EncodeEntry(c, e)[..HEADER] + q + rest) == None
  {
    hide FromBigEndian, BigEndian, Crc, EncodeEntry;
    var payload := c.encode(e.op);
    var data := EncodeEntry(c, e)[..HEADER] + q + rest;
    CrcRange(payload);
    FrameLayout(c, e);
    Widths();
    BigEndianRoundTrip(4 + |payload|, 4);
    BigEndianRoundTrip(Crc(payload), 4);
    assert data[8..12] == EncodeEntry(c, e)[8..12];
    assert data[12..16] == EncodeEntry(c, e)[12..16];
    assert data[16..16 + |payload|] == q;
  }

  /**
   Damage confined to four consecutive payload bytes of frame `i` hides that frame and all later
   ones, and nothing else.
   */
  lemma DamagedPayload(c: Codec, es: seq<Entry>, i: nat, damaged: seq<byte>, w: nat, from: nat)
    requires AllEncodable(c, es) && i < |es|
    requires |damaged| == |Stream(c, es)| && damaged != Stream(c, es)
    requires forall j :: 0 <= j < |damaged| && damaged[j] != Stream(c, es)[j] ==>
      w <= j < w + 4 && PayloadStart(c, es, i) <= j < PayloadEnd(c, es, i)
    ensures Replay(c, damaged, from) == Above(es[..i], from)
  {
    hide *;
    var head, frame, rest := Stream(c, es[..i]), EncodeEntry(c, es[i]), Stream(c, es[i + 1..]);
    var p := c.encode(es[i].op);
    var q := DamageShape(c, es, i, damaged, w);
    var tail := frame[..HEADER] + q + rest;
    BurstDetected(q, p, if w >= PayloadStart(c, es, i) then w - PayloadStart(c, es, i) else 0);
    EncodablePrefix(c, es, i);
    ReadDamagedFrame(c, es[i], q, rest);
    ReplayConcat(c, es[..i], tail, from);
    ReplayStep(c, tail, from);
  }

  lemma EncodablePrefix(c: Codec, es: seq<Entry>, i: nat)
    requires AllEncodable(c, es) && i < |es|
    ensures AllEncodable(c, es[..i]) && Encodable(c, es[i])
  {
  }

  // The damaged stream is the old one with another payload `q` in frame `i`.
  lemma DamageShape(c: Codec, es: seq<Entry>, i: nat, damaged: seq<byte>, w: nat) returns (q: seq<byte>)
    requires i < |es|
    requires |damaged| == |Stream(c, es)| && damaged != Stream(c, es)
    requires forall j :: 0 <= j < |damaged| && damaged[j] != Stream(c, es)[j] ==>
      w <= j < w + 4 && PayloadStart(c, es, i) <= j < PayloadEnd(c, es, i)
    ensures |EncodeEntry(c, es[i])| >= HEADER
    ensures damaged == Stream(c, es[..i]) + (EncodeEntry(c, es[i])[..HEADER] + q + Stream(c, es[i + 1..]))
    ensures |q| == |c.encode(es[i].op)| && q != c.encode(es[i].op)
    ensures forall j :: 0 <= j < |q| && q[j] != c.encode(es[i].op)[j] ==>
      w - PayloadStart(c, es, i) <= j < w + 4 - PayloadStart(c, es, i)
  {
    hide Stream, EncodeEntry, Crc;
    var head, frame := Stream(c, es[..i]), EncodeEntry(c, es[i]);
    SplitStream(c, es, i);
    FrameLayout(c, es[i]);
    q := damaged[|head| + HEADER..|head| + |frame|];
    Splice(Stream(c, es), damaged, head, frame, Stream(c, es[i + 1..]), HEADER);
    SpliceWindow(Stream(c, es), damaged, head, frame, Stream(c, es[i + 1..]), HEADER, w);
  }

  lemma Splice<T>(s: seq<T>, d: seq<T>, head: seq<T>, frame: seq<T>, rest: seq<T>, h: nat)
    requires s == head + (frame + rest) && |d| == |s| && h <= |frame|
    requires forall j :: 0 <= j < |d| && d[j] != s[j] ==> |head| + h <= j < |head| + |frame|
    ensures d == head + (frame[..h] + d[|head| + h..|head| + |frame|] + rest)
    ensures d != s ==> d[|head| + h..|head| + |frame|] != frame[h..]
  {
    assert d[..|head| + h] == s[..|head| + h] == head + frame[..h];
    assert d[|head| + |frame|..] == s[|head| + |frame|..] == rest;
    assert frame == frame[..h] + frame[h..];
  }

  lemma SpliceWindow<T>(s: seq<T>, d: seq<T>, head: seq<T>, frame: seq<T>, rest: seq<T>, h: nat, w: nat)
    requires s == head + (frame + rest) && |d| == |s| && h <= |frame|
    requires forall j :: 0 <= j < |d| && d[j] != s[j] ==> w <= j < w + 4
    ensures var q := d[|head| + h..|head| + |frame|];
      forall j :: 0 <= j < |q| && q[j] != frame[h..][j] ==> w <= |head| + h + j < w + 4
  {
    var q, p := d[|head| + h..|head| + |frame|], frame[h..];
    forall j | 0 <= j < |q| && q[j] != p[j]
      ensures w <= |head| + h + j < w + 4
    {
      assert s[|head| + h + j] == frame[h + j];
    }
  }

  lemma SplitStream(c: Codec, es: seq<Entry>, i: nat)
    requires i < |es|
    ensures Stream(c, es) == Stream(c, es[..i]) + (EncodeEntry(c, es[i]) + Stream(c, es[i + 1..]))
  {
    assert es == es[..i] + es[i..];
    StreamConcat(c, es[..i], es[i..]);
    assert es[i..][1..] == es[i + 1..];
  }

}

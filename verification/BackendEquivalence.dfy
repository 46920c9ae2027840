/** Any sequence of storage calls: both backends answer alike. */
module BackendEquivalence {
  import opened Types
  import opened Bytes
  import opened WalFormat
  import opened Wal
  import opened Tables
  import opened Scans
  import opened PageFile
  import opened PageTables
  import opened Backend
  import opened Storage

  datatype Call =
    | CInsert(row: Row, txn: TxnId)
    | CApplyInsert(id: RowId, row: Row, log: bool)
    | CGet(id: RowId)
    | CScan
    | CFetch(ids: seq<RowId>)
    | CUpdate(id: RowId, row: Row, txn: TxnId, expected: nat)
    | CApplyUpdate(id: RowId, row: Row, log: bool)
    | CDelete(id: RowId, txn: TxnId)
    | CApplyDelete(id: RowId, log: bool)
    | CCount

  datatype Response =
    | RId(id: RowId)
    | RDone
    | RFlag(flag: bool)
    | RRow(row: Option<Row>)
    | RRows(rows: seq<(RowId, Row)>)
    | RCount(n: nat)
    | RFailed(error: Error)

  function Flagged(r: Result<bool, Error>): Response {
    if r.Ok? then RFlag(r.value) else RFailed(r.error)
  }

  /** A call on a plain table. */
  function Perform(s: Option<Table>, call: Call): (Option<Table>, Response) {
    match call
    case CInsert(row, _) => (Some(InsertNew(OrEmpty(s), row)), RId(OrEmpty(s).nextId))
    case CApplyInsert(id, row, _) => (Some(InsertAt(OrEmpty(s), id, row)), RDone)
    case CGet(id) => (s, RRow(RowAt(s, id)))
    case CScan => (s, RRows(if s.Some? then Scan(s.value) else []))
    case CFetch(ids) => (s, if s.Some? then RRows(Fetched(s.value.rows, ids)) else RFailed(TableNotFound))
    case CUpdate(id, row, _, expected) => (Updated(s, id, row, expected).0, Flagged(Updated(s, id, row, expected).1))
    case CApplyUpdate(id, row, _) =>
      if s.None? then (s, RFailed(TableNotFound))
      else (Some(UpdateAt(s.value, id, row)), RFlag(id in s.value.rows))
    case CDelete(id, _) => (Deleted(s, id).0, Flagged(Deleted(s, id).1))
    case CApplyDelete(id, _) => (Deleted(s, id).0, Flagged(Deleted(s, id).1))
    case CCount => (s, RCount(if s.Some? then |s.value.rows| else 0))
  }

  function PerformAll(s: Option<Table>, calls: seq<Call>): (Option<Table>, seq<Response>) {
    if calls == [] then (s, [])
    else
      var (mid, responses) := PerformAll(s, calls[..|calls| - 1]);
      var (after, last) := Perform(mid, calls[|calls| - 1]);
      (after, responses + [last])
  }

  /** The row id of the call is one a page file with this many rows per page can address. */
  predicate InRange(rowsPerPage: nat, s: Option<Table>, call: Call) {
    match call
    case CInsert(_, _) => IdInRange(rowsPerPage, OrEmpty(s).nextId)
    case CApplyInsert(id, _, _) => IdInRange(rowsPerPage, id)
    case CFetch(ids) => forall i :: 0 <= i < |ids| ==> ids[i] >= 1
    case CScan | CCount => true
    case _ => call.id >= 1
  }

  predicate IdInRange(rowsPerPage: nat, id: RowId) {
    rowsPerPage >= 1 && id >= 1 && id + 1 < U64_LIMIT && PageOf(id, rowsPerPage) + 1 < U32_LIMIT
  }

  predicate AllInRange(rowsPerPage: nat, s: Option<Table>, calls: seq<Call>) {
    forall i :: 0 <= i < |calls| ==> InRange(rowsPerPage, PerformAll(s, calls[..i]).0, calls[i])
  }

  ghost predicate IdsGrow(s: Option<Table>, after: Option<Table>) {
    && (after.Some? ==> IdsBounded(after.value))
    && (s.Some? ==> after.Some? && s.value.nextId <= after.value.nextId)
  }

  lemma PerformGrowsIds(s: Option<Table>, call: Call)
    requires s.Some? ==> IdsBounded(s.value)
    requires call.CApplyInsert? ==> call.id >= 1
    ensures IdsGrow(s, Perform(s, call).0)
  {
    hide Scan, Fetched;
  }

  /** The allocation counter never falls and stays above every stored id. */
  lemma {:induction false} NextIdStaysAbove(s: Option<Table>, calls: seq<Call>)
    requires s.Some? ==> IdsBounded(s.value)
    requires forall i :: 0 <= i < |calls| && calls[i].CApplyInsert? ==> calls[i].id >= 1
    ensures IdsGrow(s, PerformAll(s, calls).0)
  {
    hide Perform, IdsBounded;
    if calls != [] {
      NextIdStaysAbove(s, calls[..|calls| - 1]);
      PerformGrowsIds(PerformAll(s, calls[..|calls| - 1]).0, calls[|calls| - 1]);
    }
  }

  /** The rows the call may store are ones the page serializer is made for. */
  ghost predicate Storable(store: TableStore, call: Call) {
    match call
    case CInsert(row, _) => store.Storable(row.values)
    case CApplyInsert(_, row, _) => store.Storable(row.values)
    case CUpdate(_, row, _, _) => store.Storable(row.values)
    case CApplyUpdate(_, row, _) => store.Storable(row.values)
    case _ => true
  }

  ghost predicate AllStorable(store: TableStore, calls: seq<Call>) {
    forall i :: 0 <= i < |calls| ==> Storable(store, calls[i])
  }

  method Execute(store: TableStore, call: Call) returns (r: Response)
    requires store.Valid() && InRange(store.rowsPerPage, store.Model(), call) && Storable(store, call)
    modifies store`backend, store`file, store.wal, store.Objects()
    ensures store.Valid() && fresh(store.Objects() - old(store.Objects()))
    ensures r != RFailed(Error.Storage) ==> (store.Model(), r) == Perform(old(store.Model()), call)
    ensures store.backend.Some? && store.backend.value.Memory? ==> r != RFailed(Error.Storage)
    ensures old(store.backend).Some? ==> store.backend == old(store.backend)
  {
    hide FileHolds, ReadHeader, WriteAheadLog.Valid, PageTable.Valid, PageOf, Scan, Fetched, IdsBounded;
    hide TableBackend.Valid, TableBackend.Model, TableStore.Valid;
    match call
    case CInsert(row, txn) =>
      var id := store.Insert(row, txn);
      r := if id.Ok? then RId(id.value) else RFailed(id.error);
    case CApplyInsert(id, row, log) =>
      var done := store.ApplyInsert(id, row, log, 0);
      r := if done.Ok? then RDone else RFailed(done.error);
    case CGet(id) =>
      var row := store.Get(id);
      r := RRow(row.value);
    case CScan =>
      var rows := store.Scan();
      r := RRows(rows.value);
    case CFetch(ids) =>
      var rows := store.FetchByIds(ids);
      r := if rows.Ok? then RRows(rows.value) else RFailed(rows.error);
    case CUpdate(id, row, txn, expected) =>
      var done := store.Update(id, row, txn, expected);
      r := Flagged(done);
    case CApplyUpdate(id, row, log) =>
      var done := store.ApplyUpdate(id, row, log, 0);
      r := Flagged(done);
    case CDelete(id, txn) =>
      var done := store.Delete(id, txn);
      r := Flagged(done);
    case CApplyDelete(id, log) =>
      var done := store.ApplyDelete(id, log, 0);
      r := Flagged(done);
    case CCount =>
      var n := store.RowCount();
      r := RCount(n);
  }

  /** Runs calls until one of them overflows a page. */
  method ExecuteAll(store: TableStore, calls: seq<Call>) returns (responses: seq<Response>)
    requires store.Valid() && AllInRange(store.rowsPerPage, store.Model(), calls) && AllStorable(store, calls)
    modifies store`backend, store`file, store.wal, store.Objects()
    ensures store.Valid() && fresh(store.Objects() - old(store.Objects()))
    ensures RFailed(Error.Storage) !in responses ==>
      (store.Model(), responses) == PerformAll(old(store.Model()), calls)
    ensures old(store.backend).Some? && old(store.backend).value.Memory? ==> RFailed(Error.Storage) !in responses
  {
    hide FileHolds, ReadHeader, WriteAheadLog.Valid, PageTable.Valid, PageOf, Scan, Fetched, Perform, InRange;
    responses := [];
    ghost var s := store.Model();
    for i := 0 to |calls|
      invariant store.Valid() && fresh(store.Objects() - old(store.Objects()))
      invariant RFailed(Error.Storage) !in responses
      invariant (store.Model(), responses) == PerformAll(s, calls[..i])
      invariant old(store.backend).Some? ==> store.backend == old(store.backend)
    {
      assert calls[..i + 1][..i] == calls[..i];
      var r := Execute(store, calls[i]);
      responses := responses + [r];
      if r == RFailed(Error.Storage) { return; }
    }
    assert calls[..|calls|] == calls;
  }

  /**
   Two stores with the same table, one in memory and one paged, say: every sequence of calls that
   overflows no page is answered alike and leaves the same table.
   */
  method Lockstep(a: TableStore, b: TableStore, calls: seq<Call>) returns (ra: seq<Response>, rb: seq<Response>)
    requires a.Valid() && b.Valid() && a.Model() == b.Model()
    requires a != b && a.wal != b.wal && a.Objects() !! b.Objects()
    requires AllInRange(a.rowsPerPage, a.Model(), calls) && AllInRange(b.rowsPerPage, b.Model(), calls)
    requires AllStorable(a, calls) && AllStorable(b, calls)
    modifies a`backend, a`file, a.wal, a.Objects(), b`backend, b`file, b.wal, b.Objects()
    ensures a.Valid() && b.Valid()
    ensures RFailed(Error.Storage) !in ra && RFailed(Error.Storage) !in rb ==> ra == rb && a.Model() == b.Model()
  {
    hide FileHolds, ReadHeader, WriteAheadLog.Valid, PageTable.Valid, PageOf, PerformAll, AllInRange;
    hide TableBackend.Valid, TableBackend.Model, TableStore.Valid;
    ra := ExecuteAll(a, calls);
    rb := ExecuteAll(b, calls);
  }
}

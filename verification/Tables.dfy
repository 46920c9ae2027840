/** Table contents as values, and the effect of log records on them. */
module Tables {
  import opened Types
  import opened WalFormat

  datatype Table = Table(rows: map<RowId, Row>, nextId: RowId)

  const EMPTY_TABLE: Table := Table(map[], 1)

  type TableMap = map<string, Table>

  function TableOf(ts: TableMap, table: string): Table {
    if table in ts then ts[table] else EMPTY_TABLE
  }

  // ---- One table.

  function InsertNew(t: Table, row: Row): Table {
    Table(t.rows[t.nextId := row], t.nextId + 1)
  }

  /** Insert under a given id, keeping `nextId` above it. */
  function InsertAt(t: Table, id: RowId, row: Row): Table {
    Table(t.rows[id := row], if id >= t.nextId then id + 1 else t.nextId)
  }

  /** The replayed or undone update: new values, next version; nothing if the row is gone. */
  function UpdateAt(t: Table, id: RowId, row: Row): Table {
    if id in t.rows then t.(rows := t.rows[id := Row(row.values, t.rows[id].version + 1)]) else t
  }

  function DeleteAt(t: Table, id: RowId): Table {
    t.(rows := t.rows - {id})
  }

  /** Ids below the allocation counter. */
  ghost predicate IdsBounded(t: Table) {
    && t.nextId >= 1
    && forall id :: id in t.rows ==> 1 <= id < t.nextId
  }

  // ---- Log records.

  function ApplyOp(ts: TableMap, op: WalOp): Result<TableMap, Error> {
    match op
    case Begin(_) | Commit(_) | Abort(_) => Ok(ts)
    case Insert(_, table, id, row) => Ok(ts[table := InsertAt(TableOf(ts, table), id, row)])
    case Update(_, table, id, row) =>
      if table in ts then Ok(ts[table := UpdateAt(ts[table], id, row)]) else Err(TableNotFound)
    case Delete(_, table, id) =>
      if table in ts then Ok(ts[table := DeleteAt(ts[table], id)]) else Err(TableNotFound)
  }

  function ApplyAll(ts: TableMap, ops: seq<WalOp>): Result<TableMap, Error> {
    if ops == [] then Ok(ts)
    else
      match ApplyAll(ts, ops[..|ops| - 1])
      case Err(e) => Err(e)
      case Ok(mid) => ApplyOp(mid, ops[|ops| - 1])
  }

  // ---- What a table stores under an id, versions aside.

  function Stored(ts: TableMap, table: string, id: RowId): Option<seq<Value>> {
    if table in ts && id in ts[table].rows then Some(ts[table].rows[id].values) else None
  }

  ghost predicate SameValues(a: TableMap, b: TableMap) {
    forall table, id :: Stored(a, table, id) == Stored(b, table, id)
  }

  predicate Touches(op: WalOp, table: string, id: RowId) {
    op.IsDataOp() && op.table == table && op.rowId == id
  }

  function Effect(op: WalOp, table: string, id: RowId, v: Option<seq<Value>>): Option<seq<Value>> {
    if !Touches(op, table, id) then v
    else
      match op
      case Insert(_, _, _, row) => Some(row.values)
      case Update(_, _, _, row) => if v.Some? then Some(row.values) else None
      case _ => None
  }

  function Effects(ops: seq<WalOp>, table: string, id: RowId, v: Option<seq<Value>>): Option<seq<Value>> {
    if ops == [] then v
    else Effect(ops[|ops| - 1], table, id, Effects(ops[..|ops| - 1], table, id, v))
  }

  lemma ApplyOpEffect(ts: TableMap, op: WalOp, table: string, id: RowId)
    requires ApplyOp(ts, op).Ok?
    ensures Stored(ApplyOp(ts, op).value, table, id) == Effect(op, table, id, Stored(ts, table, id))
  {
  }

  lemma {:induction false} ApplyAllEffects(ts: TableMap, ops: seq<WalOp>, table: string, id: RowId)
    requires ApplyAll(ts, ops).Ok?
    ensures Stored(ApplyAll(ts, ops).value, table, id) == Effects(ops, table, id, Stored(ts, table, id))
  {
    hide ApplyOp, Stored, Effect;
    if ops != [] {
      var init := ops[..|ops| - 1];
      ApplyAllEffects(ts, init, table, id);
      ApplyOpEffect(ApplyAll(ts, init).value, ops[|ops| - 1], table, id);
    }
  }

  /** Replay fails only on an update or delete of a table nobody created. */
  ghost predicate TablesKnown(ts: TableMap, ops: seq<WalOp>) {
    forall i :: 0 <= i < |ops| ==> ops[i].IsDataOp() ==> ops[i].table in ts
  }

  lemma {:induction false} ApplyAllOk(ts: TableMap, ops: seq<WalOp>)
    requires TablesKnown(ts, ops)
    ensures ApplyAll(ts, ops).Ok? && ApplyAll(ts, ops).value.Keys == ts.Keys
  {
    if ops != [] {
      assert TablesKnown(ts, ops[..|ops| - 1]);
      ApplyAllOk(ts, ops[..|ops| - 1]);
      assert ops[|ops| - 1].IsDataOp() ==> ops[|ops| - 1].table in ts;
    }
  }

  // ---- A list of records, replayed twice, is a list replayed once.

  datatype Summary = Kept | SetTo(v: seq<Value>) | SetIfPresent(v: seq<Value>) | Removed

  function Meaning(s: Summary, v: Option<seq<Value>>): Option<seq<Value>> {
    match s
    case Kept => v
    case SetTo(w) => Some(w)
    case SetIfPresent(w) => if v.Some? then Some(w) else None
    case Removed => None
  }

  function Summarize(ops: seq<WalOp>, table: string, id: RowId): Summary {
    if ops == [] then Kept
    else
      var before := Summarize(ops[..|ops| - 1], table, id);
      var op := ops[|ops| - 1];
      if !Touches(op, table, id) then before
      else
        match op
        case Insert(_, _, _, row) => SetTo(row.values)
        case Update(_, _, _, row) =>
          (match before
           case SetTo(_) => SetTo(row.values)
           case Removed => Removed
           case _ => SetIfPresent(row.values))
        case _ => Removed
  }

  lemma {:induction false} EffectsSummarized(ops: seq<WalOp>, table: string, id: RowId, v: Option<seq<Value>>)
    ensures Effects(ops, table, id, v) == Meaning(Summarize(ops, table, id), v)
  {
    if ops != [] {
      EffectsSummarized(ops[..|ops| - 1], table, id, v);
    }
  }

  lemma EffectsIdempotent(ops: seq<WalOp>, table: string, id: RowId, v: Option<seq<Value>>)
    ensures Effects(ops, table, id, Effects(ops, table, id, v)) == Effects(ops, table, id, v)
  {
    EffectsSummarized(ops, table, id, v);
    EffectsSummarized(ops, table, id, Effects(ops, table, id, v));
  }

  /** From any state: applying a list of records twice stores what applying it once stores. */
  lemma ReplayIdempotent(ts: TableMap, ops: seq<WalOp>)
    requires TablesKnown(ts, ops)
    ensures ApplyAll(ts, ops).Ok?
    ensures var once := ApplyAll(ts, ops).value;
      ApplyAll(once, ops).Ok? && SameValues(ApplyAll(once, ops).value, once)
  {
    ApplyAllOk(ts, ops);
    var once := ApplyAll(ts, ops).value;
    ApplyAllOk(once, ops);
    forall table, id
      ensures Stored(ApplyAll(once, ops).value, table, id) == Stored(once, table, id)
    {
      ApplyAllEffects(ts, ops, table, id);
      ApplyAllEffects(once, ops, table, id);
      EffectsIdempotent(ops, table, id, Stored(ts, table, id));
    }
  }

  /** The table files after `persisted` were overwritten from memory and the others were not. */
  function Mixed(disk: TableMap, memory: TableMap, persisted: set<string>): TableMap {
    map t | t in disk.Keys + (persisted * memory.Keys) ::
      if t in persisted && t in memory then memory[t] else disk[t]
  }

  /** Replay over a mixture stores, table by table, what it stores over memory or over the old files. */
  lemma MixedReplay(disk: TableMap, memory: TableMap, persisted: set<string>, ops: seq<WalOp>)
    requires TablesKnown(disk, ops) && disk.Keys <= memory.Keys
    ensures var mixed := Mixed(disk, memory, persisted);
      && ApplyAll(mixed, ops).Ok? && ApplyAll(memory, ops).Ok? && ApplyAll(disk, ops).Ok?
      && forall table, id ::
           Stored(ApplyAll(mixed, ops).value, table, id)
           == Stored(if table in persisted then ApplyAll(memory, ops).value else ApplyAll(disk, ops).value, table, id)
  {
    hide ApplyAll, Stored;
    var mixed := Mixed(disk, memory, persisted);
    assert TablesKnown(mixed, ops) && TablesKnown(memory, ops);
    ApplyAllOk(mixed, ops);
    ApplyAllOk(memory, ops);
    ApplyAllOk(disk, ops);
    forall table, id
      ensures Stored(ApplyAll(mixed, ops).value, table, id)
           == Stored(if table in persisted then ApplyAll(memory, ops).value else ApplyAll(disk, ops).value, table, id)
    {
      MixedStored(disk, memory, persisted, table, id);
      ApplyAllEffects(mixed, ops, table, id);
      ApplyAllEffects(memory, ops, table, id);
      ApplyAllEffects(disk, ops, table, id);
    }
  }

  /**
   A checkpoint interrupted after an arbitrary set of tables was written: replaying the log over
   the mixture of old and new table files stores what the memory held.
   */
  lemma PartialPersist(disk: TableMap, memory: TableMap, persisted: set<string>, ops: seq<WalOp>)
    requires TablesKnown(disk, ops) && disk.Keys <= memory.Keys
    requires ApplyAll(disk, ops).Ok? && SameValues(ApplyAll(disk, ops).value, memory)
    ensures var mixed := Mixed(disk, memory, persisted);
      ApplyAll(mixed, ops).Ok? && SameValues(ApplyAll(mixed, ops).value, memory)
  {
    hide ApplyAll, Stored, Effects;
    MixedReplay(disk, memory, persisted, ops);
    forall table, id ensures Stored(ApplyAll(memory, ops).value, table, id) == Stored(memory, table, id) {
      ApplyAllEffects(disk, ops, table, id);
      ApplyAllEffects(memory, ops, table, id);
      EffectsIdempotent(ops, table, id, Stored(disk, table, id));
    }
  }

  lemma MixedStored(disk: TableMap, memory: TableMap, persisted: set<string>, table: string, id: RowId)
    requires disk.Keys <= memory.Keys
    ensures Stored(Mixed(disk, memory, persisted), table, id)
         == Stored(if table in persisted then memory else disk, table, id)
  {
  }
}

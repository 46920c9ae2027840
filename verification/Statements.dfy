/** INSERT, UPDATE and DELETE as sequences of row steps, with the transaction a statement opens for itself. */
module Statements {
  import opened Types
  import opened Tables
  import opened Index
  import opened Catalog
  import opened TableIndexes
  import opened Scans
  import opened Engine
  import opened Expressions

  datatype Assignment = Assignment(column: string, value: Expr)

  datatype ConflictAction = DoNothing | DoUpdate(assignments: seq<Assignment>, selection: Option<Expr>)

  datatype OnConflict = OnConflict(target: Option<seq<string>>, action: ConflictAction)

  // ---- The conflict target.

  /** The named columns, or else the primary key. */
  function ConflictColumns(schema: TableSchema, target: Option<seq<string>>): Result<seq<string>, Error> {
    match target
    case Some(cols) => Ok(cols)
    case None =>
      var pk := PrimaryKey(schema.columns);
      if pk == [] then Err(Execution) else Ok(pk)
  }

  predicate SameColumns(a: seq<string>, b: seq<string>) {
    |a| == |b| && forall i :: 0 <= i < |a| ==> EqIgnoreCase(a[i], b[i])
  }

  /** The first unique index on exactly these columns. */
  function FindUniqueIndex(metas: seq<IndexMeta>, cols: seq<string>): (r: Option<nat>)
    ensures r.Some? ==>
      && r.value < |metas| && metas[r.value].unique && SameColumns(metas[r.value].columns, cols)
      && forall i :: 0 <= i < r.value ==> !(metas[i].unique && SameColumns(metas[i].columns, cols))
    ensures r.None? ==> forall i :: 0 <= i < |metas| ==> !(metas[i].unique && SameColumns(metas[i].columns, cols))
  {
    if metas == [] then None
    else if metas[0].unique && SameColumns(metas[0].columns, cols) then Some(0)
    else
      match FindUniqueIndex(metas[1..], cols)
      case None => None
      case Some(i) => Some(i + 1)
  }

  function FirstId(ids: seq<RowId>): Option<RowId> {
    if ids == [] then None else Some(ids[0])
  }

  /** The stored row a proposed one collides with under the conflict target. */
  function ConflictRow(db: Db, table: string, target: Option<seq<string>>, values: Values): Result<Option<RowId>, Error>
    requires table in db.catalog
  {
    var schema := db.catalog[table];
    match ConflictColumns(schema, target)
    case Err(e) => Err(e)
    case Ok(cols) =>
      match FindUniqueIndex(schema.indexes, cols)
      case None => Err(Execution)
      case Some(i) =>
        var m, name := IndexesOf(db.indexes, table), schema.indexes[i].name;
        Ok(if name in m then FirstId(TreeLookup(m[name].tree, KeyOf(cols, ColNames(schema), values))) else None)
  }

  function Conflict(db: Db, table: string, onConflict: Option<OnConflict>, values: Values):
    Result<Option<RowId>, Error>
    requires table in db.catalog
  {
    if onConflict.None? then Ok(None) else ConflictRow(db, table, onConflict.value.target, values)
  }

  // ---- New values of a row.

  /** An unknown column is ignored. */
  function AssignOne(schema: TableSchema, values: Values, a: Assignment, excluded: Option<Values>)
    : Result<Values, Error>
  {
    match Eval(a.value, values, ColNames(schema), excluded)
    case Err(e) => Err(e)
    case Ok(v) =>
      match Position(ColNames(schema), a.column)
      case None => Ok(values)
      case Some(i) =>
        match CoerceTo(v, schema.columns[i].dataType)
        case Err(e) => Err(e)
        case Ok(w) => if i < |values| then Ok(values[i := w]) else Err(Execution)
  }

  /** Assignments see the effect of the earlier ones. */
  function Assigned(schema: TableSchema, values: Values, assignments: seq<Assignment>, excluded: Option<Values>):
    Result<Values, Error>
    decreases |assignments|
  {
    if assignments == [] then Ok(values)
    else
      match Assigned(schema, values, assignments[..|assignments| - 1], excluded)
      case Err(e) => Err(e)
      case Ok(current) => AssignOne(schema, current, assignments[|assignments| - 1], excluded)
  }

  function Changed(schema: TableSchema, values: Values, assignments: seq<Assignment>, excluded: Option<Values>):
    Result<Values, Error>
  {
    match Assigned(schema, values, assignments, excluded)
    case Err(e) => Err(e)
    case Ok(changed) => if ValidRow(schema.columns, changed) then Ok(changed) else Err(Execution)
  }

  function Proposed(schema: TableSchema, raw: Values): Result<Values, Error> {
    match CoerceRow(schema.columns, raw)
    case Err(e) => Err(e)
    case Ok(values) => if ValidRow(schema.columns, values) then Ok(values) else Err(Execution)
  }

  /** A missing WHERE clause selects every row. */
  function Selects(where: Option<Expr>, values: Values, colNames: seq<string>, excluded: Option<Values>):
    Result<bool, Error>
  {
    if where.None? then Ok(true) else EvalWhere(where.value, values, colNames, excluded)
  }

  // ---- INSERT.

  /** DO UPDATE: nothing happens if the WHERE of the conflict clause rejects the stored row. */
  function UpdateConflict(db: Db, table: string, id: RowId, proposed: Values, assignments: seq<Assignment>,
                          selection: Option<Expr>): Result<Db, Error>
    requires table in db.catalog
  {
    var schema, rows := db.catalog[table], TableOf(db.tables, table).rows;
    if id !in rows then Err(Execution)
    else
      var existing := rows[id].values;
      match Selects(selection, existing, ColNames(schema), Some(proposed))
      case Err(e) => Err(e)
      case Ok(false) => Ok(db)
      case Ok(true) =>
        match Changed(schema, existing, assignments, Some(proposed))
        case Err(e) => Err(e)
        case Ok(values) => UpdateRow(db, table, id, values)
  }

  /** One VALUES row: the new state, and 1 if it counts as affected. */
  function InsertOne(db: Db, table: string, onConflict: Option<OnConflict>, raw: Values): Result<(Db, nat), Error>
    requires table in db.catalog
  {
    match Proposed(db.catalog[table], raw)
    case Err(e) => Err(e)
    case Ok(values) =>
      match Conflict(db, table, onConflict, values)
      case Err(e) => Err(e)
      case Ok(None) =>
        (match InsertRow(db, table, values)
         case Err(e) => Err(e)
         case Ok(db') => Ok((db', 1)))
      case Ok(Some(id)) =>
        match onConflict.value.action
        case DoNothing => Ok((db, 0))
        case DoUpdate(assignments, selection) =>
          match UpdateConflict(db, table, id, values, assignments, selection)
          case Err(e) => Err(e)
          case Ok(db') => Ok((db', 1))
  }

  function InsertRows(db: Db, table: string, onConflict: Option<OnConflict>, rows: seq<Values>)
    : Result<(Db, nat), Error>
    decreases |rows|
  {
    if rows == [] then Ok((db, 0))
    else
      match InsertRows(db, table, onConflict, rows[..|rows| - 1])
      case Err(e) => Err(e)
      case Ok((mid, count)) =>
        if table !in mid.catalog then Err(TableNotFound)
        else
          match InsertOne(mid, table, onConflict, rows[|rows| - 1])
          case Err(e) => Err(e)
          case Ok((db', n)) => Ok((db', count + n))
  }

  // ---- UPDATE and DELETE work on a scan taken first.

  function UpdateOne(db: Db, table: string, schema: TableSchema, assignments: seq<Assignment>, where: Option<Expr>,
                     scanned: (RowId, Row)): Result<(Db, nat), Error>
  {
    match Selects(where, scanned.1.values, ColNames(schema), None)
    case Err(e) => Err(e)
    case Ok(false) => Ok((db, 0))
    case Ok(true) =>
      match Changed(schema, scanned.1.values, assignments, None)
      case Err(e) => Err(e)
      case Ok(values) =>
        match UpdateRow(db, table, scanned.0, values)
        case Err(e) => Err(e)
        case Ok(db') => Ok((db', 1))
  }

  function UpdateRows(db: Db, table: string, schema: TableSchema, assignments: seq<Assignment>, where: Option<Expr>,
                      scan: seq<(RowId, Row)>): Result<(Db, nat), Error>
    decreases |scan|
  {
    if scan == [] then Ok((db, 0))
    else
      match UpdateRows(db, table, schema, assignments, where, scan[..|scan| - 1])
      case Err(e) => Err(e)
      case Ok((mid, count)) =>
        match UpdateOne(mid, table, schema, assignments, where, scan[|scan| - 1])
        case Err(e) => Err(e)
        case Ok((db', n)) => Ok((db', count + n))
  }

  function DeleteOne(db: Db, table: string, schema: TableSchema, where: Option<Expr>, scanned: (RowId, Row)):
    Result<(Db, nat), Error>
  {
    match Selects(where, scanned.1.values, ColNames(schema), None)
    case Err(e) => Err(e)
    case Ok(false) => Ok((db, 0))
    case Ok(true) =>
      match DeleteRow(db, table, scanned.0)
      case Err(e) => Err(e)
      case Ok(db') => Ok((db', 1))
  }

  function DeleteRows(db: Db, table: string, schema: TableSchema, where: Option<Expr>, scan: seq<(RowId, Row)>):
    Result<(Db, nat), Error>
    decreases |scan|
  {
    if scan == [] then Ok((db, 0))
    else
      match DeleteRows(db, table, schema, where, scan[..|scan| - 1])
      case Err(e) => Err(e)
      case Ok((mid, count)) =>
        match DeleteOne(mid, table, schema, where, scan[|scan| - 1])
        case Err(e) => Err(e)
        case Ok((db', n)) => Ok((db', count + n))
  }

  // ---- Whole statements.

  /** Outside a transaction a statement begins one of its own ... */
  function Opened(db: Db): Db {
    if db.session.txn.Some? then db else BeginTxn(db, true).value
  }

  /** ... and commits it. */
  function Finished(r: Result<(Db, nat), Error>): Result<(Db, nat), Error> {
    match r
    case Err(e) => Err(e)
    case Ok((db, count)) =>
      if db.session.autoCommit && db.session.txn.Some? then Ok((CommitTxn(db).value, count)) else Ok((db, count))
  }

  function InsertStatement(db: Db, table: string, onConflict: Option<OnConflict>, rows: seq<Values>):
    Result<(Db, nat), Error>
  {
    if table !in db.catalog then Err(TableNotFound)
    else Finished(InsertRows(Opened(db), table, onConflict, rows))
  }

  function UpdateStatement(db: Db, table: string, assignments: seq<Assignment>, where: Option<Expr>):
    Result<(Db, nat), Error>
  {
    if table !in db.catalog then Err(TableNotFound)
    else
      Finished(UpdateRows(Opened(db), table, db.catalog[table], assignments, where, Scan(TableOf(db.tables, table))))
  }

  function DeleteStatement(db: Db, table: string, where: Option<Expr>): Result<(Db, nat), Error> {
    if table !in db.catalog then Err(TableNotFound)
    else Finished(DeleteRows(Opened(db), table, db.catalog[table], where, Scan(TableOf(db.tables, table))))
  }

  // ---- Every successful statement is a run of row steps.

  ghost predicate RowRun(db: Db, es: seq<Event>, db': Db) {
    && (forall i :: 0 <= i < |es| ==> es[i].IsRowStep())
    && Run(db, es) == Ok(db')
  }

  lemma RowRunSnoc(db: Db, es: seq<Event>, mid: Db, e: Event, db': Db)
    requires RowRun(db, es, mid) && e.IsRowStep() && Step(mid, e) == Ok(db')
    ensures RowRun(db, es + [e], db')
  {
    hide Run, Step;
    RunSnoc(db, es, mid, e, es + [e]);
  }

  lemma InsertOneIsStep(db: Db, table: string, onConflict: Option<OnConflict>, raw: Values) returns (e: Option<Event>)
    requires table in db.catalog && InsertOne(db, table, onConflict, raw).Ok?
    ensures var db' := InsertOne(db, table, onConflict, raw).value.0;
      if e.None? then db' == db else e.value.IsRowStep() && Step(db, e.value) == Ok(db')
  {
    hide InsertRow, UpdateRow, ConflictRow, Changed, EvalWhere, Selects, Proposed;
    var values := Proposed(db.catalog[table], raw).value;
    var conflict := Conflict(db, table, onConflict, values);
    if conflict.value.None? {
      e := Some(EInsert(table, values));
    } else if onConflict.value.action.DoNothing? {
      e := None;
    } else {
      var id, action := conflict.value.value, onConflict.value.action;
      var schema, existing := db.catalog[table], TableOf(db.tables, table).rows[id].values;
      var chosen := Selects(action.selection, existing, ColNames(schema), Some(values));
      var changed := Changed(schema, existing, action.assignments, Some(values));
      e := if chosen.value then Some(EUpdate(table, id, changed.value)) else None;
    }
  }

  lemma {:induction false} InsertRowsIsRun(db: Db, table: string, onConflict: Option<OnConflict>, rows: seq<Values>)
    returns (es: seq<Event>)
    requires InsertRows(db, table, onConflict, rows).Ok?
    ensures RowRun(db, es, InsertRows(db, table, onConflict, rows).value.0)
    decreases |rows|
  {
    hide InsertOne, Step, RowRun;
    if rows == [] {
      es := [];
      EmptyRun(db);
    } else {
      var init := rows[..|rows| - 1];
      es := InsertRowsIsRun(db, table, onConflict, init);
      var mid := InsertRows(db, table, onConflict, init).value.0;
      var e := InsertOneIsStep(mid, table, onConflict, rows[|rows| - 1]);
      if e.Some? {
        RowRunSnoc(db, es, mid, e.value, InsertRows(db, table, onConflict, rows).value.0);
        es := es + [e.value];
      }
    }
  }

  lemma EmptyRun(db: Db)
    ensures RowRun(db, [], db)
  {
  }

  lemma {:induction false} UpdateRowsIsRun(db: Db, table: string, schema: TableSchema, assignments: seq<Assignment>,
                                           where: Option<Expr>, scan: seq<(RowId, Row)>) returns (es: seq<Event>)
    requires UpdateRows(db, table, schema, assignments, where, scan).Ok?
    ensures RowRun(db, es, UpdateRows(db, table, schema, assignments, where, scan).value.0)
    decreases |scan|
  {
    hide Step, RowRun, UpdateOne;
    if scan == [] {
      es := [];
      EmptyRun(db);
    } else {
      var init, last := scan[..|scan| - 1], scan[|scan| - 1];
      es := UpdateRowsIsRun(db, table, schema, assignments, where, init);
      var mid := UpdateRows(db, table, schema, assignments, where, init).value.0;
      var e := UpdateOneIsStep(mid, table, schema, assignments, where, last);
      if e.Some? {
        RowRunSnoc(db, es, mid, e.value, UpdateRows(db, table, schema, assignments, where, scan).value.0);
        es := es + [e.value];
      }
    }
  }

  lemma UpdateOneIsStep(db: Db, table: string, schema: TableSchema, assignments: seq<Assignment>, where: Option<Expr>,
                        scanned: (RowId, Row)) returns (e: Option<Event>)
    requires UpdateOne(db, table, schema, assignments, where, scanned).Ok?
    ensures var db' := UpdateOne(db, table, schema, assignments, where, scanned).value.0;
      if e.None? then db' == db else e.value.IsRowStep() && Step(db, e.value) == Ok(db')
  {
    hide UpdateRow, Changed, Selects;
    e := if Selects(where, scanned.1.values, ColNames(schema), None).value
         then Some(EUpdate(table, scanned.0, Changed(schema, scanned.1.values, assignments, None).value)) else None;
  }

  lemma DeleteOneIsStep(db: Db, table: string, schema: TableSchema, where: Option<Expr>, scanned: (RowId, Row))
    returns (e: Option<Event>)
    requires DeleteOne(db, table, schema, where, scanned).Ok?
    ensures var db' := DeleteOne(db, table, schema, where, scanned).value.0;
      if e.None? then db' == db else e.value.IsRowStep() && Step(db, e.value) == Ok(db')
  {
    hide DeleteRow, Selects;
    var chosen := Selects(where, scanned.1.values, ColNames(schema), None);
    e := if chosen.value then Some(EDelete(table, scanned.0)) else None;
  }

  lemma {:induction false} DeleteRowsIsRun(db: Db, table: string, schema: TableSchema, where: Option<Expr>,
                                           scan: seq<(RowId, Row)>) returns (es: seq<Event>)
    requires DeleteRows(db, table, schema, where, scan).Ok?
    ensures RowRun(db, es, DeleteRows(db, table, schema, where, scan).value.0)
    decreases |scan|
  {
    hide Step, RowRun, DeleteOne;
    if scan == [] {
      es := [];
      EmptyRun(db);
    } else {
      var init, last := scan[..|scan| - 1], scan[|scan| - 1];
      es := DeleteRowsIsRun(db, table, schema, where, init);
      var mid := DeleteRows(db, table, schema, where, init).value.0;
      var e := DeleteOneIsStep(mid, table, schema, where, last);
      if e.Some? {
        RowRunSnoc(db, es, mid, e.value, DeleteRows(db, table, schema, where, scan).value.0);
        es := es + [e.value];
      }
    }
  }

  lemma {:induction false} RunConcat(db: Db, a: seq<Event>, b: seq<Event>)
    requires Run(db, a).Ok?
    ensures Run(db, a + b) == Run(Run(db, a).value, b)
    decreases |b|
  {
    hide Step;
    if b == [] {
      assert a + b == a;
    } else {
      RunConcat(db, a, b[..|b| - 1]);
      assert (a + b)[..|a + b| - 1] == a + b[..|b| - 1];
    }
  }

  /** The row steps of a statement, wrapped into its own transaction where there was none. */
  function Wrapped(db: Db, es: seq<Event>): seq<Event> {
    if db.session.txn.Some? then es else [EAutoBegin] + es + [ECommit]
  }

  lemma WrappedRun(db: Db, es: seq<Event>, mid: Db, count: nat)
    requires RowRun(Opened(db), es, mid) && (db.session.autoCommit ==> db.session.txn == None)
    ensures Finished(Ok((mid, count))).Ok?
    ensures Run(db, Wrapped(db, es)) == Ok(Finished(Ok((mid, count))).value.0)
  {
    hide InsertRow, UpdateRow, DeleteRow;
    RowRunKeepsSession(Opened(db), es);
    if db.session.txn == None {
      RunSnoc(db, [], db, EAutoBegin, [EAutoBegin]);
      RunConcat(db, [EAutoBegin], es);
      RunSnoc(db, [EAutoBegin] + es, mid, ECommit, [EAutoBegin] + es + [ECommit]);
    }
  }

  lemma {:induction false} RowRunKeepsSession(db: Db, es: seq<Event>)
    requires Run(db, es).Ok? && forall i :: 0 <= i < |es| ==> es[i].IsRowStep()
    ensures var db' := Run(db, es).value;
      && db'.session.txn == db.session.txn && db'.session.autoCommit == db.session.autoCommit
      && db'.catalog == db.catalog
    decreases |es|
  {
    hide Step;
    if es != [] {
      RowRunKeepsSession(db, es[..|es| - 1]);
      RowStepKeepsSession(Run(db, es[..|es| - 1]).value, es[|es| - 1]);
    }
  }

  lemma RowStepKeepsSession(db: Db, e: Event)
    requires Step(db, e).Ok? && e.IsRowStep()
    ensures var db' := Step(db, e).value;
      && db'.session.txn == db.session.txn && db'.session.autoCommit == db.session.autoCommit
      && db'.catalog == db.catalog
  {
    hide AddRow, DropRow, ColNames, SetIndexes;
  }

  /** A successful INSERT, with or without ON CONFLICT, is a run of the engine. */
  lemma InsertStatementIsRun(db: Db, table: string, onConflict: Option<OnConflict>, rows: seq<Values>)
    returns (es: seq<Event>)
    requires InsertStatement(db, table, onConflict, rows).Ok? && (db.session.autoCommit ==> db.session.txn == None)
    ensures forall i :: 0 <= i < |es| ==> es[i].IsRowStep()
    ensures Run(db, Wrapped(db, es)) == Ok(InsertStatement(db, table, onConflict, rows).value.0)
  {
    hide InsertRows, Run, Opened;
    es := InsertRowsIsRun(Opened(db), table, onConflict, rows);
    var (mid, count) := InsertRows(Opened(db), table, onConflict, rows).value;
    WrappedRun(db, es, mid, count);
  }

  lemma UpdateStatementIsRun(db: Db, table: string, assignments: seq<Assignment>, where: Option<Expr>)
    returns (es: seq<Event>)
    requires UpdateStatement(db, table, assignments, where).Ok? && (db.session.autoCommit ==> db.session.txn == None)
    ensures forall i :: 0 <= i < |es| ==> es[i].IsRowStep()
    ensures Run(db, Wrapped(db, es)) == Ok(UpdateStatement(db, table, assignments, where).value.0)
  {
    hide UpdateRows, Run, Opened, Scan;
    var schema, scan := db.catalog[table], Scan(TableOf(db.tables, table));
    es := UpdateRowsIsRun(Opened(db), table, schema, assignments, where, scan);
    var (mid, count) := UpdateRows(Opened(db), table, schema, assignments, where, scan).value;
    WrappedRun(db, es, mid, count);
  }

  lemma DeleteStatementIsRun(db: Db, table: string, where: Option<Expr>) returns (es: seq<Event>)
    requires DeleteStatement(db, table, where).Ok? && (db.session.autoCommit ==> db.session.txn == None)
    ensures forall i :: 0 <= i < |es| ==> es[i].IsRowStep()
    ensures Run(db, Wrapped(db, es)) == Ok(DeleteStatement(db, table, where).value.0)
  {
    hide DeleteRows, Run, Opened, Scan;
    var schema, scan := db.catalog[table], Scan(TableOf(db.tables, table));
    es := DeleteRowsIsRun(Opened(db), table, schema, where, scan);
    var (mid, count) := DeleteRows(Opened(db), table, schema, where, scan).value;
    WrappedRun(db, es, mid, count);
  }
}

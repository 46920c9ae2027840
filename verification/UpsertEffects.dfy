/** What INSERT ... ON CONFLICT DO UPDATE stores. */
module UpsertEffects {
  import opened Types
  import opened Tables
  import opened Index
  import opened Catalog
  import opened TableIndexes
  import opened Scans
  import opened Engine
  import opened Rollback
  import opened Expressions
  import opened Statements
  import opened Assignments
  import opened StatementEffects
  import opened InsertEffects
  import opened Upsert
  import opened ExpressionLaws
  import opened PrimaryKeys

  // ---- One stored row.

  /** An update succeeds exactly if the rows with the new values satisfy the unique indexes. */
  lemma UpdateExact(db: Db, table: string, id: RowId, v: Values)
    requires Inv(db) && table in db.catalog && db.session.txn.Some?
    requires table in db.tables && id in db.tables[table].rows
    ensures UpdateRow(db, table, id, v).Ok?
      <==> UniqueRows(db.catalog[table], RowVals(db.tables[table].rows)[id := v])
  {
    hide TableAgrees, AddRow, DropRow, UniqueRows, ColNames;
    var schema, m, t := db.catalog[table], IndexesOf(db.indexes, table), db.tables[table];
    assert TableOk(schema, m, t);
    ReplaceRowAgrees(schema, m, RowVals(t.rows), v, id);
  }

  lemma UpdateStores(db: Db, table: string, id: RowId, v: Values)
    requires Inv(db) && table in db.catalog && table in db.tables && id in db.tables[table].rows
    requires UpdateRow(db, table, id, v).Ok?
    ensures var db', t := UpdateRow(db, table, id, v).value, db.tables[table];
      && Inv(db') && db'.catalog == db.catalog && OnlyTable(db, db', table)
      && db'.tables[table] == t.(rows := t.rows[id := Row(v, t.rows[id].version + 1)])
  {
    hide Inv, IdsBounded, UpdateRow, AddRow, DropRow, ColNames, Replaced;
    UpdateKeepsInv(db, table, id, v);
    UpdateReplaces(db, table, id, v);
    var t, m := db.tables[table], IndexesOf(db.indexes, table);
    var dropped := DropRow(m, Cols(db, table), t.rows[id].values, id);
    ReplacedTables(db, table, t.(rows := t.rows[id := Row(v, t.rows[id].version + 1)]),
                   AddRow(dropped, Cols(db, table), v, id).value, UpdateRow(db, table, id, v).value);
  }

  /** The stored rows with the key of `v`. */
  ghost function WithKey(schema: TableSchema, cols: seq<string>, t: Table, v: Values): set<RowId> {
    set id | id in t.rows && KeyOf(cols, ColNames(schema), t.rows[id].values) == KeyOf(cols, ColNames(schema), v)
  }

  // The live index the conflict check looks into.
  lemma ConflictIndex(db: Db, table: string, cols: seq<string>) returns (ix: BTreeIndex)
    requires Inv(db) && table in db.catalog && table in db.tables
    requires FindUniqueIndex(db.catalog[table].indexes, cols).Some?
    ensures var schema := db.catalog[table];
      var meta := schema.indexes[FindUniqueIndex(schema.indexes, cols).value];
      && meta.name in IndexesOf(db.indexes, table) && ix == IndexesOf(db.indexes, table)[meta.name]
      && ix.unique && SameColumns(ix.columns, cols)
      && Agrees(ix, ColNames(schema), RowVals(db.tables[table].rows))
  {
    hide Agrees, ColNames, RowVals, SameColumns;
    var schema, m, t := db.catalog[table], IndexesOf(db.indexes, table), db.tables[table];
    assert TableOk(schema, m, t);
    var meta := schema.indexes[FindUniqueIndex(schema.indexes, cols).value];
    ix := m[meta.name];
    assert MetaMatches(meta, ix);
  }

  /** The conflict check finds the one row with the key, if there is one. */
  lemma ConflictIsKey(db: Db, table: string, target: Option<seq<string>>, cols: seq<string>, v: Values)
    requires Inv(db) && table in db.catalog && table in db.tables
    requires ConflictColumns(db.catalog[table], target) == Ok(cols)
    ensures ConflictRow(db, table, target, v).Ok? <==> FindUniqueIndex(db.catalog[table].indexes, cols).Some?
    ensures ConflictRow(db, table, target, v).Ok? ==>
      WithKey(db.catalog[table], cols, db.tables[table], v)
      == match ConflictRow(db, table, target, v).value case Some(id) => {id} case None => {}
  {
    hide Inv, KeyOf, TreeAgrees, ColNames, ConflictColumns, SameColumns, FindUniqueIndex;
    var schema, t := db.catalog[table], db.tables[table];
    if FindUniqueIndex(schema.indexes, cols).Some? {
      var ix := ConflictIndex(db, table, cols);
      var colNames, key := ColNames(schema), KeyOf(cols, ColNames(schema), v);
      var keys := KeysOf(ix.columns, colNames, RowVals(t.rows));
      UniqueBucket(ix.tree, keys, key);
      forall id | id in t.rows ensures id in keys && keys[id] == KeyOf(cols, colNames, t.rows[id].values) {
        SameColumnsSameKey(ix.columns, cols, colNames, t.rows[id].values);
      }
      assert keys.Keys == t.rows.Keys;
    }
  }

  lemma UniqueBucket(tree: Tree, keys: Keyed, key: Key)
    requires TreeAgrees(tree, true, keys)
    ensures var found := FirstId(TreeLookup(tree, key));
      forall id :: id in keys && keys[id] == key <==> found == Some(id)
  {
    if key in tree {
      assert tree[key][0] in tree[key];
    }
    forall id | id in keys && keys[id] == key ensures FirstId(TreeLookup(tree, key)) == Some(id) {
      assert id in tree[key] && tree[key] == [tree[key][0]];
    }
  }

  // ---- One VALUES row.

  /** The table with one more row, under the next id. */
  ghost predicate RowAdded(schema: TableSchema, t: Table, v: Values, t': Table) {
    && t'.nextId == t.nextId + 1
    && t'.rows == t.rows[t.nextId := Row(v, 1)]
    && UniqueRows(schema, RowVals(t'.rows))
  }

  /**
   The stored row `id` meets the proposed one: DO NOTHING leaves it; DO UPDATE changes exactly the
   assigned cells if its WHERE holds of the stored row, with the proposed one as EXCLUDED, and
   leaves it otherwise.  `n` is what the row adds to the count.
   */
  ghost predicate Resolved(schema: TableSchema, t: Table, action: ConflictAction, id: RowId, v: Values, t': Table,
                           n: nat)
    requires id in t.rows
  {
    match action
    case DoNothing => t' == t && n == 0
    case DoUpdate(assignments, selection) =>
      var row := t.rows[id];
      var chosen := Selects(selection, row.values, ColNames(schema), Some(v));
      && n == 1
      && chosen.Ok?
      && if chosen.value then RowChanged(schema, t, assignments, id, v, t') else t' == t
  }

  ghost predicate RowChanged(schema: TableSchema, t: Table, assignments: seq<Assignment>, id: RowId, v: Values,
                             t': Table)
    requires id in t.rows
  {
    && t'.nextId == t.nextId && id in t'.rows
    && t'.rows == t.rows[id := t'.rows[id]]
    && t'.rows[id].version == t.rows[id].version + 1
    && ChangedRow(schema, t.rows[id].values, assignments, Some(v), t'.rows[id].values)
    && UniqueRows(schema, RowVals(t'.rows))
  }

  ghost predicate OneInserted(schema: TableSchema, cols: seq<string>, t: Table, action: ConflictAction, given: Values,
                              t': Table, n: nat) {
    exists v :: RowFor(schema.columns, given, v) && OneStored(schema, cols, t, action, v, t', n)
  }

  ghost predicate OneStored(schema: TableSchema, cols: seq<string>, t: Table, action: ConflictAction, v: Values,
                            t': Table, n: nat) {
    if WithKey(schema, cols, t, v) == {}
    then RowAdded(schema, t, v, t') && n == 1
    else exists id :: id in t.rows && WithKey(schema, cols, t, v) == {id} && Resolved(schema, t, action, id, v, t', n)
  }

  lemma ChangeExact(db: Db, table: string, id: RowId, v: Values, assignments: seq<Assignment>, t': Table)
    requires Inv(db) && table in db.catalog && db.session.txn.Some?
    requires table in db.tables && id in db.tables[table].rows
    ensures var schema, t := db.catalog[table], db.tables[table];
      var changed := Changed(schema, t.rows[id].values, assignments, Some(v));
      RowChanged(schema, t, assignments, id, v, t')
      <==> changed.Ok? && UpdateRow(db, table, id, changed.value).Ok?
           && UpdateRow(db, table, id, changed.value).value.tables[table] == t'
  {
    hide Inv, UpdateRow, Changed, ChangedRow, UniqueRows;
    var schema, t := db.catalog[table], db.tables[table];
    var changed := Changed(schema, t.rows[id].values, assignments, Some(v));
    if changed.Ok? {
      ChangedExact(schema, t.rows[id].values, assignments, Some(v), changed.value);
      UpdateExact(db, table, id, changed.value);
      assert RowVals(t.rows[id := Row(changed.value, t.rows[id].version + 1)]) == RowVals(t.rows)[id := changed.value];
      if UpdateRow(db, table, id, changed.value).Ok? {
        UpdateStores(db, table, id, changed.value);
      }
    }
    if RowChanged(schema, t, assignments, id, v, t') {
      ChangedExact(schema, t.rows[id].values, assignments, Some(v), t'.rows[id].values);
    }
  }

  lemma AddExact(db: Db, table: string, v: Values, t': Table)
    requires Inv(db) && table in db.catalog && db.session.txn.Some? && table in db.tables
    ensures RowAdded(db.catalog[table], db.tables[table], v, t')
      <==> InsertRow(db, table, v).Ok? && InsertRow(db, table, v).value.tables[table] == t'
  {
    hide Inv, InsertRow, UniqueRows;
    var t := db.tables[table];
    InsertExact(db, table, v);
    assert RowVals(t.rows[t.nextId := Row(v, 1)]) == RowVals(t.rows)[t.nextId := v];
    if InsertRow(db, table, v).Ok? {
      InsertStores(db, table, v);
    }
  }

  ghost predicate KeepsRest(db: Db, db': Db, table: string) {
    && Inv(db') && db'.catalog == db.catalog && OnlyTable(db, db', table) && db'.session.txn == db.session.txn
  }

  lemma UpdateKeepsRest(db: Db, table: string, id: RowId, v: Values)
    requires Inv(db) && table in db.catalog && table in db.tables && id in db.tables[table].rows
    requires UpdateRow(db, table, id, v).Ok?
    ensures KeepsRest(db, UpdateRow(db, table, id, v).value, table)
  {
    hide Inv, UpdateRow, OnlyTable;
    UpdateStores(db, table, id, v);
    RowStepKeepsSession(db, EUpdate(table, id, v));
  }

  lemma InsertKeepsRest(db: Db, table: string, v: Values)
    requires Inv(db) && table in db.catalog && InsertRow(db, table, v).Ok?
    ensures KeepsRest(db, InsertRow(db, table, v).value, table)
  {
    hide Inv, InsertRow, OnlyTable;
    InsertStores(db, table, v);
    RowStepKeepsSession(db, EInsert(table, v));
  }

  lemma SameRest(db: Db, table: string)
    requires Inv(db) && table in db.tables
    ensures KeepsRest(db, db, table)
  {
  }

  // The conflict is there: what the action does.
  lemma ResolvedExact(db: Db, table: string, action: ConflictAction, id: RowId, v: Values, t': Table, n: nat)
    requires Inv(db) && table in db.catalog && db.session.txn.Some?
    requires table in db.tables && id in db.tables[table].rows
    ensures var done := Taken(db, table, action, id, v);
      && (Resolved(db.catalog[table], db.tables[table], action, id, v, t', n)
          <==> done.Ok? && table in done.value.0.tables && done.value.0.tables[table] == t' && done.value.1 == n)
      && (done.Ok? ==> KeepsRest(db, done.value.0, table))
  {
    hide Inv, UpdateRow, Changed, RowChanged, KeepsRest, Selects, UniqueRows;
    SameRest(db, table);
    if action.DoUpdate? {
      var schema, t := db.catalog[table], db.tables[table];
      ChangeExact(db, table, id, v, action.assignments, t');
      var changed := Changed(schema, t.rows[id].values, action.assignments, Some(v));
      if changed.Ok? && UpdateRow(db, table, id, changed.value).Ok? {
        UpdateKeepsRest(db, table, id, changed.value);
        RestHasTable(db, UpdateRow(db, table, id, changed.value).value, table);
      }
    }
  }

  lemma RestHasTable(db: Db, db': Db, table: string)
    requires KeepsRest(db, db', table)
    ensures table in db'.tables && Inv(db') && db'.catalog == db.catalog && db'.session.txn == db.session.txn
  {
  }

  /** The last part of `InsertOne`. */
  ghost function Taken(db: Db, table: string, action: ConflictAction, id: RowId, v: Values): Result<(Db, nat), Error>
    requires table in db.catalog
  {
    match action
    case DoNothing => Ok((db, 0))
    case DoUpdate(assignments, selection) =>
      match UpdateConflict(db, table, id, v, assignments, selection)
      case Err(e) => Err(e)
      case Ok(db') => Ok((db', 1))
  }

  /** One VALUES row succeeds exactly if there is a table it leads to, and then it leads there. */
  lemma OneInsertedExact(db: Db, table: string, target: Option<seq<string>>, cols: seq<string>, action: ConflictAction,
                         given: Values, t': Table, n: nat)
    requires Inv(db) && table in db.catalog && db.session.txn.Some? && table in db.tables
    requires ConflictColumns(db.catalog[table], target) == Ok(cols)
    requires FindUniqueIndex(db.catalog[table].indexes, cols).Some?
    ensures var r := InsertOne(db, table, Some(OnConflict(target, action)), given);
      && (OneInserted(db.catalog[table], cols, db.tables[table], action, given, t', n)
          <==> r.Ok? && table in r.value.0.tables && r.value.0.tables[table] == t' && r.value.1 == n)
      && (r.Ok? ==> KeepsRest(db, r.value.0, table))
  {
    hide Inv, InsertRow, UpdateConflict, ConflictColumns, FindUniqueIndex, ConflictRow, WithKey, RowFor, Resolved,
         RowAdded, KeepsRest, Proposed;
    var schema, t := db.catalog[table], db.tables[table];
    ProposedExact(schema, given);
    if v :| RowFor(schema.columns, given, v) {
      RowForProposed(schema, given, v);
      forall other | RowFor(schema.columns, given, other) ensures other == v {
        RowForUnique(schema.columns, given, other, v);
      }
      ConflictIsKey(db, table, target, cols, v);
      var conflict := ConflictRow(db, table, target, v).value;
      if conflict.None? {
        AddExact(db, table, v, t');
        if InsertRow(db, table, v).Ok? {
          InsertKeepsRest(db, table, v);
          RestHasTable(db, InsertRow(db, table, v).value, table);
        }
      } else {
        KeyStored(schema, cols, t, v, conflict.value);
        ResolvedExact(db, table, action, conflict.value, v, t', n);
      }
    }
  }

  lemma KeyStored(schema: TableSchema, cols: seq<string>, t: Table, v: Values, id: RowId)
    requires WithKey(schema, cols, t, v) == {id}
    ensures id in t.rows
  {
    hide KeyOf;
    assert id in WithKey(schema, cols, t, v);
  }

  // ---- The whole list.

  /** The rows of the list one after the other, each on the table the earlier ones left. */
  ghost predicate Inserted(schema: TableSchema, cols: seq<string>, t: Table, action: ConflictAction, given: seq<Values>,
                           t': Table, count: nat) {
    exists trace :: Traced(schema, cols, t, action, given, trace) && trace[|given|] == (t', count)
  }

  /** The tables on the way, with the count so far. */
  ghost predicate Traced(schema: TableSchema, cols: seq<string>, t: Table, action: ConflictAction, given: seq<Values>,
                         trace: seq<(Table, nat)>) {
    && |trace| == |given| + 1 && trace[0] == (t, 0)
    && forall i :: 0 <= i < |given| ==> StepTo(schema, cols, action, trace[i], given[i], trace[i + 1])
  }

  ghost predicate StepTo(schema: TableSchema, cols: seq<string>, action: ConflictAction, from: (Table, nat),
                         given: Values, to: (Table, nat)) {
    from.1 <= to.1 && OneInserted(schema, cols, from.0, action, given, to.0, to.1 - from.1)
  }

  lemma InsertedSnoc(schema: TableSchema, cols: seq<string>, t: Table, action: ConflictAction, init: seq<Values>,
                     last: Values, t': Table, count: nat)
    ensures Inserted(schema, cols, t, action, init + [last], t', count)
      <==> exists mid, n: nat ::
             && Inserted(schema, cols, t, action, init, mid, n)
             && StepTo(schema, cols, action, (mid, n), last, (t', count))
  {
    hide StepTo;
    var given := init + [last];
    if Inserted(schema, cols, t, action, given, t', count) {
      var trace :| Traced(schema, cols, t, action, given, trace) && trace[|given|] == (t', count);
      var before := trace[..|given|];
      var (mid, n) := trace[|init|];
      forall i | 0 <= i < |init| ensures StepTo(schema, cols, action, before[i], init[i], before[i + 1]) {
        assert StepTo(schema, cols, action, trace[i], given[i], trace[i + 1]);
      }
      assert Traced(schema, cols, t, action, init, before) && before[|init|] == (mid, n);
      assert StepTo(schema, cols, action, trace[|init|], given[|init|], trace[|init| + 1]);
    }
    if mid, n: nat :| (Inserted(schema, cols, t, action, init, mid, n)
                       && StepTo(schema, cols, action, (mid, n), last, (t', count))) {
      var before :| Traced(schema, cols, t, action, init, before) && before[|init|] == (mid, n);
      var trace := before + [(t', count)];
      forall i | 0 <= i < |given| ensures StepTo(schema, cols, action, trace[i], given[i], trace[i + 1]) {
        if i < |init| {
          assert StepTo(schema, cols, action, before[i], init[i], before[i + 1]);
        }
      }
      assert Traced(schema, cols, t, action, given, trace) && trace[|given|] == (t', count);
    }
  }

  lemma NothingGiven(schema: TableSchema, cols: seq<string>, t: Table, action: ConflictAction, t': Table, count: nat)
    ensures Inserted(schema, cols, t, action, [], t', count) <==> (t', count) == (t, 0)
  {
    hide StepTo;
    assert Traced(schema, cols, t, action, [], [(t, 0)]);
  }

  ghost predicate Reaches(r: Result<(Db, nat), Error>, table: string, t': Table, count: nat) {
    r.Ok? && table in r.value.0.tables && r.value.0.tables[table] == t' && r.value.1 == count
  }

  lemma {:induction false} InsertedExact(db: Db, table: string, target: Option<seq<string>>, cols: seq<string>,
                                         action: ConflictAction, given: seq<Values>)
    requires Inv(db) && table in db.catalog && db.session.txn.Some? && table in db.tables
    requires ConflictColumns(db.catalog[table], target) == Ok(cols)
    requires FindUniqueIndex(db.catalog[table].indexes, cols).Some?
    ensures var r := InsertRows(db, table, Some(OnConflict(target, action)), given);
      && (r.Ok? ==> KeepsRest(db, r.value.0, table))
      && forall t', count: nat ::
           Inserted(db.catalog[table], cols, db.tables[table], action, given, t', count)
           <==> Reaches(r, table, t', count)
    decreases |given|
  {
    hide Inv, InsertOne, ConflictColumns, FindUniqueIndex, OneInserted, KeepsRest, Inserted;
    var schema, t := db.catalog[table], db.tables[table];
    SameRest(db, table);
    if given == [] {
      forall t', count: nat ensures Inserted(schema, cols, t, action, given, t', count) <==> (t', count) == (t, 0) {
        NothingGiven(schema, cols, t, action, t', count);
      }
    } else {
      var init, last := given[..|given| - 1], given[|given| - 1];
      assert given == init + [last];
      var before := InsertRows(db, table, Some(OnConflict(target, action)), init);
      InsertedExact(db, table, target, cols, action, init);
      var r := InsertRows(db, table, Some(OnConflict(target, action)), given);
      if before.Ok? {
        LastExact(db, table, target, cols, action, before.value.0, last);
      }
      forall t', count: nat
        ensures Inserted(schema, cols, t, action, given, t', count) <==> Reaches(r, table, t', count)
      {
        InsertedSnoc(schema, cols, t, action, init, last, t', count);
        if before.Ok? {
          RestHasTable(db, before.value.0, table);
          assert Reaches(before, table, before.value.0.tables[table], before.value.1);
        }
      }
    }
  }

  lemma LastExact(db: Db, table: string, target: Option<seq<string>>, cols: seq<string>, action: ConflictAction,
                  mid: Db, last: Values)
    requires Inv(db) && table in db.catalog && db.session.txn.Some? && KeepsRest(db, mid, table)
    requires ConflictColumns(db.catalog[table], target) == Ok(cols)
    requires FindUniqueIndex(db.catalog[table].indexes, cols).Some?
    ensures table in mid.tables && table in mid.catalog
    ensures var one := InsertOne(mid, table, Some(OnConflict(target, action)), last);
      && (one.Ok? ==> KeepsRest(db, one.value.0, table))
      && forall t', k: nat ::
           OneInserted(db.catalog[table], cols, mid.tables[table], action, last, t', k) <==> Reaches(one, table, t', k)
  {
    hide Inv, InsertOne, ConflictColumns, FindUniqueIndex, OneInserted, KeepsRest;
    RestHasTable(db, mid, table);
    forall t', k: nat
      ensures OneInserted(db.catalog[table], cols, mid.tables[table], action, last, t', k)
        <==> Reaches(InsertOne(mid, table, Some(OnConflict(target, action)), last), table, t', k)
    {
      OneInsertedExact(mid, table, target, cols, action, last, t', k);
    }
    OneInsertedExact(mid, table, target, cols, action, last, EMPTY_TABLE, 0);
    if InsertOne(mid, table, Some(OnConflict(target, action)), last).Ok? {
      RestTwice(db, mid, InsertOne(mid, table, Some(OnConflict(target, action)), last).value.0, table);
    }
  }

  lemma RestTwice(a: Db, b: Db, c: Db, table: string)
    requires KeepsRest(a, b, table) && KeepsRest(b, c, table)
    ensures KeepsRest(a, c, table)
  {
    hide Inv;
  }

  /**
   INSERT with ON CONFLICT, DO NOTHING or DO UPDATE.  With a unique index on the conflict columns the
   statement succeeds exactly if there is a table its VALUES rows lead to, one after the other, and
   then it leaves that table and that count, and no other table changes.
   */
  lemma OnConflictEffect(db: Db, table: string, target: Option<seq<string>>, cols: seq<string>, action: ConflictAction,
                         given: seq<Values>)
    requires Inv(db) && table in db.catalog
    requires ConflictColumns(db.catalog[table], target) == Ok(cols)
    requires FindUniqueIndex(db.catalog[table].indexes, cols).Some?
    ensures table in db.tables
    ensures var r := InsertStatement(db, table, Some(OnConflict(target, action)), given);
      && (r.Ok? ==> OnlyTable(db, r.value.0, table) && Inv(r.value.0))
      && forall t', count: nat ::
           Inserted(db.catalog[table], cols, db.tables[table], action, given, t', count)
           <==> Reaches(r, table, t', count)
  {
    hide Inv, InsertRows, ConflictColumns, FindUniqueIndex, Inserted, IdsBounded;
    KnownTable(db, table);
    OpenedSame(db);
    InsertedExact(Opened(db), table, target, cols, action, given);
    var done := InsertRows(Opened(db), table, Some(OnConflict(target, action)), given);
    if done.Ok? {
      SameData(done.value.0, InsertStatement(db, table, Some(OnConflict(target, action)), given).value.0);
    }
  }

  /** Without such an index, or without a primary key where the clause names no columns, it is refused. */
  lemma NoConflictTarget(db: Db, table: string, onConflict: OnConflict, given: seq<Values>)
    requires Inv(db) && table in db.catalog && given != []
    requires var cols := ConflictColumns(db.catalog[table], onConflict.target);
      cols.Err? || FindUniqueIndex(db.catalog[table].indexes, cols.value).None?
    ensures InsertStatement(db, table, Some(onConflict), given).Err?
  {
    hide Inv;
    OpenedSame(db);
    NoRowWithoutTarget(Opened(db), table, onConflict, given);
  }

  lemma {:induction false} NoRowWithoutTarget(db: Db, table: string, onConflict: OnConflict, given: seq<Values>)
    requires table in db.catalog && given != []
    requires var cols := ConflictColumns(db.catalog[table], onConflict.target);
      cols.Err? || FindUniqueIndex(db.catalog[table].indexes, cols.value).None?
    ensures InsertRows(db, table, Some(onConflict), given).Err?
    decreases |given|
  {
    hide ConflictColumns, FindUniqueIndex, Proposed;
    if |given| > 1 {
      NoRowWithoutTarget(db, table, onConflict, given[..|given| - 1]);
    } else {
      assert given[..|given| - 1] == [];
    }
  }

  // ---- Two assignments of the conflict clause, spelled out.

  lemma OneAssignment(schema: TableSchema, row: Values, a: Assignment, excluded: Option<Values>, k: nat, v: Value,
                      row': Values)
    requires Position(ColNames(schema), a.column) == Some(k) && |row| == |schema.columns|
    requires Eval(a.value, row, ColNames(schema), excluded) == Ok(v) && CoerceTo(v, schema.columns[k].dataType) == Ok(v)
    requires ChangedRow(schema, row, [a], excluded, row')
    ensures row' == row[k := v]
  {
    hide Position, Eval, CoerceTo, AllAssignable, AssignedRow;
    ChangedExact(schema, row, [a], excluded, row');
    assert [a][..0] == [];
    assert Assigned(schema, row, [], excluded) == Ok(row);
    assert Assigned(schema, row, [a], excluded) == AssignOne(schema, row, a, excluded);
  }

  /** What a cell was converted to stays when it is converted again. */
  lemma ConvertedTwice(given: Value, v: Value, target: DataType)
    requires CoerceTo(given, target) == Ok(v)
    ensures CoerceTo(v, target) == Ok(v)
  {
    hide CoerceTo;
  }

  /** `SET c = EXCLUDED.c` puts the proposed row's cell in place of the stored one. */
  lemma SetExcluded(schema: TableSchema, row: Values, given: Values, proposed: Values, word: string, c: string, k: nat,
                    row': Values)
    requires Position(ColNames(schema), c) == Some(k) == ColumnPosition(ColNames(schema), c)
    requires |row| == |schema.columns| && EqIgnoreCase(word, "excluded") && RowFor(schema.columns, given, proposed)
    requires ChangedRow(schema, row, [Assignment(c, CompoundIdentifier([word, c]))], Some(proposed), row')
    ensures row' == row[k := proposed[k]]
  {
    hide Position, ColumnPosition, Eval, CoerceTo, ChangedRow, EqIgnoreCase;
    var names := ColNames(schema);
    ExcludedReads([word, c], row, names, proposed);
    NameValue(c, proposed, names, None);
    assert CellFor(schema.columns[k], if k < |given| then given[k] else Null, proposed[k]);
    ConvertedTwice(if k < |given| then given[k] else Null, proposed[k], schema.columns[k].dataType);
    OneAssignment(schema, row, Assignment(c, CompoundIdentifier([word, c])), Some(proposed), k, proposed[k], row');
  }

  /** `SET c = c` reads the stored row and changes nothing. */
  lemma SetItself(schema: TableSchema, row: Values, proposed: Values, c: string, k: nat, row': Values)
    requires Position(ColNames(schema), c) == Some(k) == ColumnPosition(ColNames(schema), c)
    requires |row| == |schema.columns| && CoerceTo(row[k], schema.columns[k].dataType) == Ok(row[k])
    requires ChangedRow(schema, row, [Assignment(c, Identifier(c))], Some(proposed), row')
    ensures row' == row
  {
    hide Position, ColumnPosition, Eval, CoerceTo, ChangedRow;
    NameValue(c, row, ColNames(schema), Some(proposed));
    OneAssignment(schema, row, Assignment(c, Identifier(c)), Some(proposed), k, row[k], row');
  }

  /** A conflict clause without columns means the columns declared PRIMARY KEY, and needs one. */
  lemma DefaultTarget(schema: TableSchema)
    ensures ConflictColumns(schema, None).Ok? <==> HasPrimary(schema.columns)
    ensures ConflictColumns(schema, None).Ok? ==>
      forall name :: name in ConflictColumns(schema, None).value <==> IsKeyName(schema.columns, name)
  {
    hide PrimaryKey;
    var cols := PrimaryKey(schema.columns);
    forall name ensures name in cols <==> IsKeyName(schema.columns, name) {
      PrimaryKeyNames(schema.columns, name);
    }
    if HasPrimary(schema.columns) {
      var i :| 0 <= i < |schema.columns| && schema.columns[i].primaryKey;
      assert IsKeyName(schema.columns, schema.columns[i].name);
    }
    if cols != [] {
      assert IsKeyName(schema.columns, cols[0]);
    }
  }
}

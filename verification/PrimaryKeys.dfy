/** What PRIMARY KEY in CREATE TABLE promises of every state that follows. */
module PrimaryKeys {
  import opened Types
  import opened WalFormat
  import opened Tables
  import opened Index
  import opened Catalog
  import opened TableIndexes
  import opened Scans
  import opened Engine
  import opened Rollback
  import opened Agreement
  import opened StatementEffects
  import opened InsertEffects

  ghost predicate HasPrimary(columns: seq<ColumnDef>) {
    exists i :: 0 <= i < |columns| && columns[i].primaryKey
  }

  /** The two rows hold the same in every column declared PRIMARY KEY. */
  ghost predicate AgreeOnPrimary(columns: seq<ColumnDef>, a: Values, b: Values) {
    forall i :: 0 <= i < |columns| && columns[i].primaryKey ==> CellAt(a, i) == CellAt(b, i)
  }

  ghost predicate PrimaryKeyHolds(db: Db, table: string, columns: seq<ColumnDef>) {
    && table in db.tables
    && var rows := db.tables[table].rows;
       forall x, y :: x in rows && y in rows && x != y ==> !AgreeOnPrimary(columns, rows[x].values, rows[y].values)
  }

  ghost predicate NamedBefore(columns: seq<ColumnDef>, j: nat, i: nat) {
    && j <= i < |columns| && EqIgnoreCase(columns[j].name, columns[i].name)
    && forall k :: 0 <= k < j ==> !EqIgnoreCase(columns[k].name, columns[i].name)
  }

  /** No column of the primary key hides behind an earlier one of the same name that is not of the key. */
  ghost predicate NotHidden(columns: seq<ColumnDef>) {
    forall i: nat, j: nat :: NamedBefore(columns, j, i) && columns[i].primaryKey ==> columns[j].primaryKey
  }

  // ---- The names of the key.

  ghost predicate IsKeyName(columns: seq<ColumnDef>, name: string) {
    exists i :: 0 <= i < |columns| && columns[i].primaryKey && columns[i].name == name
  }

  lemma IsKeyNameSnoc(init: seq<ColumnDef>, last: ColumnDef, name: string)
    ensures IsKeyName(init + [last], name) <==> IsKeyName(init, name) || (last.primaryKey && last.name == name)
  {
    var columns := init + [last];
    assert columns[|init|] == last;
    if IsKeyName(init, name) {
      var i :| 0 <= i < |init| && init[i].primaryKey && init[i].name == name;
      assert columns[i] == init[i];
    }
  }

  lemma {:induction false} PrimaryKeyNames(columns: seq<ColumnDef>, name: string)
    ensures name in PrimaryKey(columns) <==> IsKeyName(columns, name)
  {
    hide IsKeyName;
    if columns == [] {
      NoKeyName(name);
    } else {
      var init, last := columns[..|columns| - 1], columns[|columns| - 1];
      assert columns == init + [last];
      PrimaryKeyNames(init, name);
      IsKeyNameSnoc(init, last, name);
    }
  }

  lemma NoKeyName(name: string)
    ensures !IsKeyName([], name)
  {
  }

  lemma KeyCellFound(schema: TableSchema, name: string, i: nat) returns (j: nat)
    requires i < |schema.columns| && schema.columns[i].name == name
    ensures NamedBefore(schema.columns, j, i) && Position(ColNames(schema), name) == Some(j)
  {
    var names := ColNames(schema);
    assert EqIgnoreCase(names[i], name);
    var found := Position(names, name);
    assert found.Some?;
    j := found.value;
    assert forall k :: 0 <= k < |names| ==> names[k] == schema.columns[k].name;
    assert j <= i;
    assert EqIgnoreCase(schema.columns[j].name, schema.columns[i].name);
    forall k | 0 <= k < j ensures !EqIgnoreCase(schema.columns[k].name, schema.columns[i].name) {
      assert names[k] == schema.columns[k].name;
    }
  }

  function KeyIn(schema: TableSchema, row: Values): Key {
    KeyOf(PrimaryKey(schema.columns), ColNames(schema), row)
  }

  /** Rows that agree on the declared columns have the same key. */
  lemma AgreeingSameKey(schema: TableSchema, a: Values, b: Values)
    requires NotHidden(schema.columns) && AgreeOnPrimary(schema.columns, a, b)
    ensures KeyIn(schema, a) == KeyIn(schema, b)
  {
    hide Position, EqIgnoreCase, Comparable, CellAt, NamedBefore;
    var cols := PrimaryKey(schema.columns);
    forall q | 0 <= q < |cols| ensures KeyCell(cols[q], ColNames(schema), a) == KeyCell(cols[q], ColNames(schema), b) {
      PrimaryKeyNames(schema.columns, cols[q]);
      var i :| 0 <= i < |schema.columns| && schema.columns[i].primaryKey && schema.columns[i].name == cols[q];
      var j := KeyCellFound(schema, cols[q], i);
    }
  }

  // ---- The definition stays.

  ghost predicate Defined(db: Db, table: string, columns: seq<ColumnDef>) {
    && table in db.catalog && db.catalog[table].columns == columns
    && PrimaryIndex(table, columns) <= db.catalog[table].indexes
  }

  lemma StepKeepsDefinition(db: Db, e: Event, table: string, columns: seq<ColumnDef>)
    requires Defined(db, table, columns) && Step(db, e).Ok?
    ensures Defined(Step(db, e).value, table, columns)
  {
    hide InsertRow, UpdateRow, DeleteRow, PrimaryIndex, Build, Scan;
    if !e.IsDdl() {
      StepKeepsCatalog(db, e);
    }
  }

  lemma StepKeepsCatalog(db: Db, e: Event)
    requires Step(db, e).Ok? && !e.IsDdl()
    ensures Step(db, e).value.catalog == db.catalog
  {
    hide AddRow, DropRow, ColNames, SetIndexes, UndoStep;
    if e.ERollback? {
      UndoKeepsCatalog(Logged(db, WalOp.Abort(db.session.txn.value)).(session := IDLE), db.session.undo);
    }
  }

  lemma {:induction false} UndoKeepsCatalog(db: Db, undo: seq<UndoRecord>)
    requires UndoAll(db, undo).Ok?
    ensures UndoAll(db, undo).value.catalog == db.catalog
    decreases |undo|
  {
    hide UndoStep;
    if undo != [] {
      UndoKeepsRest(db, undo[|undo| - 1]);
      UndoKeepsCatalog(UndoStep(db, undo[|undo| - 1]).value, undo[..|undo| - 1]);
    }
  }

  lemma {:induction false} RunKeepsDefinition(db: Db, es: seq<Event>, table: string, columns: seq<ColumnDef>)
    requires Defined(db, table, columns) && Run(db, es).Ok?
    ensures Defined(Run(db, es).value, table, columns)
  {
    hide Defined, Step;
    if es != [] {
      RunKeepsDefinition(db, es[..|es| - 1], table, columns);
      StepKeepsDefinition(Run(db, es[..|es| - 1]).value, es[|es| - 1], table, columns);
    }
  }

  lemma CreatedDefined(db: Db, table: string, columns: seq<ColumnDef>)
    requires CreateTable(db, table, columns).Ok?
    ensures Defined(CreateTable(db, table, columns).value, table, columns)
  {
    hide PrimaryIndex;
  }

  /** A table defined so, whose indexes agree with its rows, holds no key twice. */
  lemma DefinedHolds(db: Db, table: string, columns: seq<ColumnDef>)
    requires Inv(db) && Defined(db, table, columns) && HasPrimary(columns) && NotHidden(columns)
    ensures PrimaryKeyHolds(db, table, columns)
  {
    hide TableOk, KeyOf, UniqueRows, AgreeOnPrimary, NotHidden;
    InvUnique(db);
    var schema, rows := db.catalog[table], db.tables[table].rows;
    var i :| 0 <= i < |columns| && columns[i].primaryKey;
    PrimaryKeyNames(columns, columns[i].name);
    PrimaryUnique(schema, RowVals(rows));
    forall x, y | x in rows && y in rows && x != y ensures !AgreeOnPrimary(columns, rows[x].values, rows[y].values) {
      assert x in RowVals(rows) && y in RowVals(rows);
      if AgreeOnPrimary(columns, rows[x].values, rows[y].values) {
        AgreeingSameKey(schema, rows[x].values, rows[y].values);
      }
    }
  }

  lemma PrimaryUnique(schema: TableSchema, rows: RowValues)
    requires UniqueRows(schema, rows) && PrimaryKey(schema.columns) != []
    requires exists table :: PrimaryIndex(table, schema.columns) <= schema.indexes
    ensures forall x, y :: x in rows && y in rows && x != y ==>
      KeyIn(schema, rows[x]) != KeyIn(schema, rows[y])
  {
    hide KeyOf;
    var table :| PrimaryIndex(table, schema.columns) <= schema.indexes;
    assert schema.indexes[0] == PrimaryIndex(table, schema.columns)[0];
    assert UniqueFor(schema.indexes[0], ColNames(schema), rows);
    var keys := KeysOf(schema.indexes[0].columns, ColNames(schema), rows);
    forall x, y | x in rows && y in rows && x != y
      ensures KeyIn(schema, rows[x]) != KeyIn(schema, rows[y])
    {
      assert keys[x] != keys[y];
    }
  }

  /** After CREATE TABLE, in every state a run reaches: no two rows agree on the declared columns. */
  lemma PrimaryKeyKept(db: Db, table: string, columns: seq<ColumnDef>, es: seq<Event>)
    requires AgreementInv(db) && CreateTable(db, table, columns).Ok? && HasPrimary(columns) && NotHidden(columns)
    requires Run(CreateTable(db, table, columns).value, es).Ok?
    ensures PrimaryKeyHolds(Run(CreateTable(db, table, columns).value, es).value, table, columns)
  {
    hide Inv, CreateTable, Run, Defined, PrimaryKeyHolds, HasPrimary, NotHidden;
    var created := CreateTable(db, table, columns).value;
    StepKeepsAgreement(db, ECreateTable(table, columns));
    CreatedDefined(db, table, columns);
    RunKeepsAgreement(created, es);
    RunKeepsDefinition(created, es, table, columns);
    DefinedHolds(Run(created, es).value, table, columns);
  }

  // ---- A hidden column of the key does not count.

  /** NULL everywhere but in column `j`. */
  function OnlyCell(n: nat, j: nat, v: Value): Values {
    seq(n, i requires 0 <= i < n => if i == j then v else Null)
  }

  lemma OneRowUnique(schema: TableSchema, id: RowId, v: Values)
    ensures UniqueRows(schema, map[id := v])
  {
    hide KeyOf;
    forall i | 0 <= i < |schema.indexes| ensures UniqueFor(schema.indexes[i], ColNames(schema), map[id := v]) {
    }
  }

  lemma TwoRowsUnique(schema: TableSchema, table: string, a: Values, b: Values)
    requires schema.indexes == PrimaryIndex(table, schema.columns)
    requires KeyIn(schema, a) != KeyIn(schema, b)
    ensures UniqueRows(schema, map[1 := a, 2 := b])
  {
    hide KeyOf, ColNames;
    var rows: RowValues := map[1 := a, 2 := b];
    forall i | 0 <= i < |schema.indexes| ensures UniqueFor(schema.indexes[i], ColNames(schema), rows) {
      var keys := KeysOf(schema.indexes[i].columns, ColNames(schema), rows);
      assert keys[1] != keys[2];
    }
  }

  // The key reads the earlier column, in which the two rows differ.
  lemma DifferentKeys(schema: TableSchema, i: nat, j: nat, a: Value, b: Value)
    requires NamedBefore(schema.columns, j, i) && schema.columns[i].primaryKey
    requires Comparable(a) != Comparable(b)
    ensures var cols, n := PrimaryKey(schema.columns), |schema.columns|;
      KeyOf(cols, ColNames(schema), OnlyCell(n, j, a)) != KeyOf(cols, ColNames(schema), OnlyCell(n, j, b))
  {
    hide Comparable, EqIgnoreCase;
    var cols, name, n := PrimaryKey(schema.columns), schema.columns[i].name, |schema.columns|;
    PrimaryKeyNames(schema.columns, name);
    var q :| 0 <= q < |cols| && cols[q] == name;
    var k := KeyCellFound(schema, name, i);
    assert k == j;
    assert KeyCell(cols[q], ColNames(schema), OnlyCell(n, j, a)) == a;
    assert KeyCell(cols[q], ColNames(schema), OnlyCell(n, j, b)) == b;
    assert KeyOf(cols, ColNames(schema), OnlyCell(n, j, a))[q] != KeyOf(cols, ColNames(schema), OnlyCell(n, j, b))[q];
  }

  lemma HiddenAgree(columns: seq<ColumnDef>, j: nat, a: Value, b: Value)
    requires j < |columns| && !columns[j].primaryKey
    ensures AgreeOnPrimary(columns, OnlyCell(|columns|, j, a), OnlyCell(|columns|, j, b))
  {
  }

  lemma TwoInsertions(db: Db, table: string, a: Values, b: Values)
    requires Inv(db) && table in db.catalog && db.session.txn.Some?
    requires table in db.tables && db.tables[table] == EMPTY_TABLE
    requires UniqueRows(db.catalog[table], map[1 := a]) && UniqueRows(db.catalog[table], map[1 := a, 2 := b])
    ensures InsertRow(db, table, a).Ok? && InsertRow(InsertRow(db, table, a).value, table, b).Ok?
    ensures var db' := InsertRow(InsertRow(db, table, a).value, table, b).value;
      && table in db'.tables && 1 in db'.tables[table].rows && 2 in db'.tables[table].rows
      && db'.tables[table].rows[1].values == a && db'.tables[table].rows[2].values == b
  {
    hide Inv, InsertRow, UniqueRows, RowVals;
    InsertExact(db, table, a);
    NothingStored();
    InsertStores(db, table, a);
    KeptTxn(db, table, a);
    var one := InsertRow(db, table, a).value;
    OneStored(a);
    InsertExact(one, table, b);
    assert map[1 := a][2 := b] == map[1 := a, 2 := b];
    InsertStores(one, table, b);
  }

  lemma HiddenRowsFit(schema: TableSchema, table: string, i: nat, j: nat) returns (a: Values, b: Values)
    requires schema.indexes == PrimaryIndex(table, schema.columns)
    requires NamedBefore(schema.columns, j, i) && schema.columns[i].primaryKey && !schema.columns[j].primaryKey
    ensures AgreeOnPrimary(schema.columns, a, b)
    ensures UniqueRows(schema, map[1 := a]) && UniqueRows(schema, map[1 := a, 2 := b])
  {
    hide KeyOf, UniqueRows, OnlyCell;
    var n := |schema.columns|;
    a, b := OnlyCell(n, j, Int4(1)), OnlyCell(n, j, Int4(2));
    HiddenAgree(schema.columns, j, Int4(1), Int4(2));
    OneRowUnique(schema, 1, a);
    DifferentKeys(schema, i, j, Int4(1), Int4(2));
    TwoRowsUnique(schema, table, a, b);
  }

  /** Two rows of such a table that agree on all declared columns. */
  lemma HiddenKeyFails(db: Db, table: string, columns: seq<ColumnDef>) returns (es: seq<Event>)
    requires AgreementInv(db) && db.session.txn == None
    requires CreateTable(db, table, columns).Ok? && !NotHidden(columns)
    ensures Run(CreateTable(db, table, columns).value, es).Ok?
    ensures !PrimaryKeyHolds(Run(CreateTable(db, table, columns).value, es).value, table, columns)
  {
    hide Inv, CreateTable, Run, InsertRow, UniqueRows, AgreeOnPrimary, PrimaryIndex, EqIgnoreCase;
    var created := CreateTable(db, table, columns).value;
    StepKeepsAgreement(db, ECreateTable(table, columns));
    CreatedEmpty(db, table, columns);
    var begun := BeginTxn(created, false).value;
    SameData(created, begun);
    var i: nat, j: nat :| NamedBefore(columns, j, i) && columns[i].primaryKey && !columns[j].primaryKey;
    var a, b := HiddenRowsFit(created.catalog[table], table, i, j);
    TwoInsertions(begun, table, a, b);
    var one := InsertRow(begun, table, a).value;
    es := [EBegin, EInsert(table, a), EInsert(table, b)];
    RunNothing(created);
    RunSnoc(created, [], created, EBegin, [EBegin]);
    RunSnoc(created, [EBegin], begun, EInsert(table, a), [EBegin, EInsert(table, a)]);
    RunSnoc(created, [EBegin, EInsert(table, a)], one, EInsert(table, b), es);
  }

  lemma NothingStored()
    ensures RowVals(EMPTY_TABLE.rows) == map[]
  {
  }

  lemma OneStored(a: Values)
    ensures RowVals(InsertNew(EMPTY_TABLE, NewRow(a)).rows) == map[1 := a]
  {
  }

  lemma KeptTxn(db: Db, table: string, v: Values)
    requires InsertRow(db, table, v).Ok?
    ensures InsertRow(db, table, v).value.session.txn == db.session.txn
  {
    hide AddRow, SetIndexes, ColNames;
  }

  lemma CreatedEmpty(db: Db, table: string, columns: seq<ColumnDef>)
    requires Inv(db) && CreateTable(db, table, columns).Ok?
    ensures var created := CreateTable(db, table, columns).value;
      && created.session == db.session
      && table in created.catalog
      && created.catalog[table] == TableSchema(columns, PrimaryIndex(table, columns))
      && table in created.tables && created.tables[table] == EMPTY_TABLE
  {
    hide PrimaryIndex, EmptyIndex, TableOk;
  }

  /**
   CREATE TABLE with a primary key: no run ever stores two rows that agree on all declared columns,
   exactly if none of these has an earlier namesake that is not declared.
   */
  lemma PrimaryKeyExact(db: Db, table: string, columns: seq<ColumnDef>)
    requires AgreementInv(db) && db.session.txn == None
    requires CreateTable(db, table, columns).Ok? && HasPrimary(columns)
    ensures (forall es :: Run(CreateTable(db, table, columns).value, es).Ok? ==>
               PrimaryKeyHolds(Run(CreateTable(db, table, columns).value, es).value, table, columns))
      <==> NotHidden(columns)
  {
    hide Inv, CreateTable, Run, PrimaryKeyHolds, HasPrimary, NotHidden;
    if NotHidden(columns) {
      forall es | Run(CreateTable(db, table, columns).value, es).Ok?
        ensures PrimaryKeyHolds(Run(CreateTable(db, table, columns).value, es).value, table, columns)
      {
        PrimaryKeyKept(db, table, columns, es);
      }
    } else {
      var es := HiddenKeyFails(db, table, columns);
    }
  }
}

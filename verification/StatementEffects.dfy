/** What UPDATE and DELETE do to a table as a set of rows. */
module StatementEffects {
  import opened Types
  import opened Tables
  import opened Index
  import opened Catalog
  import opened TableIndexes
  import opened Scans
  import opened Engine
  import opened Rollback
  import opened Expressions
  import opened Statements
  import opened Assignments

  ghost predicate Selected(where: Option<Expr>, colNames: seq<string>, row: Row) {
    Selects(where, row.values, colNames, None) == Ok(true)
  }

  ghost function SelectedIn(where: Option<Expr>, colNames: seq<string>, scan: seq<(RowId, Row)>): set<RowId> {
    set k | 0 <= k < |scan| && Selected(where, colNames, scan[k].1) :: scan[k].0
  }

  lemma SelectedSnoc(where: Option<Expr>, colNames: seq<string>, scan: seq<(RowId, Row)>, p: (RowId, Row))
    ensures SelectedIn(where, colNames, scan + [p])
      == SelectedIn(where, colNames, scan) + if Selected(where, colNames, p.1) then {p.0} else {}
  {
    hide Selected;
    var all := scan + [p];
    forall id | id in SelectedIn(where, colNames, scan) ensures id in SelectedIn(where, colNames, all) {
      var k :| 0 <= k < |scan| && Selected(where, colNames, scan[k].1) && scan[k].0 == id;
      assert all[k] == scan[k];
    }
    if Selected(where, colNames, p.1) {
      assert all[|scan|] == p;
    }
  }

  /** Row `id` of an updated table: changed by the assignments if it was selected, else untouched. */
  ghost predicate RowUpdated(t: Table, t': Table, schema: TableSchema, assignments: seq<Assignment>,
                             where: Option<Expr>, id: RowId)
    requires id in t.rows && id in t'.rows
  {
    if Selected(where, ColNames(schema), t.rows[id])
    then Changed(schema, t.rows[id].values, assignments, None) == Ok(t'.rows[id].values)
         && t'.rows[id].version == t.rows[id].version + 1
    else t'.rows[id] == t.rows[id]
  }

  ghost predicate OnlyTable(db: Db, db': Db, table: string) {
    && table in db.tables && table in db'.tables
    && forall u :: u in db.tables && u != table ==> u in db'.tables && db'.tables[u] == db.tables[u]
  }

  ghost predicate OneUpdated(t: Table, t': Table, schema: TableSchema, assignments: seq<Assignment>,
                             where: Option<Expr>, id: RowId) {
    && t'.rows.Keys == t.rows.Keys && t'.nextId == t.nextId && id in t.rows
    && (forall x :: x in t.rows && x != id ==> t'.rows[x] == t.rows[x])
    && RowUpdated(t, t', schema, assignments, where, id)
  }

  ghost predicate Listed(scan: seq<(RowId, Row)>, id: RowId) {
    exists k :: 0 <= k < |scan| && scan[k].0 == id
  }

  lemma UpdateOneEffect(db: Db, table: string, schema: TableSchema, assignments: seq<Assignment>,
                        where: Option<Expr>, p: (RowId, Row))
    requires UpdateOne(db, table, schema, assignments, where, p).Ok?
    requires table in db.tables && p.0 in db.tables[table].rows && db.tables[table].rows[p.0] == p.1
    ensures var (db', n) := UpdateOne(db, table, schema, assignments, where, p).value;
      && OnlyTable(db, db', table)
      && OneUpdated(db.tables[table], db'.tables[table], schema, assignments, where, p.0)
      && n == if Selected(where, ColNames(schema), p.1) then 1 else 0
  {
    hide UpdateRow, Changed, Selects, ColNames, Replaced, AddRow, DropRow;
    if Selects(where, p.1.values, ColNames(schema), None) == Ok(true) {
      var values := Changed(schema, p.1.values, assignments, None).value;
      UpdateReplaces(db, table, p.0, values);
      var t, m := TableOf(db.tables, table), IndexesOf(db.indexes, table);
      var added := AddRow(DropRow(m, Cols(db, table), p.1.values, p.0), Cols(db, table), values, p.0);
      ReplacedTables(db, table, t.(rows := t.rows[p.0 := Row(values, p.1.version + 1)]), added.value,
                     UpdateRow(db, table, p.0, values).value);
    }
  }

  /** What an UPDATE has done once the rows `scan` are processed. */
  ghost predicate UpdatedBy(t: Table, t': Table, schema: TableSchema, assignments: seq<Assignment>,
                            where: Option<Expr>, scan: seq<(RowId, Row)>) {
    && t'.rows.Keys == t.rows.Keys && t'.nextId == t.nextId
    && forall id :: id in t.rows ==>
         if Listed(scan, id)
         then RowUpdated(t, t', schema, assignments, where, id)
         else t'.rows[id] == t.rows[id]
  }

  ghost predicate ScanOf(t: Table, scan: seq<(RowId, Row)>) {
    && StrictlySorted(scan)
    && forall k :: 0 <= k < |scan| ==> scan[k].0 in t.rows && t.rows[scan[k].0] == scan[k].1
  }

  lemma {:induction false} UpdateRowsEffect(db: Db, table: string, schema: TableSchema, assignments: seq<Assignment>,
                                            where: Option<Expr>, scan: seq<(RowId, Row)>)
    requires UpdateRows(db, table, schema, assignments, where, scan).Ok?
    requires table in db.tables && ScanOf(db.tables[table], scan)
    ensures var (db', count) := UpdateRows(db, table, schema, assignments, where, scan).value;
      && OnlyTable(db, db', table)
      && UpdatedBy(db.tables[table], db'.tables[table], schema, assignments, where, scan)
      && count == |SelectedIn(where, ColNames(schema), scan)|
    decreases |scan|
  {
    hide UpdateOne, SelectedIn, Selected, ColNames, UpdatedBy, OneUpdated, ScanOf, Listed;
    if scan == [] {
      NoneSelected(where, ColNames(schema));
      NothingUpdated(db.tables[table], schema, assignments, where);
    } else {
      var init, last := scan[..|scan| - 1], scan[|scan| - 1];
      assert scan == init + [last];
      UpdateRowsLast(db, table, schema, assignments, where, scan);
      hide UpdateRows;
      NotScannedYet(db.tables[table], init, last);
      UpdateRowsEffect(db, table, schema, assignments, where, init);
      var (mid, n) := UpdateRows(db, table, schema, assignments, where, init).value;
      StillThere(db.tables[table], mid.tables[table], schema, assignments, where, init, last);
      UpdateOneEffect(mid, table, schema, assignments, where, last);
      var (db', k) := UpdateOne(mid, table, schema, assignments, where, last).value;
      UpdatedOneMore(db.tables[table], mid.tables[table], db'.tables[table], schema, assignments, where, init, last);
      SelectedSnoc(where, ColNames(schema), init, last);
      LastNotSelected(where, ColNames(schema), init, last.0);
    }
  }

  lemma UpdateRowsLast(db: Db, table: string, schema: TableSchema, assignments: seq<Assignment>,
                       where: Option<Expr>, scan: seq<(RowId, Row)>)
    requires scan != [] && UpdateRows(db, table, schema, assignments, where, scan).Ok?
    ensures var before := UpdateRows(db, table, schema, assignments, where, scan[..|scan| - 1]);
      && before.Ok?
      && var one := UpdateOne(before.value.0, table, schema, assignments, where, scan[|scan| - 1]);
         && one.Ok?
         && UpdateRows(db, table, schema, assignments, where, scan).value == (one.value.0, before.value.1 + one.value.1)
  {
    hide UpdateOne;
  }

  lemma NothingUpdated(t: Table, schema: TableSchema, assignments: seq<Assignment>, where: Option<Expr>)
    ensures UpdatedBy(t, t, schema, assignments, where, [])
  {
  }

  lemma StillThere(t: Table, mid: Table, schema: TableSchema, assignments: seq<Assignment>, where: Option<Expr>,
                   init: seq<(RowId, Row)>, last: (RowId, Row))
    requires UpdatedBy(t, mid, schema, assignments, where, init) && !Listed(init, last.0)
    requires last.0 in t.rows && t.rows[last.0] == last.1
    ensures last.0 in mid.rows && mid.rows[last.0] == last.1
  {
    hide RowUpdated, Listed;
  }

  lemma NoneSelected(where: Option<Expr>, colNames: seq<string>)
    ensures SelectedIn(where, colNames, []) == {}
  {
  }

  lemma NotScannedYet(t: Table, init: seq<(RowId, Row)>, last: (RowId, Row))
    requires ScanOf(t, init + [last])
    ensures ScanOf(t, init) && !Listed(init, last.0)
    ensures last.0 in t.rows && t.rows[last.0] == last.1
  {
    var scan := init + [last];
    assert scan[|init|] == last;
    assert forall k :: 0 <= k < |init| ==> scan[k] == init[k] && scan[k].0 < scan[|init|].0;
  }

  lemma LastNotSelected(where: Option<Expr>, colNames: seq<string>, init: seq<(RowId, Row)>, id: RowId)
    requires !Listed(init, id)
    ensures id !in SelectedIn(where, colNames, init)
  {
    hide Selected;
  }

  lemma ListedSnoc(init: seq<(RowId, Row)>, last: (RowId, Row), id: RowId)
    ensures Listed(init + [last], id) <==> Listed(init, id) || id == last.0
  {
    var scan := init + [last];
    assert scan[|init|] == last;
    if Listed(init, id) {
      var k :| 0 <= k < |init| && init[k].0 == id;
      assert scan[k].0 == id;
    }
  }

  lemma UpdatedOneMore(t: Table, mid: Table, t': Table, schema: TableSchema, assignments: seq<Assignment>,
                       where: Option<Expr>, init: seq<(RowId, Row)>, last: (RowId, Row))
    requires UpdatedBy(t, mid, schema, assignments, where, init) && !Listed(init, last.0)
    requires OneUpdated(mid, t', schema, assignments, where, last.0)
    ensures UpdatedBy(t, t', schema, assignments, where, init + [last])
  {
    hide Selected, Changed, ColNames, Listed;
    assert mid.rows[last.0] == t.rows[last.0];
    forall id | id in t.rows
      ensures if Listed(init + [last], id) then RowUpdated(t, t', schema, assignments, where, id)
              else t'.rows[id] == t.rows[id]
    {
      ListedSnoc(init, last, id);
    }
  }

  /** Row `id` of an updated table, cell by cell. */
  ghost predicate RowReassigned(t: Table, t': Table, schema: TableSchema, assignments: seq<Assignment>,
                                where: Option<Expr>, id: RowId)
    requires id in t.rows && id in t'.rows
  {
    if Selected(where, ColNames(schema), t.rows[id])
    then
      && ChangedRow(schema, t.rows[id].values, assignments, None, t'.rows[id].values)
      && t'.rows[id].version == t.rows[id].version + 1
    else t'.rows[id] == t.rows[id]
  }

  lemma UpdatedReassigned(t: Table, t': Table, schema: TableSchema, assignments: seq<Assignment>,
                          where: Option<Expr>, id: RowId)
    requires id in t.rows && id in t'.rows && RowUpdated(t, t', schema, assignments, where, id)
    ensures RowReassigned(t, t', schema, assignments, where, id)
  {
    hide Changed, ChangedRow, Selected, ColNames;
    if Selected(where, ColNames(schema), t.rows[id]) {
      ChangedExact(schema, t.rows[id].values, assignments, None, t'.rows[id].values);
    }
  }

  /**
   UPDATE as a statement on the set of rows: every stored row that the WHERE clause selects is
   replaced by what the assignments make of the row before the statement, cell by cell, every other
   row stays, and the count is the number of selected rows.
   */
  lemma UpdateStatementEffect(db: Db, table: string, assignments: seq<Assignment>, where: Option<Expr>)
    requires Inv(db) && UpdateStatement(db, table, assignments, where).Ok?
    ensures table in db.catalog && table in db.tables
    ensures var (db', count) := UpdateStatement(db, table, assignments, where).value;
      && OnlyTable(db, db', table)
      && var t, t', schema := db.tables[table], db'.tables[table], db.catalog[table];
         && t'.rows.Keys == t.rows.Keys
         && (forall id :: id in t.rows ==> RowReassigned(t, t', schema, assignments, where, id))
         && count == |SelectedIn(where, ColNames(schema), Scan(t))|
  {
    hide Inv, UpdateRows, RowUpdated, RowReassigned, SelectedIn, ColNames, Scan, ScanOf, Listed;
    InvBounded(db, table);
    var schema, t := db.catalog[table], db.tables[table];
    ScanCovers(t);
    UpdateRowsEffect(Opened(db), table, schema, assignments, where, Scan(t));
    var t' := UpdateStatement(db, table, assignments, where).value.0.tables[table];
    forall id | id in t.rows ensures RowReassigned(t, t', schema, assignments, where, id) {
      UpdatedReassigned(t, t', schema, assignments, where, id);
    }
  }

  lemma ScanCovers(t: Table)
    requires forall id :: id in t.rows ==> id < t.nextId
    ensures ScanOf(t, Scan(t))
    ensures forall id :: id in t.rows ==> Listed(Scan(t), id)
  {
    hide Scan, ScanValues, RowVals, Listed;
    ScanIsComplete(t);
    var scan := Scan(t);
    assert forall k :: 0 <= k < |scan| ==> scan[k] in scan;
    forall id | id in t.rows ensures Listed(scan, id) {
      ListedEntry(scan, (id, t.rows[id]));
    }
  }

  lemma ListedEntry(scan: seq<(RowId, Row)>, p: (RowId, Row))
    requires p in scan
    ensures Listed(scan, p.0)
  {
    var k :| 0 <= k < |scan| && scan[k] == p;
    assert scan[k].0 == p.0;
  }

  // ---- DELETE.

  lemma DeleteOneEffect(db: Db, table: string, schema: TableSchema, where: Option<Expr>, p: (RowId, Row))
    requires DeleteOne(db, table, schema, where, p).Ok?
    requires table in db.tables && p.0 in db.tables[table].rows && db.tables[table].rows[p.0] == p.1
    ensures var (db', n) := DeleteOne(db, table, schema, where, p).value;
      && OnlyTable(db, db', table)
      && var gone := if Selected(where, ColNames(schema), p.1) then {p.0} else {};
         db'.tables[table] == db.tables[table].(rows := db.tables[table].rows - gone) && n == |gone|
  {
    hide DeleteRow, Selects, ColNames, Replaced, DropRow;
    if Selects(where, p.1.values, ColNames(schema), None) == Ok(true) {
      DeleteReplaces(db, table, p.0);
      var t, m := TableOf(db.tables, table), IndexesOf(db.indexes, table);
      ReplacedTables(db, table, DeleteAt(t, p.0), DropRow(m, Cols(db, table), p.1.values, p.0),
                     DeleteRow(db, table, p.0).value);
    } else {
      assert db.tables[table].rows - {} == db.tables[table].rows;
    }
  }

  lemma {:induction false} DeleteRowsEffect(db: Db, table: string, schema: TableSchema, where: Option<Expr>,
                                            scan: seq<(RowId, Row)>)
    requires DeleteRows(db, table, schema, where, scan).Ok?
    requires table in db.tables && ScanOf(db.tables[table], scan)
    ensures var (db', count) := DeleteRows(db, table, schema, where, scan).value;
      var gone := SelectedIn(where, ColNames(schema), scan);
      && OnlyTable(db, db', table)
      && db'.tables[table] == db.tables[table].(rows := db.tables[table].rows - gone) && count == |gone|
    decreases |scan|
  {
    hide DeleteOne, SelectedIn, Selected, ColNames, ScanOf, Listed;
    if scan == [] {
      NoneSelected(where, ColNames(schema));
      assert db.tables[table].rows - {} == db.tables[table].rows;
    } else {
      var init, last := scan[..|scan| - 1], scan[|scan| - 1];
      assert scan == init + [last];
      DeleteRowsLast(db, table, schema, where, scan);
      hide DeleteRows;
      NotScannedYet(db.tables[table], init, last);
      DeleteRowsEffect(db, table, schema, where, init);
      var (mid, n) := DeleteRows(db, table, schema, where, init).value;
      SelectedSnoc(where, ColNames(schema), init, last);
      LastNotSelected(where, ColNames(schema), init, last.0);
      DeleteOneEffect(mid, table, schema, where, last);
      RemoveTwice(db.tables[table].rows, SelectedIn(where, ColNames(schema), init),
                  if Selected(where, ColNames(schema), last.1) then {last.0} else {});
    }
  }

  lemma DeleteRowsLast(db: Db, table: string, schema: TableSchema, where: Option<Expr>, scan: seq<(RowId, Row)>)
    requires scan != [] && DeleteRows(db, table, schema, where, scan).Ok?
    ensures var before := DeleteRows(db, table, schema, where, scan[..|scan| - 1]);
      && before.Ok?
      && var one := DeleteOne(before.value.0, table, schema, where, scan[|scan| - 1]);
         && one.Ok?
         && DeleteRows(db, table, schema, where, scan).value == (one.value.0, before.value.1 + one.value.1)
  {
    hide DeleteOne;
  }

  lemma RemoveTwice(rows: map<RowId, Row>, a: set<RowId>, b: set<RowId>)
    ensures (rows - a) - b == rows - (a + b)
  {
  }

  /** DELETE removes exactly the selected rows and counts them. */
  lemma DeleteStatementEffect(db: Db, table: string, where: Option<Expr>)
    requires Inv(db) && DeleteStatement(db, table, where).Ok?
    ensures table in db.catalog && table in db.tables
    ensures var (db', count) := DeleteStatement(db, table, where).value;
      var t := db.tables[table];
      var gone := SelectedIn(where, ColNames(db.catalog[table]), Scan(t));
      && OnlyTable(db, db', table)
      && db'.tables[table] == t.(rows := t.rows - gone) && count == |gone|
      && forall id :: id in gone <==> id in t.rows && Selected(where, ColNames(db.catalog[table]), t.rows[id])
  {
    hide Inv, DeleteRows, SelectedIn, ColNames, Scan, Selected, ScanOf, Listed;
    InvBounded(db, table);
    var schema, t := db.catalog[table], db.tables[table];
    ScanCovers(t);
    DeleteRowsEffect(Opened(db), table, schema, where, Scan(t));
    SelectedExact(where, ColNames(schema), t, Scan(t));
  }

  lemma SelectedExact(where: Option<Expr>, colNames: seq<string>, t: Table, scan: seq<(RowId, Row)>)
    requires ScanOf(t, scan) && forall id :: id in t.rows ==> Listed(scan, id)
    ensures forall id ::
      id in SelectedIn(where, colNames, scan) <==> id in t.rows && Selected(where, colNames, t.rows[id])
  {
    hide Selected;
    forall id | id in t.rows && Selected(where, colNames, t.rows[id]) ensures id in SelectedIn(where, colNames, scan) {
      var k :| 0 <= k < |scan| && scan[k].0 == id;
      assert scan[k].1 == t.rows[id];
    }
  }
}

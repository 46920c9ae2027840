/** When UPDATE and DELETE succeed. */
module StatementSuccess {
  import opened Types
  import opened Tables
  import opened Index
  import opened Catalog
  import opened TableIndexes
  import opened Scans
  import opened Engine
  import opened Rollback
  import opened Expressions
  import opened Statements
  import opened Assignments
  import opened StatementEffects
  import opened InsertEffects
  import opened UpsertEffects

  // ---- DELETE.

  ghost predicate Evaluates(where: Option<Expr>, columns: seq<string>, row: Row) {
    Selects(where, row.values, columns, None).Ok?
  }

  lemma {:induction false} DeleteRowsSucceed(db: Db, table: string, schema: TableSchema, where: Option<Expr>,
                                             scan: seq<(RowId, Row)>)
    requires table in db.catalog && table in db.tables && db.session.txn.Some? && ScanOf(db.tables[table], scan)
    ensures DeleteRows(db, table, schema, where, scan).Ok?
      <==> forall k :: 0 <= k < |scan| ==> Evaluates(where, ColNames(schema), scan[k].1)
    ensures DeleteRows(db, table, schema, where, scan).Ok? ==>
      DeleteRows(db, table, schema, where, scan).value.0.catalog == db.catalog
      && DeleteRows(db, table, schema, where, scan).value.0.session.txn == db.session.txn
    decreases |scan|
  {
    hide ColNames, SelectedIn, Selected, ScanOf, Listed, Evaluates;
    if scan != [] {
      var init, last := scan[..|scan| - 1], scan[|scan| - 1];
      assert scan == init + [last];
      NotScannedYet(db.tables[table], init, last);
      DeleteRowsSucceed(db, table, schema, where, init);
      var before := DeleteRows(db, table, schema, where, init);
      assert forall k :: 0 <= k < |init| ==> init[k] == scan[k];
      if before.Ok? {
        DeleteRowsEffect(db, table, schema, where, init);
        LastNotSelected(where, ColNames(schema), init, last.0);
        DeleteOneSucceeds(before.value.0, table, schema, where, last);
      }
      DeleteRowsOk(db, table, schema, where, scan);
    }
  }

  lemma DeleteRowsOk(db: Db, table: string, schema: TableSchema, where: Option<Expr>, scan: seq<(RowId, Row)>)
    requires scan != []
    ensures var before := DeleteRows(db, table, schema, where, scan[..|scan| - 1]);
      DeleteRows(db, table, schema, where, scan).Ok?
      <==> before.Ok? && DeleteOne(before.value.0, table, schema, where, scan[|scan| - 1]).Ok?
    ensures var before := DeleteRows(db, table, schema, where, scan[..|scan| - 1]);
      DeleteRows(db, table, schema, where, scan).Ok? ==>
        DeleteRows(db, table, schema, where, scan).value.0
        == DeleteOne(before.value.0, table, schema, where, scan[|scan| - 1]).value.0
  {
    hide DeleteOne;
  }

  lemma DeleteOneSucceeds(db: Db, table: string, schema: TableSchema, where: Option<Expr>, p: (RowId, Row))
    requires table in db.catalog && table in db.tables && db.session.txn.Some? && p.0 in db.tables[table].rows
    ensures DeleteOne(db, table, schema, where, p).Ok? <==> Evaluates(where, ColNames(schema), p.1)
    ensures DeleteOne(db, table, schema, where, p).Ok? ==>
      DeleteOne(db, table, schema, where, p).value.0.catalog == db.catalog
      && DeleteOne(db, table, schema, where, p).value.0.session.txn == db.session.txn
  {
    hide Selects, ColNames, DropRow, SetIndexes;
  }

  /** DELETE fails only if its WHERE clause cannot be evaluated on some row. */
  lemma DeleteSucceeds(db: Db, table: string, where: Option<Expr>)
    requires Inv(db) && table in db.catalog
    ensures table in db.tables
    ensures DeleteStatement(db, table, where).Ok?
      <==> forall id :: id in db.tables[table].rows ==>
             Evaluates(where, ColNames(db.catalog[table]), db.tables[table].rows[id])
  {
    hide Inv, DeleteRows, ColNames, Scan, ScanOf, Listed, Evaluates;
    KnownTable(db, table);
    OpenedSame(db);
    var schema, t := db.catalog[table], db.tables[table];
    ScanCovers(t);
    DeleteRowsSucceed(Opened(db), table, schema, where, Scan(t));
    EachListed(t, Scan(t), where, ColNames(schema));
  }

  lemma EachListed(t: Table, scan: seq<(RowId, Row)>, where: Option<Expr>, columns: seq<string>)
    requires ScanOf(t, scan) && forall id :: id in t.rows ==> Listed(scan, id)
    ensures (forall k :: 0 <= k < |scan| ==> Evaluates(where, columns, scan[k].1))
      <==> forall id :: id in t.rows ==> Evaluates(where, columns, t.rows[id])
  {
    hide Evaluates;
    forall id | id in t.rows ensures exists k :: 0 <= k < |scan| && scan[k].1 == t.rows[id] {
      var k :| 0 <= k < |scan| && scan[k].0 == id;
    }
  }

  // ---- UPDATE.

  /** What the row is to hold afterwards. */
  ghost predicate Becomes(schema: TableSchema, assignments: seq<Assignment>, where: Option<Expr>, row: Row, v: Values) {
    if Selected(where, ColNames(schema), row) then ChangedRow(schema, row.values, assignments, None, v)
    else v == row.values
  }

  /** The rows below `cut` as they are to be, the others as they were. */
  ghost function UpTo(t: Table, new': RowValues, cut: nat): RowValues {
    map id | id in t.rows :: if id < cut && id in new' then new'[id] else t.rows[id].values
  }

  ghost predicate CanBecome(t: Table, schema: TableSchema, assignments: seq<Assignment>, where: Option<Expr>,
                            new': RowValues) {
    && new'.Keys == t.rows.Keys
    && (forall id :: id in t.rows ==>
          Evaluates(where, ColNames(schema), t.rows[id])
          && Becomes(schema, assignments, where, t.rows[id], new'[id]))
    && (forall cut: nat :: UniqueRows(schema, UpTo(t, new', cut)))
  }

  /** The scan lists exactly the stored rows below `cut`. */
  ghost predicate Covers(t: Table, scan: seq<(RowId, Row)>, cut: nat) {
    ScanOf(t, scan) && forall id :: id in t.rows ==> (Listed(scan, id) <==> id < cut)
  }

  lemma CoversInit(t: Table, init: seq<(RowId, Row)>, last: (RowId, Row), cut: nat)
    requires Covers(t, init + [last], cut)
    ensures Covers(t, init, last.0) && last.0 in t.rows && t.rows[last.0] == last.1 && last.0 < cut
  {
    NotScannedYet(t, init, last);
    hide Listed;
    ListedSnoc(init, last, last.0);
    forall id | id in t.rows ensures Listed(init, id) <==> id < last.0 {
      ListedSnoc(init, last, id);
      ListedBelow(t, init, last, id);
    }
  }

  lemma ListedBelow(t: Table, init: seq<(RowId, Row)>, last: (RowId, Row), id: RowId)
    requires ScanOf(t, init + [last])
    ensures Listed(init, id) ==> id < last.0
  {
    var scan := init + [last];
    assert scan[|init|] == last;
    if Listed(init, id) {
      var k :| 0 <= k < |init| && init[k].0 == id;
      assert scan[k] == init[k];
    }
  }

  lemma UpdateOneKeeps(db: Db, table: string, schema: TableSchema, assignments: seq<Assignment>, where: Option<Expr>,
                       p: (RowId, Row))
    requires Inv(db) && table in db.catalog && table in db.tables && p.0 in db.tables[table].rows
    requires UpdateOne(db, table, schema, assignments, where, p).Ok?
    ensures KeepsRest(db, UpdateOne(db, table, schema, assignments, where, p).value.0, table)
  {
    hide Inv, UpdateRow, Changed, Selects, ColNames, KeepsRest;
    if Selects(where, p.1.values, ColNames(schema), None).value {
      UpdateKeepsRest(db, table, p.0, Changed(schema, p.1.values, assignments, None).value);
    } else {
      SameRest(db, table);
    }
  }

  lemma {:induction false} UpdateRowsKeep(db: Db, table: string, schema: TableSchema, assignments: seq<Assignment>,
                                          where: Option<Expr>, scan: seq<(RowId, Row)>)
    requires Inv(db) && table in db.catalog && table in db.tables && ScanOf(db.tables[table], scan)
    requires UpdateRows(db, table, schema, assignments, where, scan).Ok?
    ensures KeepsRest(db, UpdateRows(db, table, schema, assignments, where, scan).value.0, table)
    decreases |scan|
  {
    hide Inv, UpdateOne, ScanOf, Listed, KeepsRest, UpdatedBy;
    if scan == [] {
      SameRest(db, table);
    } else {
      var init, last := scan[..|scan| - 1], scan[|scan| - 1];
      assert scan == init + [last];
      UpdateRowsLast(db, table, schema, assignments, where, scan);
      hide UpdateRows;
      NotScannedYet(db.tables[table], init, last);
      UpdateRowsKeep(db, table, schema, assignments, where, init);
      var mid := UpdateRows(db, table, schema, assignments, where, init).value.0;
      RestHasTable(db, mid, table);
      UpdateRowsEffect(db, table, schema, assignments, where, init);
      StillThere(db.tables[table], mid.tables[table], schema, assignments, where, init, last);
      UpdateOneKeeps(mid, table, schema, assignments, where, last);
      RestTwice(db, mid, UpdateOne(mid, table, schema, assignments, where, last).value.0, table);
    }
  }

  // After the scanned rows the table holds what is to be below the cut.
  lemma UpToNow(t: Table, mid: Table, schema: TableSchema, assignments: seq<Assignment>, where: Option<Expr>,
                scan: seq<(RowId, Row)>, cut: nat, new': RowValues)
    requires UpdatedBy(t, mid, schema, assignments, where, scan) && Covers(t, scan, cut)
    requires new'.Keys == t.rows.Keys
    requires forall id :: id in t.rows && id < cut ==> Becomes(schema, assignments, where, t.rows[id], new'[id])
    ensures RowVals(mid.rows) == UpTo(t, new', cut)
  {
    hide Changed, ChangedRow, Selected, ColNames, Listed, ScanOf;
    forall id | id in t.rows ensures mid.rows[id].values == UpTo(t, new', cut)[id] {
      if id < cut && Selected(where, ColNames(schema), t.rows[id]) {
        ChangedExact(schema, t.rows[id].values, assignments, None, new'[id]);
      }
    }
  }

  lemma UpdateOneSucceeds(db: Db, table: string, schema: TableSchema, assignments: seq<Assignment>, where: Option<Expr>,
                          p: (RowId, Row), v: Values)
    requires Inv(db) && table in db.catalog && table in db.tables && db.session.txn.Some?
    requires db.catalog[table] == schema && p.0 in db.tables[table].rows && db.tables[table].rows[p.0] == p.1
    requires Evaluates(where, ColNames(schema), p.1) && Becomes(schema, assignments, where, p.1, v)
    requires UniqueRows(schema, RowVals(db.tables[table].rows)[p.0 := v])
    ensures UpdateOne(db, table, schema, assignments, where, p).Ok?
  {
    hide Inv, UpdateRow, Changed, ChangedRow, Selects, ColNames, UniqueRows, RowVals;
    if Selected(where, ColNames(schema), p.1) {
      ChangedExact(schema, p.1.values, assignments, None, v);
      UpdateExact(db, table, p.0, v);
    }
  }

  lemma {:induction false} UpdateRowsSucceed(db: Db, table: string, assignments: seq<Assignment>, where: Option<Expr>,
                                             scan: seq<(RowId, Row)>, cut: nat, new': RowValues)
    requires Inv(db) && table in db.catalog && table in db.tables && db.session.txn.Some?
    requires Covers(db.tables[table], scan, cut)
    requires CanBecome(db.tables[table], db.catalog[table], assignments, where, new')
    ensures UpdateRows(db, table, db.catalog[table], assignments, where, scan).Ok?
    decreases |scan|
  {
    if scan != [] {
      hide Inv, UpdateOne, ScanOf, Listed, KeepsRest, UpdatedBy, Covers, UniqueRows, Becomes, Evaluates, ColNames;
      var schema, t := db.catalog[table], db.tables[table];
      var init, last := scan[..|scan| - 1], scan[|scan| - 1];
      assert scan == init + [last];
      CoversInit(t, init, last, cut);
      CoversScan(t, init, last.0);
      UpdateRowsSucceed(db, table, assignments, where, init, last.0, new');
      var mid := UpdateRows(db, table, schema, assignments, where, init).value.0;
      UpdateRowsKeep(db, table, schema, assignments, where, init);
      RestHasTable(db, mid, table);
      UpdateRowsEffect(db, table, schema, assignments, where, init);
      UpToNow(t, mid.tables[table], schema, assignments, where, init, last.0, new');
      NextCut(t, new', last.0);
      StillUnlisted(t, mid.tables[table], schema, assignments, where, init, last);
      UpdateOneSucceeds(mid, table, schema, assignments, where, last, new'[last.0]);
    }
  }

  lemma CoversScan(t: Table, scan: seq<(RowId, Row)>, cut: nat)
    requires Covers(t, scan, cut)
    ensures ScanOf(t, scan)
  {
  }

  lemma NextCut(t: Table, new': RowValues, id: RowId)
    requires id in t.rows && id in new'
    ensures UpTo(t, new', id)[id := new'[id]] == UpTo(t, new', id + 1)
  {
  }

  lemma StillUnlisted(t: Table, mid: Table, schema: TableSchema, assignments: seq<Assignment>, where: Option<Expr>,
                      init: seq<(RowId, Row)>, last: (RowId, Row))
    requires UpdatedBy(t, mid, schema, assignments, where, init) && Covers(t, init, last.0)
    requires last.0 in t.rows && t.rows[last.0] == last.1
    ensures last.0 in mid.rows && mid.rows[last.0] == last.1
  {
    hide RowUpdated, Listed, ScanOf;
  }

  // ---- The other way round.

  /** A prefix of the scan that covers the rows below `cut`. */
  lemma {:induction false} PrefixFor(t: Table, scan: seq<(RowId, Row)>, top: nat, cut: nat) returns (i: nat)
    requires Covers(t, scan, top)
    ensures i <= |scan| && Covers(t, scan[..i], if cut < top then cut else top)
    decreases |scan|
  {
    hide Covers;
    if cut >= top {
      i := |scan|;
      assert scan[..i] == scan;
    } else if scan == [] {
      i := 0;
      NothingBelow(t, top, cut);
    } else {
      var init, last := scan[..|scan| - 1], scan[|scan| - 1];
      assert scan == init + [last];
      if cut > last.0 {
        i := |scan|;
        assert scan[..i] == scan;
        CoversBetween(t, init, last, top, cut);
      } else {
        CoversInit(t, init, last, top);
        i := PrefixFor(t, init, last.0, cut);
        assert init[..i] == scan[..i];
      }
    }
  }

  lemma NothingBelow(t: Table, top: nat, cut: nat)
    requires Covers(t, [], top) && cut < top
    ensures Covers(t, [], cut)
  {
    assert forall id :: !Listed([], id);
  }

  lemma CoversBetween(t: Table, init: seq<(RowId, Row)>, last: (RowId, Row), top: nat, cut: nat)
    requires Covers(t, init + [last], top) && last.0 < cut < top
    ensures Covers(t, init + [last], cut)
  {
    CoversInit(t, init, last, top);
    hide Listed, ScanOf;
    forall id | id in t.rows ensures Listed(init + [last], id) <==> id < cut {
      ListedSnoc(init, last, id);
    }
  }

  lemma {:induction false} PrefixOk(db: Db, table: string, schema: TableSchema, assignments: seq<Assignment>,
                                    where: Option<Expr>, scan: seq<(RowId, Row)>, i: nat)
    requires UpdateRows(db, table, schema, assignments, where, scan).Ok? && i <= |scan|
    ensures UpdateRows(db, table, schema, assignments, where, scan[..i]).Ok?
    decreases |scan|
  {
    if i == |scan| {
      assert scan[..i] == scan;
    } else {
      UpdateRowsLast(db, table, schema, assignments, where, scan);
      hide UpdateRows;
      PrefixOk(db, table, schema, assignments, where, scan[..|scan| - 1], i);
      assert scan[..|scan| - 1][..i] == scan[..i];
    }
  }

  lemma ScanOfPrefix(t: Table, scan: seq<(RowId, Row)>, i: nat)
    requires ScanOf(t, scan) && i <= |scan|
    ensures ScanOf(t, scan[..i])
  {
  }

  lemma {:induction false} EachEvaluated(db: Db, table: string, schema: TableSchema, assignments: seq<Assignment>,
                                         where: Option<Expr>, scan: seq<(RowId, Row)>, k: nat)
    requires UpdateRows(db, table, schema, assignments, where, scan).Ok? && k < |scan|
    ensures Evaluates(where, ColNames(schema), scan[k].1)
  {
    hide ColNames, UpdateRow, Changed, Selects;
    PrefixOk(db, table, schema, assignments, where, scan, k + 1);
    UpdateRowsLast(db, table, schema, assignments, where, scan[..k + 1]);
  }

  lemma BecameIt(t: Table, t': Table, schema: TableSchema, assignments: seq<Assignment>, where: Option<Expr>,
                 scan: seq<(RowId, Row)>, cut: nat, id: RowId)
    requires UpdatedBy(t, t', schema, assignments, where, scan) && Covers(t, scan, cut) && id in t.rows && id < cut
    ensures Becomes(schema, assignments, where, t.rows[id], t'.rows[id].values)
  {
    hide Changed, ChangedRow, Selected, ColNames, Listed, ScanOf;
    if Selected(where, ColNames(schema), t.rows[id]) {
      ChangedExact(schema, t.rows[id].values, assignments, None, t'.rows[id].values);
    }
  }

  lemma CoveredListed(t: Table, scan: seq<(RowId, Row)>, cut: nat, id: RowId) returns (k: nat)
    requires Covers(t, scan, cut) && id in t.rows && id < cut
    ensures k < |scan| && scan[k].1 == t.rows[id]
  {
    k :| 0 <= k < |scan| && scan[k].0 == id;
  }

  // Every state on the way satisfied the unique indexes.
  lemma CutUnique(db: Db, table: string, assignments: seq<Assignment>, where: Option<Expr>, scan: seq<(RowId, Row)>,
                  top: nat, new': RowValues, cut: nat)
    requires Inv(db) && table in db.catalog && table in db.tables && Covers(db.tables[table], scan, top)
    requires new'.Keys == db.tables[table].rows.Keys && forall id :: id in new' ==> id < top
    requires forall id :: id in new' ==>
      Becomes(db.catalog[table], assignments, where, db.tables[table].rows[id], new'[id])
    requires UpdateRows(db, table, db.catalog[table], assignments, where, scan).Ok?
    ensures UniqueRows(db.catalog[table], UpTo(db.tables[table], new', cut))
  {
    hide Inv, UpdateRows, ScanOf, Listed, KeepsRest, UpdatedBy, Covers, UniqueRows, Becomes, ColNames;
    var schema, t := db.catalog[table], db.tables[table];
    var i := PrefixFor(t, scan, top, cut);
    var low := if cut < top then cut else top;
    PrefixOk(db, table, schema, assignments, where, scan, i);
    CoversScan(t, scan[..i], low);
    var mid := UpdateRows(db, table, schema, assignments, where, scan[..i]).value.0;
    UpdateRowsKeep(db, table, schema, assignments, where, scan[..i]);
    RestHasTable(db, mid, table);
    UpdateRowsEffect(db, table, schema, assignments, where, scan[..i]);
    UpToNow(t, mid.tables[table], schema, assignments, where, scan[..i], low, new');
    TableUnique(mid, table);
    assert UpTo(t, new', low) == UpTo(t, new', cut);
  }

  lemma UpdateRowsCanBecome(db: Db, table: string, assignments: seq<Assignment>, where: Option<Expr>,
                            scan: seq<(RowId, Row)>, top: nat)
    returns (new': RowValues)
    requires Inv(db) && table in db.catalog && table in db.tables && Covers(db.tables[table], scan, top)
    requires forall id :: id in db.tables[table].rows ==> id < top
    requires UpdateRows(db, table, db.catalog[table], assignments, where, scan).Ok?
    ensures CanBecome(db.tables[table], db.catalog[table], assignments, where, new')
  {
    hide Inv, UpdateRows, ScanOf, Listed, KeepsRest, UniqueRows, Becomes, ColNames, Covers, RowUpdated, UpTo, Evaluates;
    var schema, t := db.catalog[table], db.tables[table];
    CoversScan(t, scan, top);
    UpdateRowsEffect(db, table, schema, assignments, where, scan);
    var t' := UpdateRows(db, table, schema, assignments, where, scan).value.0.tables[table];
    new' := RowVals(t'.rows);
    forall id | id in t.rows
      ensures Evaluates(where, ColNames(schema), t.rows[id])
      ensures Becomes(schema, assignments, where, t.rows[id], new'[id])
    {
      BecameIt(t, t', schema, assignments, where, scan, top, id);
      var k := CoveredListed(t, scan, top, id);
      EachEvaluated(db, table, schema, assignments, where, scan, k);
    }
    forall cut: nat ensures UniqueRows(schema, UpTo(t, new', cut)) {
      CutUnique(db, table, assignments, where, scan, top, new', cut);
    }
  }

  lemma ScanCoversAll(t: Table)
    requires IdsBounded(t)
    ensures Covers(t, Scan(t), t.nextId)
  {
    hide Scan, ScanOf, Listed;
    ScanCovers(t);
  }

  /**
   UPDATE succeeds exactly if the WHERE clause can be evaluated on every row, the assignments can be
   carried out on the selected ones, and at every point of the way by increasing id the rows satisfy the
   unique indexes.
   */
  lemma UpdateSucceeds(db: Db, table: string, assignments: seq<Assignment>, where: Option<Expr>)
    requires Inv(db) && table in db.catalog
    ensures table in db.tables
    ensures UpdateStatement(db, table, assignments, where).Ok?
      <==> exists new' :: CanBecome(db.tables[table], db.catalog[table], assignments, where, new')
  {
    hide Inv, UpdateRows, Scan, IdsBounded, CanBecome, Covers;
    KnownTable(db, table);
    OpenedSame(db);
    var start, schema, t := Opened(db), db.catalog[table], db.tables[table];
    ScanCoversAll(t);
    IdsBelow(t);
    if UpdateRows(start, table, schema, assignments, where, Scan(t)).Ok? {
      var new' := UpdateRowsCanBecome(start, table, assignments, where, Scan(t), t.nextId);
    }
    if new' :| CanBecome(t, schema, assignments, where, new') {
      UpdateRowsSucceed(start, table, assignments, where, Scan(t), t.nextId, new');
    }
  }

  lemma IdsBelow(t: Table)
    requires IdsBounded(t)
    ensures forall id :: id in t.rows ==> id < t.nextId
  {
  }
}

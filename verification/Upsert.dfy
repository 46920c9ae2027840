/** INSERT ... ON CONFLICT DO NOTHING as a fold over the VALUES list. */
module Upsert {
  import opened Types
  import opened Tables
  import opened Index
  import opened Catalog
  import opened TableIndexes
  import opened Scans
  import opened Engine
  import opened Rollback
  import opened Statements
  import opened InsertEffects

  // ---- What DO NOTHING keeps of a VALUES list.

  ghost function KeysIn(vs: seq<Values>, cols: seq<string>, colNames: seq<string>): set<Key> {
    set i | 0 <= i < |vs| :: KeyOf(cols, colNames, vs[i])
  }

  /** The rows whose key is neither taken nor that of an earlier row. */
  ghost function FirstPerKey(vs: seq<Values>, taken: set<Key>, cols: seq<string>, colNames: seq<string>): seq<Values> {
    if vs == [] then []
    else
      var init, last := FirstPerKey(vs[..|vs| - 1], taken, cols, colNames), vs[|vs| - 1];
      if KeyOf(cols, colNames, last) in taken + KeysIn(init, cols, colNames) then init else init + [last]
  }

  lemma KeysInSnoc(vs: seq<Values>, v: Values, cols: seq<string>, colNames: seq<string>)
    ensures KeysIn(vs + [v], cols, colNames) == KeysIn(vs, cols, colNames) + {KeyOf(cols, colNames, v)}
  {
    hide KeyOf;
    var all := vs + [v];
    forall k | k in KeysIn(vs, cols, colNames) + {KeyOf(cols, colNames, v)}
      ensures k in KeysIn(all, cols, colNames)
    {
      if k == KeyOf(cols, colNames, v) {
        assert all[|vs|] == v;
      } else {
        var i :| 0 <= i < |vs| && KeyOf(cols, colNames, vs[i]) == k;
        assert all[i] == vs[i];
      }
    }
  }

  /** Exactly the new distinct keys, one row each: the first with that key. */
  lemma {:induction false} FirstPerKeyExact(vs: seq<Values>, taken: set<Key>, cols: seq<string>, colNames: seq<string>)
    ensures var kept := FirstPerKey(vs, taken, cols, colNames);
      && KeysIn(kept, cols, colNames) == KeysIn(vs, cols, colNames) - taken
      && |kept| == |KeysIn(vs, cols, colNames) - taken|
    ensures forall i :: 0 <= i < |FirstPerKey(vs, taken, cols, colNames)| ==>
      IsFirst(vs, FirstPerKey(vs, taken, cols, colNames)[i], cols, colNames)
  {
    hide KeyOf, KeysIn, IsFirst;
    if vs == [] {
      NoKeys(cols, colNames);
    } else {
      var init, last := vs[..|vs| - 1], vs[|vs| - 1];
      assert vs == init + [last];
      var kept, k := FirstPerKey(init, taken, cols, colNames), KeyOf(cols, colNames, last);
      FirstPerKeyExact(init, taken, cols, colNames);
      KeysInSnoc(init, last, cols, colNames);
      KeysInSnoc(kept, last, cols, colNames);
      forall v | IsFirst(init, v, cols, colNames) ensures IsFirst(vs, v, cols, colNames) {
        StillFirst(init, v, last, cols, colNames);
      }
      if k in taken + KeysIn(kept, cols, colNames) {
        assert KeysIn(vs, cols, colNames) - taken == KeysIn(init, cols, colNames) - taken;
      } else {
        assert KeysIn(vs, cols, colNames) - taken == (KeysIn(init, cols, colNames) - taken) + {k};
        NewIsFirst(init, last, cols, colNames);
      }
    }
  }

  lemma NoKeys(cols: seq<string>, colNames: seq<string>)
    ensures KeysIn([], cols, colNames) == {}
  {
  }

  /** `v` is the first row of the list with its key. */
  ghost predicate IsFirst(vs: seq<Values>, v: Values, cols: seq<string>, colNames: seq<string>) {
    exists j :: 0 <= j < |vs| && vs[j] == v
      && forall i :: 0 <= i < j ==> KeyOf(cols, colNames, vs[i]) != KeyOf(cols, colNames, v)
  }

  lemma StillFirst(vs: seq<Values>, v: Values, last: Values, cols: seq<string>, colNames: seq<string>)
    requires IsFirst(vs, v, cols, colNames)
    ensures IsFirst(vs + [last], v, cols, colNames)
  {
    hide KeyOf;
    var j :| 0 <= j < |vs| && vs[j] == v
      && forall i :: 0 <= i < j ==> KeyOf(cols, colNames, vs[i]) != KeyOf(cols, colNames, v);
    assert (vs + [last])[j] == v;
  }

  lemma NewIsFirst(vs: seq<Values>, last: Values, cols: seq<string>, colNames: seq<string>)
    requires KeyOf(cols, colNames, last) !in KeysIn(vs, cols, colNames)
    ensures IsFirst(vs + [last], last, cols, colNames)
  {
    hide KeyOf;
    assert (vs + [last])[|vs|] == last;
  }

  // ---- The conflict check sees exactly the stored keys.

  ghost function StoredKeys(rows: RowValues, cols: seq<string>, colNames: seq<string>): set<Key> {
    set id | id in rows :: KeyOf(cols, colNames, rows[id])
  }

  lemma SameColumnsSameKey(a: seq<string>, b: seq<string>, colNames: seq<string>, values: Values)
    requires SameColumns(a, b)
    ensures KeyOf(a, colNames, values) == KeyOf(b, colNames, values)
  {
    forall i | 0 <= i < |a| ensures KeyCell(a[i], colNames, values) == KeyCell(b[i], colNames, values) {
      SamePosition(colNames, a[i], b[i]);
    }
  }

  // A non-empty bucket of an agreeing tree is a stored key.
  lemma BucketExact(tree: Tree, unique: bool, keys: Keyed, key: Key)
    requires TreeAgrees(tree, unique, keys)
    ensures FirstId(TreeLookup(tree, key)).Some? <==> exists id :: id in keys && keys[id] == key
  {
    if key in tree {
      var id := tree[key][0];
      assert id in tree[key];
      assert id in keys && keys[id] == key;
    }
  }

  lemma ConflictExact(db: Db, table: string, target: Option<seq<string>>, cols: seq<string>, values: Values)
    requires Inv(db) && table in db.catalog
    requires ConflictColumns(db.catalog[table], target) == Ok(cols) && ConflictRow(db, table, target, values).Ok?
    ensures var colNames := ColNames(db.catalog[table]);
      var taken := StoredKeys(RowVals(db.tables[table].rows), cols, colNames);
      ConflictRow(db, table, target, values).value.Some? <==> KeyOf(cols, colNames, values) in taken
  {
    hide KeyOf, TreeAgrees, ColNames, RowVals, ConflictColumns, SameColumns;
    var schema, m, rows := db.catalog[table], IndexesOf(db.indexes, table), RowVals(db.tables[table].rows);
    assert TableOk(schema, m, db.tables[table]);
    var colNames, meta := ColNames(schema), schema.indexes[FindUniqueIndex(schema.indexes, cols).value];
    var ix := m[meta.name];
    assert Agrees(ix, colNames, rows) && MetaMatches(meta, ix);
    var keys := KeysOf(ix.columns, colNames, rows);
    BucketExact(ix.tree, ix.unique, keys, KeyOf(cols, colNames, values));
    forall id | id in rows ensures keys[id] == KeyOf(cols, colNames, rows[id]) {
      SameColumnsSameKey(ix.columns, cols, colNames, rows[id]);
    }
  }

  // ---- One row, then the whole list.

  lemma {:induction false} AppendedKeys(rows: RowValues, nextId: RowId, vs: seq<Values>, cols: seq<string>,
                                        colNames: seq<string>)
    requires forall id :: id in rows ==> id < nextId
    ensures StoredKeys(Appended(rows, nextId, vs), cols, colNames)
         == StoredKeys(rows, cols, colNames) + KeysIn(vs, cols, colNames)
    ensures forall id :: id in Appended(rows, nextId, vs) ==> id < nextId + |vs|
  {
    hide KeyOf;
    if vs == [] {
      NoKeys(cols, colNames);
    } else {
      var init, last := vs[..|vs| - 1], vs[|vs| - 1];
      assert vs == init + [last];
      AppendedKeys(rows, nextId, init, cols, colNames);
      KeysInSnoc(init, last, cols, colNames);
      OneMoreKey(Appended(rows, nextId, init), nextId + |init|, last, cols, colNames);
    }
  }

  lemma OneMoreKey(rows: RowValues, id: RowId, v: Values, cols: seq<string>, colNames: seq<string>)
    requires id !in rows
    ensures StoredKeys(rows[id := v], cols, colNames) == StoredKeys(rows, cols, colNames) + {KeyOf(cols, colNames, v)}
  {
    hide KeyOf;
    var more: RowValues := rows[id := v];
    forall k | k in StoredKeys(rows, cols, colNames) + {KeyOf(cols, colNames, v)}
      ensures k in StoredKeys(more, cols, colNames)
    {
      if k == KeyOf(cols, colNames, v) {
        assert id in more;
      } else {
        var x :| x in rows && KeyOf(cols, colNames, rows[x]) == k;
        assert x in more;
      }
    }
  }

  function IgnoreOn(target: Option<seq<string>>): Option<OnConflict> {
    Some(OnConflict(target, DoNothing))
  }

  ghost predicate OneFolded(db: Db, table: string, cols: seq<string>, raw: Values, db': Db, n: nat)
    requires table in db.catalog && table in db.tables
  {
    && Proposed(db.catalog[table], raw).Ok?
    && var v, t, colNames := Proposed(db.catalog[table], raw).value, db.tables[table], ColNames(db.catalog[table]);
       if KeyOf(cols, colNames, v) in StoredKeys(RowVals(t.rows), cols, colNames)
       then n == 0 && db' == db
       else n == 1 && Holds(db', table, RowVals(t.rows)[t.nextId := v], t.nextId + 1)
            && forall u :: u in db.tables && u != table ==> u in db'.tables && db'.tables[u] == db.tables[u]
  }

  lemma InsertOneFold(db: Db, table: string, target: Option<seq<string>>, cols: seq<string>, raw: Values)
    requires Inv(db) && table in db.catalog && ConflictColumns(db.catalog[table], target) == Ok(cols)
    requires InsertOne(db, table, IgnoreOn(target), raw).Ok?
    ensures table in db.tables
    ensures var (db', n) := InsertOne(db, table, IgnoreOn(target), raw).value;
      Inv(db') && db'.catalog == db.catalog && OneFolded(db, table, cols, raw, db', n)
  {
    hide Inv, IdsBounded, ConflictColumns, ConflictRow, KeyOf, StoredKeys, InsertRow, Proposed, ColNames, RowVals;
    KnownTable(db, table);
    var v := Proposed(db.catalog[table], raw).value;
    ConflictExact(db, table, target, cols, v);
    if ConflictRow(db, table, target, v).value.None? {
      InsertHolds(db, table, v);
    }
  }

  ghost predicate Folded(db: Db, table: string, cols: seq<string>, raws: seq<Values>, db': Db, count: nat)
    requires table in db.catalog && table in db.tables
  {
    var schema, t := db.catalog[table], db.tables[table];
    var colNames := ColNames(schema);
    && Proposals(schema, raws).Ok?
    && var stored := StoredKeys(RowVals(t.rows), cols, colNames);
       var kept := FirstPerKey(Proposals(schema, raws).value, stored, cols, colNames);
       && count == |kept|
       && Holds(db', table, Appended(RowVals(t.rows), t.nextId, kept), t.nextId + |kept|)
       && forall u :: u in db.tables && u != table ==> u in db'.tables && db'.tables[u] == db.tables[u]
  }

  /**
   A successful INSERT with ON CONFLICT DO NOTHING leaves the old rows and, under consecutive new ids,
   the first VALUES row of every key that was not stored; its count is the number of those keys.
   Conflicts inside the list count as well.
   */
  lemma {:induction false} DoNothingFold(db: Db, table: string, target: Option<seq<string>>, cols: seq<string>,
                                         raws: seq<Values>)
    requires Inv(db) && table in db.catalog && ConflictColumns(db.catalog[table], target) == Ok(cols)
    requires InsertRows(db, table, IgnoreOn(target), raws).Ok?
    ensures table in db.tables
    ensures var (db', count) := InsertRows(db, table, IgnoreOn(target), raws).value;
      Inv(db') && db'.catalog == db.catalog && Folded(db, table, cols, raws, db', count)
    decreases |raws|
  {
    hide Inv, IdsBounded, ConflictColumns, InsertOne, Folded, OneFolded;
    KnownTable(db, table);
    if raws == [] {
      NothingFolded(db, table, cols);
    } else {
      var init, last := raws[..|raws| - 1], raws[|raws| - 1];
      InsertRowsLast(db, table, IgnoreOn(target), raws);
      DoNothingFold(db, table, target, cols, init);
      hide InsertRows;
      var (mid, n) := InsertRows(db, table, IgnoreOn(target), init).value;
      FoldedKeepsTable(db, table, cols, init, mid, n);
      InsertOneFold(mid, table, target, cols, last);
      assert raws == init + [last];
      var (db', k) := InsertOne(mid, table, IgnoreOn(target), last).value;
      FoldOneMore(db, table, cols, init, last, mid, n, db', k);
    }
  }

  lemma FoldedKeepsTable(db: Db, table: string, cols: seq<string>, raws: seq<Values>, db': Db, n: nat)
    requires table in db.catalog && table in db.tables && Folded(db, table, cols, raws, db', n)
    ensures table in db'.tables
  {
  }

  lemma NothingFolded(db: Db, table: string, cols: seq<string>)
    requires table in db.catalog && table in db.tables
    ensures Folded(db, table, cols, [], db, 0)
  {
  }

  lemma FirstPerKeySnoc(vs: seq<Values>, v: Values, taken: set<Key>, cols: seq<string>, colNames: seq<string>)
    ensures var kept := FirstPerKey(vs, taken, cols, colNames);
      FirstPerKey(vs + [v], taken, cols, colNames)
        == if KeyOf(cols, colNames, v) in taken + KeysIn(kept, cols, colNames) then kept else kept + [v]
  {
    hide KeyOf, KeysIn;
    assert (vs + [v])[..|vs|] == vs;
  }

  lemma FoldOneMore(db: Db, table: string, cols: seq<string>, raws: seq<Values>, raw: Values, mid: Db, n: nat,
                    db': Db, k: nat)
    requires table in db.catalog && table in db.tables && Folded(db, table, cols, raws, mid, n)
    requires IdsBounded(db.tables[table])
    requires mid.catalog == db.catalog && table in mid.tables && OneFolded(mid, table, cols, raw, db', k)
    ensures Folded(db, table, cols, raws + [raw], db', n + k)
  {
    hide KeyOf, StoredKeys, KeysIn, Proposed, ColNames, RowVals, FirstPerKey, Proposals, Appended;
    var schema, t, colNames := db.catalog[table], db.tables[table], ColNames(db.catalog[table]);
    var v, vs := Proposed(schema, raw).value, Proposals(schema, raws).value;
    var rows := RowVals(t.rows);
    var taken := StoredKeys(rows, cols, colNames);
    var kept := FirstPerKey(vs, taken, cols, colNames);
    ProposalsSnoc(schema, raws, raw);
    FirstPerKeySnoc(vs, v, taken, cols, colNames);
    RowValsKeys(t);
    AppendedKeys(rows, t.nextId, kept, cols, colNames);
    AppendedSnoc(rows, t.nextId, kept, v);
  }

  // ---- The whole statement.

  /** The count of the statement is the number of distinct new keys in its VALUES list. */
  lemma DoNothingCount(db: Db, table: string, target: Option<seq<string>>, cols: seq<string>, raws: seq<Values>)
    requires Inv(db) && table in db.catalog && ConflictColumns(db.catalog[table], target) == Ok(cols)
    requires InsertStatement(db, table, IgnoreOn(target), raws).Ok?
    ensures table in db.tables
    ensures var (db', count) := InsertStatement(db, table, IgnoreOn(target), raws).value;
      var schema, rows := db.catalog[table], RowVals(db.tables[table].rows);
      var colNames := ColNames(schema);
      && Inv(db') && Folded(db, table, cols, raws, db', count)
      && count == |KeysIn(Proposals(schema, raws).value, cols, colNames) - StoredKeys(rows, cols, colNames)|
  {
    hide Inv, ConflictColumns, InsertRows, Folded, KeysIn, StoredKeys, Proposals, ColNames, RowVals, IdsBounded;
    KnownTable(db, table);
    SameData(db, Opened(db));
    DoNothingFold(Opened(db), table, target, cols, raws);
    var (mid, count) := InsertRows(Opened(db), table, IgnoreOn(target), raws).value;
    var db' := InsertStatement(db, table, IgnoreOn(target), raws).value.0;
    SameData(mid, db');
    FoldedSameData(Opened(db), db, table, cols, raws, mid, db', count);
    FoldedCount(db, table, cols, raws, db', count);
  }

  lemma FoldedSameData(a: Db, b: Db, table: string, cols: seq<string>, raws: seq<Values>, a': Db, b': Db, count: nat)
    requires table in a.catalog && table in a.tables && Folded(a, table, cols, raws, a', count)
    requires b.catalog == a.catalog && b.tables == a.tables && b'.tables == a'.tables
    ensures Folded(b, table, cols, raws, b', count)
  {
    hide FirstPerKey, Proposals, StoredKeys, Appended, ColNames, RowVals;
  }

  lemma FoldedCount(db: Db, table: string, cols: seq<string>, raws: seq<Values>, db': Db, count: nat)
    requires table in db.catalog && table in db.tables && Folded(db, table, cols, raws, db', count)
    ensures Proposals(db.catalog[table], raws).Ok?
    ensures var schema, rows := db.catalog[table], RowVals(db.tables[table].rows);
      var colNames := ColNames(schema);
      count == |KeysIn(Proposals(schema, raws).value, cols, colNames) - StoredKeys(rows, cols, colNames)|
  {
    hide FirstPerKey, Proposals, StoredKeys, Appended, ColNames, RowVals, KeysIn, IsFirst;
    var schema, rows := db.catalog[table], RowVals(db.tables[table].rows);
    FirstPerKeyExact(Proposals(schema, raws).value, StoredKeys(rows, cols, ColNames(schema)), cols, ColNames(schema));
  }

  // ---- It cannot fail on a duplicate.

  ghost predicate OnlyUnique(metas: seq<IndexMeta>, i: nat) {
    i < |metas| && forall j :: 0 <= j < |metas| && j != i ==> !metas[j].unique
  }

  lemma NewKeyUnique(schema: TableSchema, rows: RowValues, id: RowId, v: Values, i: nat, cols: seq<string>)
    requires UniqueRows(schema, rows) && OnlyUnique(schema.indexes, i) && id !in rows
    requires SameColumns(schema.indexes[i].columns, cols)
    requires KeyOf(cols, ColNames(schema), v) !in StoredKeys(rows, cols, ColNames(schema))
    ensures UniqueRows(schema, rows[id := v])
  {
    hide KeyOf, ColNames, SameColumns;
    var colNames := ColNames(schema);
    forall j | 0 <= j < |schema.indexes|
      ensures UniqueFor(schema.indexes[j], colNames, rows[id := v])
    {
      if j == i {
        var meta := schema.indexes[i];
        assert UniqueFor(meta, colNames, rows);
        var keys := KeysOf(meta.columns, colNames, rows[id := v]);
        forall x | x in rows ensures keys[x] == KeyOf(cols, colNames, rows[x]) && keys[x] != keys[id] {
          SameColumnsSameKey(meta.columns, cols, colNames, rows[x]);
          SameColumnsSameKey(meta.columns, cols, colNames, v);
          assert KeyOf(cols, colNames, rows[x]) in StoredKeys(rows, cols, colNames);
        }
        assert forall x :: x in rows ==> keys[x] == KeysOf(meta.columns, colNames, rows)[x];
      }
    }
  }

  lemma InsertNewKeyOk(db: Db, table: string, v: Values, i: nat, cols: seq<string>)
    requires Inv(db) && table in db.catalog && db.session.txn.Some?
    requires OnlyUnique(db.catalog[table].indexes, i) && SameColumns(db.catalog[table].indexes[i].columns, cols)
    requires table in db.tables
    requires var colNames := ColNames(db.catalog[table]);
      KeyOf(cols, colNames, v) !in StoredKeys(RowVals(db.tables[table].rows), cols, colNames)
    ensures InsertRow(db, table, v).Ok?
  {
    hide TableAgrees, AddRow, UniqueRows, StoredKeys, KeyOf, SameColumns, OnlyUnique, ColNames;
    var schema, m, t := db.catalog[table], IndexesOf(db.indexes, table), db.tables[table];
    assert TableOk(schema, m, t);
    TableAgreesUnique(schema, m, RowVals(t.rows));
    NewKeyUnique(schema, RowVals(t.rows), t.nextId, v, i, cols);
    AddRowAgrees(schema, m, RowVals(t.rows), v, t.nextId);
  }

  /**
   If the conflict target is the only unique index of the table, DO NOTHING never fails on a
   duplicate: rows that coerce and satisfy NOT NULL are enough for success.
   */
  lemma {:induction false} DoNothingSucceeds(db: Db, table: string, target: Option<seq<string>>, cols: seq<string>,
                                             i: nat, raws: seq<Values>)
    requires Inv(db) && table in db.catalog && db.session.txn.Some?
    requires ConflictColumns(db.catalog[table], target) == Ok(cols)
    requires FindUniqueIndex(db.catalog[table].indexes, cols) == Some(i) && OnlyUnique(db.catalog[table].indexes, i)
    requires Proposals(db.catalog[table], raws).Ok?
    ensures InsertRows(db, table, IgnoreOn(target), raws).Ok?
    decreases |raws|
  {
    if raws != [] {
      hide Inv, ConflictColumns, InsertOne, Folded, OnlyUnique, Run, IdsBounded, RowRun;
      var init, last := raws[..|raws| - 1], raws[|raws| - 1];
      DoNothingSucceeds(db, table, target, cols, i, init);
      DoNothingFold(db, table, target, cols, init);
      var mid := InsertRows(db, table, IgnoreOn(target), init).value.0;
      KeptSession(db, table, IgnoreOn(target), init);
      OneSucceeds(mid, table, target, cols, i, last);
    }
  }

  lemma OneSucceeds(db: Db, table: string, target: Option<seq<string>>, cols: seq<string>, i: nat, raw: Values)
    requires Inv(db) && table in db.catalog && db.session.txn.Some?
    requires ConflictColumns(db.catalog[table], target) == Ok(cols)
    requires FindUniqueIndex(db.catalog[table].indexes, cols) == Some(i) && OnlyUnique(db.catalog[table].indexes, i)
    requires Proposed(db.catalog[table], raw).Ok?
    ensures InsertOne(db, table, IgnoreOn(target), raw).Ok?
  {
    hide Inv, ConflictColumns, StoredKeys, KeyOf, IdsBounded, InsertRow, Proposed, ColNames, OnlyUnique, SameColumns;
    KnownTable(db, table);
    var v := Proposed(db.catalog[table], raw).value;
    assert ConflictRow(db, table, target, v).Ok?;
    ConflictExact(db, table, target, cols, v);
    if ConflictRow(db, table, target, v).value.None? {
      InsertNewKeyOk(db, table, v, i, cols);
    }
  }
}

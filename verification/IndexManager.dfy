/** The live indexes of all tables, changed in place. */
module IndexManagement {
  import opened Types
  import opened Tables
  import opened Index
  import opened Catalog
  import opened TableIndexes
  import opened Scans
  import opened Agreement
  import opened MemoryStorage

  class IndexManager {
    var indexes: IndexSet

    constructor ()
      ensures indexes == map[]
    {
      indexes := map[];
    }

    method CreateIndex(table: string, ix: BTreeIndex) returns (r: Result<(), Error>)
      modifies this
      ensures ix.name in IndexesOf(old(indexes), table) ==> r == Err(IndexExists) && indexes == old(indexes)
      ensures ix.name !in IndexesOf(old(indexes), table) ==>
        r == Ok(()) && indexes == old(indexes)[table := IndexesOf(old(indexes), table)[ix.name := ix]]
    {
      var tableIndexes := IndexesOf(indexes, table);
      if ix.name in tableIndexes { return Err(IndexExists); }
      indexes := indexes[table := tableIndexes[ix.name := ix]];
      r := Ok(());
    }

    /**
     Adds a row to every index of the table, in the order a hash map yields them.  A duplicate stops
     the loop, with the row in some of the indexes.
     */
    method InsertRow(table: string, values: Values, colNames: seq<string>, id: RowId) returns (r: Result<(), Error>)
      modifies this
      ensures var added := AddRow(IndexesOf(old(indexes), table), colNames, values, id);
        added.Ok? ==> r == Ok(()) && indexes == SetIndexes(old(indexes), table, added.value)
      ensures AddRow(IndexesOf(old(indexes), table), colNames, values, id).Err? ==>
        && r == Err(DuplicateKey) && table in indexes && indexes.Keys == old(indexes).Keys
        && (forall t :: t in indexes && t != table ==> indexes[t] == old(indexes)[t])
        && indexes[table].Keys == old(indexes)[table].Keys
        && forall n :: n in indexes[table] ==>
             || indexes[table][n] == old(indexes)[table][n]
             || WithRow(old(indexes)[table][n], colNames, values, id) == Ok(indexes[table][n])
    {
      hide WithRow;
      if table !in indexes { return Ok(()); }
      var m := indexes[table];
      var left := m.Keys;
      while left != {}
        invariant left <= m.Keys && table in indexes && indexes == old(indexes)[table := indexes[table]]
        invariant indexes[table].Keys == m.Keys
        invariant forall n :: n in left ==> indexes[table][n] == m[n]
        invariant forall n :: n in m && n !in left ==> WithRow(m[n], colNames, values, id) == Ok(indexes[table][n])
        decreases |left|
      {
        var n :| n in left;
        var added := WithRow(indexes[table][n], colNames, values, id);
        if added.Err? {
          WithRowError(m[n], colNames, values, id);
          return Err(added.error);
        }
        indexes := indexes[table := indexes[table][n := added.value]];
        left := left - {n};
      }
      r := Ok(());
      AllAdded(m, indexes[table], colNames, values, id);
    }

    method RemoveRow(table: string, values: Values, colNames: seq<string>, id: RowId)
      modifies this
      ensures indexes == SetIndexes(old(indexes), table, DropRow(IndexesOf(old(indexes), table), colNames, values, id))
    {
      hide WithoutRow;
      if table !in indexes { return; }
      var m := indexes[table];
      var left := m.Keys;
      while left != {}
        invariant left <= m.Keys && table in indexes && indexes == old(indexes)[table := indexes[table]]
        invariant indexes[table].Keys == m.Keys
        invariant forall n :: n in left ==> indexes[table][n] == m[n]
        invariant forall n :: n in m && n !in left ==> indexes[table][n] == WithoutRow(m[n], colNames, values, id)
        decreases |left|
      {
        var n :| n in left;
        indexes := indexes[table := indexes[table][n := WithoutRow(indexes[table][n], colNames, values, id)]];
        left := left - {n};
      }
      assert indexes[table] == DropRow(m, colNames, values, id);
    }

    method Lookup(table: string, name: string, keyValues: seq<Value>) returns (ids: seq<RowId>)
      ensures ids == if name in IndexesOf(indexes, table)
                     then TreeLookup(IndexesOf(indexes, table)[name].tree, ToKey(keyValues)) else []
    {
      var m := IndexesOf(indexes, table);
      if name !in m { return []; }
      ids := TreeLookup(m[name].tree, ToKey(keyValues));
    }

    /** One index over the rows of a scan. */
    method BuildIndex(meta: IndexMeta, colNames: seq<string>, rows: seq<(RowId, Row)>)
      returns (r: Result<BTreeIndex, Error>)
      ensures r == Build(EmptyIndex(meta), colNames, rows)
    {
      hide WithRow;
      var ix := EmptyIndex(meta);
      for i := 0 to |rows|
        invariant Build(EmptyIndex(meta), colNames, rows[..i]) == Ok(ix)
      {
        assert rows[..i + 1][..i] == rows[..i];
        var added := WithRow(ix, colNames, rows[i].1.values, rows[i].0);
        if added.Err? {
          BuildStaysFailed(EmptyIndex(meta), colNames, rows, i + 1);
          return Err(added.error);
        }
        ix := added.value;
      }
      assert rows[..|rows|] == rows;
      r := Ok(ix);
    }

    /** Rebuilds the indexes of one table, in the order of its definitions. */
    method RebuildTable(table: string, schema: TableSchema, rows: seq<(RowId, Row)>) returns (ok: bool)
      requires table !in indexes
      modifies this
      ensures ok <==> BuildAll(schema.indexes, ColNames(schema), rows).Ok?
      ensures ok ==> indexes == if schema.indexes == [] then old(indexes)
                               else old(indexes)[table := BuildAll(schema.indexes, ColNames(schema), rows).value]
    {
      hide Build, ColNames, BuildAll, EmptyIndex;
      var metas, colNames := schema.indexes, ColNames(schema);
      ghost var m: IndexMap := map[];
      BuildNothing(colNames, rows);
      for i := 0 to |metas|
        invariant BuildAll(metas[..i], colNames, rows) == Ok(m) && (i == 0 ==> m == map[])
        invariant indexes == if i == 0 then old(indexes) else old(indexes)[table := m]
      {
        BuildAllNext(metas, i, colNames, rows, m);
        var ix := BuildIndex(metas[i], colNames, rows);
        if ix.Err? {
          BuildAllStaysFailed(metas, colNames, rows, i + 1);
          return false;
        }
        var created := CreateIndex(table, ix.value);
        if created.Err? {
          BuildAllStaysFailed(metas, colNames, rows, i + 1);
          return false;
        }
        m := m[metas[i].name := ix.value];
      }
      assert metas[..|metas|] == metas;
      ok := true;
    }

    /** Rebuilds everything from the stored rows. */
    method RebuildAll(catalog: SchemaMap, storage: StorageEngine) returns (ok: bool)
      requires storage.Valid()
      modifies this
      ensures ok <==> Rebuildable(catalog, storage.tables)
      ensures ok ==> indexes == Rebuilt(catalog, storage.tables)
    {
      hide BuildAll, Scans.Scan, ColNames, Rebuildable, Rebuilt;
      indexes := map[];
      var left := catalog.Keys;
      ghost var done := {};
      NothingRebuilt(catalog, storage.tables);
      while left != {}
        invariant left <= catalog.Keys && done == catalog.Keys - left
        invariant RebuiltFor(catalog, storage.tables, done, indexes)
        decreases |left|
      {
        var table :| table in left;
        var rows := storage.Scan(table);
        ghost var before := indexes;
        NotRebuiltYet(catalog, storage.tables, done, indexes, table);
        var built := RebuildTable(table, catalog[table], rows);
        if !built {
          NotRebuildable(catalog, storage.tables, table);
          return false;
        }
        RebuiltOne(catalog, storage.tables, done, before, table, indexes);
        left := left - {table};
        done := done + {table};
        assert done == catalog.Keys - left;
      }
      assert done == catalog.Keys;
      EverythingRebuilt(catalog, storage.tables, indexes);
      ok := true;
    }
  }

  // ---- Rebuilding, table by table.

  /** The rebuilt indexes of the tables in `done`. */
  ghost predicate RebuiltFor(catalog: SchemaMap, tables: TableMap, done: set<string>, ixs: IndexSet) {
    && (forall t :: t in ixs <==> t in done && t in catalog && catalog[t].indexes != [])
    && forall t :: t in done && t in catalog ==>
         BuildAll(catalog[t].indexes, ColNames(catalog[t]), Scan(TableOf(tables, t))) == Ok(IndexesOf(ixs, t))
  }

  lemma NothingRebuilt(catalog: SchemaMap, tables: TableMap)
    ensures RebuiltFor(catalog, tables, {}, map[])
  {
  }

  lemma NotRebuiltYet(catalog: SchemaMap, tables: TableMap, done: set<string>, ixs: IndexSet, table: string)
    requires RebuiltFor(catalog, tables, done, ixs) && table !in done
    ensures table !in ixs
  {
  }

  lemma RebuiltOne(
    catalog: SchemaMap, tables: TableMap, done: set<string>, ixs: IndexSet, table: string, ixs': IndexSet)
    requires RebuiltFor(catalog, tables, done, ixs) && table !in done && table in catalog && table !in ixs
    requires BuildAll(catalog[table].indexes, ColNames(catalog[table]), Scan(TableOf(tables, table))).Ok?
    requires ixs' == if catalog[table].indexes == [] then ixs
                     else ixs[table := BuildAll(catalog[table].indexes, ColNames(catalog[table]),
                                                Scan(TableOf(tables, table))).value]
    ensures RebuiltFor(catalog, tables, done + {table}, ixs')
  {
    BuildNothing(ColNames(catalog[table]), Scan(TableOf(tables, table)));
    hide Scan, ColNames, BuildAll;
    assert BuildAll(catalog[table].indexes, ColNames(catalog[table]), Scan(TableOf(tables, table)))
      == Ok(IndexesOf(ixs', table));
    forall t | t in done && t in catalog
      ensures BuildAll(catalog[t].indexes, ColNames(catalog[t]), Scan(TableOf(tables, t))) == Ok(IndexesOf(ixs', t))
    {
      assert IndexesOf(ixs', t) == IndexesOf(ixs, t);
    }
  }

  // One more definition on top of the indexes built so far.
  lemma BuildAllNext(metas: seq<IndexMeta>, i: nat, colNames: seq<string>, s: seq<(RowId, Row)>, m: IndexMap)
    requires i < |metas| && BuildAll(metas[..i], colNames, s) == Ok(m)
    ensures var ix := Build(EmptyIndex(metas[i]), colNames, s);
      && (ix.Ok? ==> ix.value.name == metas[i].name)
      && (ix.Err? || metas[i].name in m ==> BuildAll(metas[..i + 1], colNames, s).Err?)
      && (ix.Ok? && metas[i].name !in m ==>
            BuildAll(metas[..i + 1], colNames, s) == Ok(m[metas[i].name := ix.value]))
  {
    hide Build;
    assert metas[..i + 1][..i] == metas[..i];
    if Build(EmptyIndex(metas[i]), colNames, s).Ok? {
      BuildKeepsName(EmptyIndex(metas[i]), colNames, s);
    }
  }

  lemma BuildNothing(colNames: seq<string>, s: seq<(RowId, Row)>)
    ensures BuildAll([], colNames, s) == Ok(map[])
  {
  }

  lemma NotRebuildable(catalog: SchemaMap, tables: TableMap, table: string)
    requires table in catalog
    requires BuildAll(catalog[table].indexes, ColNames(catalog[table]), Scan(TableOf(tables, table))).Err?
    ensures !Rebuildable(catalog, tables)
  {
  }

  lemma EverythingRebuilt(catalog: SchemaMap, tables: TableMap, ixs: IndexSet)
    requires RebuiltFor(catalog, tables, catalog.Keys, ixs)
    ensures Rebuildable(catalog, tables) && ixs == Rebuilt(catalog, tables)
  {
    hide BuildAll, Scan, ColNames;
    assert Rebuildable(catalog, tables);
    assert ixs.Keys == Rebuilt(catalog, tables).Keys;
    forall t | t in ixs ensures ixs[t] == Rebuilt(catalog, tables)[t] {
      assert BuildAll(catalog[t].indexes, ColNames(catalog[t]), Scan(TableOf(tables, t))) == Ok(IndexesOf(ixs, t));
    }
  }

  lemma {:induction false} BuildStaysFailed(ix: BTreeIndex, colNames: seq<string>, s: seq<(RowId, Row)>, i: nat)
    requires i <= |s| && Build(ix, colNames, s[..i]).Err?
    ensures Build(ix, colNames, s) == Build(ix, colNames, s[..i])
    decreases |s|
  {
    if i == |s| {
      assert s[..i] == s;
    } else {
      assert s[..|s| - 1][..i] == s[..i];
      BuildStaysFailed(ix, colNames, s[..|s| - 1], i);
    }
  }

  lemma {:induction false} BuildAllStaysFailed(
    metas: seq<IndexMeta>, colNames: seq<string>, s: seq<(RowId, Row)>, i: nat)
    requires i <= |metas| && BuildAll(metas[..i], colNames, s).Err?
    ensures BuildAll(metas, colNames, s).Err?
    decreases |metas|
  {
    if i == |metas| {
      assert metas[..i] == metas;
    } else {
      assert metas[..|metas| - 1][..i] == metas[..i];
      BuildAllStaysFailed(metas[..|metas| - 1], colNames, s, i);
    }
  }

  lemma {:induction false} BuildKeepsName(ix: BTreeIndex, colNames: seq<string>, s: seq<(RowId, Row)>)
    requires Build(ix, colNames, s).Ok?
    ensures SameDefinition(ix, Build(ix, colNames, s).value)
  {
    if s != [] {
      BuildKeepsName(ix, colNames, s[..|s| - 1]);
      WithRowDefinition(Build(ix, colNames, s[..|s| - 1]).value, colNames, s[|s| - 1].1.values, s[|s| - 1].0);
    }
  }

  // ---- One row.

  lemma WithRowError(ix: BTreeIndex, colNames: seq<string>, values: Values, id: RowId)
    ensures WithRow(ix, colNames, values, id).Err? ==> WithRow(ix, colNames, values, id).error == DuplicateKey
  {
  }

  lemma AllAdded(m: IndexMap, m': IndexMap, colNames: seq<string>, values: Values, id: RowId)
    requires m'.Keys == m.Keys
    requires forall n :: n in m ==> WithRow(m[n], colNames, values, id) == Ok(m'[n])
    ensures AddRow(m, colNames, values, id) == Ok(m')
  {
    hide WithRow;
    assert AllAccept(m, colNames, values, id);
    var built := AddRow(m, colNames, values, id).value;
    assert built == m' by {
      assert forall n :: n in m ==> built[n] == m'[n];
    }
  }
}

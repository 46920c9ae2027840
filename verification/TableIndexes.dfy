/** All indexes of one table, moved together when a row comes or goes. */
module TableIndexes {
  import opened Types
  import opened Index
  import opened Catalog

  type IndexMap = map<string, BTreeIndex>
  type IndexSet = map<string, IndexMap>

  function IndexesOf(ixs: IndexSet, table: string): IndexMap {
    if table in ixs then ixs[table] else map[]
  }

  /** Row operations never create the entry of a table without indexes. */
  function SetIndexes(ixs: IndexSet, table: string, m: IndexMap): IndexSet {
    if table in ixs then ixs[table := m] else ixs
  }

  predicate AllAccept(m: IndexMap, colNames: seq<string>, values: Values, id: RowId) {
    forall n :: n in m ==> WithRow(m[n], colNames, values, id).Ok?
  }

  function AddRow(m: IndexMap, colNames: seq<string>, values: Values, id: RowId): Result<IndexMap, Error> {
    if AllAccept(m, colNames, values, id)
    then Ok(map n | n in m :: WithRow(m[n], colNames, values, id).value)
    else Err(DuplicateKey)
  }

  function DropRow(m: IndexMap, colNames: seq<string>, values: Values, id: RowId): IndexMap {
    map n | n in m :: WithoutRow(m[n], colNames, values, id)
  }

  ghost predicate AllAgree(m: IndexMap, colNames: seq<string>, rows: RowValues) {
    forall n :: n in m ==> Agrees(m[n], colNames, rows)
  }

  /** The catalog's index definitions describe the live indexes. */
  ghost predicate MetasMatch(metas: seq<IndexMeta>, m: IndexMap) {
    && (forall i :: 0 <= i < |metas| ==> metas[i].name in m && MetaMatches(metas[i], m[metas[i].name]))
    && (forall n :: n in m ==> exists i :: 0 <= i < |metas| && metas[i].name == n)
  }

  ghost predicate MetaMatches(meta: IndexMeta, ix: BTreeIndex) {
    ix.name == meta.name && ix.columns == meta.columns && ix.unique == meta.unique
  }

  ghost predicate UniqueFor(meta: IndexMeta, colNames: seq<string>, rows: RowValues) {
    KeysUnique(meta.unique, KeysOf(meta.columns, colNames, rows))
  }

  /** The rows satisfy every unique index the catalog knows. */
  ghost predicate UniqueRows(schema: TableSchema, rows: RowValues) {
    forall i :: 0 <= i < |schema.indexes| ==> UniqueFor(schema.indexes[i], ColNames(schema), rows)
  }

  ghost predicate TableAgrees(schema: TableSchema, m: IndexMap, rows: RowValues) {
    MetasMatch(schema.indexes, m) && AllAgree(m, ColNames(schema), rows)
  }

  lemma TableAgreesUnique(schema: TableSchema, m: IndexMap, rows: RowValues)
    requires TableAgrees(schema, m, rows)
    ensures UniqueRows(schema, rows)
  {
    hide KeysOf, KeysUnique, TreeAgrees;
    forall i | 0 <= i < |schema.indexes|
      ensures UniqueFor(schema.indexes[i], ColNames(schema), rows)
    {
      var ix := m[schema.indexes[i].name];
      assert Agrees(ix, ColNames(schema), rows) && MetaMatches(schema.indexes[i], ix);
      AgreesImpliesUnique(ix.tree, ix.unique, KeysOf(ix.columns, ColNames(schema), rows));
    }
  }

  /** A new row enters all indexes or is refused, exactly by uniqueness. */
  lemma AddRowAgrees(schema: TableSchema, m: IndexMap, rows: RowValues, values: Values, id: RowId)
    requires TableAgrees(schema, m, rows) && id !in rows
    ensures AddRow(m, ColNames(schema), values, id).Ok? <==> UniqueRows(schema, rows[id := values])
    ensures AddRow(m, ColNames(schema), values, id).Ok? ==>
      TableAgrees(schema, AddRow(m, ColNames(schema), values, id).value, rows[id := values])
  {
    hide KeysOf, KeysUnique, Agrees, WithRow;
    var colNames, rows' := ColNames(schema), rows[id := values];
    forall n | n in m
      ensures WithRow(m[n], colNames, values, id).Ok?
        <==> KeysUnique(m[n].unique, KeysOf(m[n].columns, colNames, rows'))
      ensures WithRow(m[n], colNames, values, id).Ok? ==>
        && Agrees(WithRow(m[n], colNames, values, id).value, colNames, rows')
        && SameDefinition(m[n], WithRow(m[n], colNames, values, id).value)
    {
      assert Agrees(m[n], colNames, rows);
      WithRowAgrees(m[n], colNames, rows, values, id);
      WithRowDefinition(m[n], colNames, values, id);
    }
    if UniqueRows(schema, rows') {
      forall n | n in m ensures WithRow(m[n], colNames, values, id).Ok? {
        var i :| 0 <= i < |schema.indexes| && schema.indexes[i].name == n;
        assert UniqueFor(schema.indexes[i], colNames, rows') && MetaMatches(schema.indexes[i], m[n]);
      }
    }
    if AllAccept(m, colNames, values, id) {
      var m' := AddRow(m, colNames, values, id).value;
      forall i | 0 <= i < |schema.indexes|
        ensures UniqueFor(schema.indexes[i], colNames, rows')
        ensures schema.indexes[i].name in m' && MetaMatches(schema.indexes[i], m'[schema.indexes[i].name])
      {
        var ix := m[schema.indexes[i].name];
        assert MetaMatches(schema.indexes[i], ix) && WithRow(ix, colNames, values, id).Ok?;
      }
    }
  }

  ghost predicate SameDefinition(a: BTreeIndex, b: BTreeIndex) {
    a.name == b.name && a.columns == b.columns && a.unique == b.unique
  }

  lemma WithRowDefinition(ix: BTreeIndex, colNames: seq<string>, values: Values, id: RowId)
    ensures WithRow(ix, colNames, values, id).Ok? ==> SameDefinition(ix, WithRow(ix, colNames, values, id).value)
  {
  }

  lemma DropRowAgrees(schema: TableSchema, m: IndexMap, rows: RowValues, id: RowId)
    requires TableAgrees(schema, m, rows) && id in rows
    ensures TableAgrees(schema, DropRow(m, ColNames(schema), rows[id], id), rows - {id})
  {
    hide KeysOf, Agrees, TreeRemove;
    var colNames, m' := ColNames(schema), DropRow(m, ColNames(schema), rows[id], id);
    forall n | n in m'
      ensures Agrees(m'[n], colNames, rows - {id}) && SameDefinition(m[n], m'[n])
    {
      assert Agrees(m[n], colNames, rows);
      WithoutRowAgrees(m[n], colNames, rows, id);
    }
    forall i | 0 <= i < |schema.indexes|
      ensures schema.indexes[i].name in m' && MetaMatches(schema.indexes[i], m'[schema.indexes[i].name])
    {
      assert MetaMatches(schema.indexes[i], m[schema.indexes[i].name]);
    }
  }

  /** An update takes the old row out and puts the new values in. */
  lemma ReplaceRowAgrees(schema: TableSchema, m: IndexMap, rows: RowValues, values: Values, id: RowId)
    requires TableAgrees(schema, m, rows) && id in rows
    ensures var r := AddRow(DropRow(m, ColNames(schema), rows[id], id), ColNames(schema), values, id);
      && (r.Ok? <==> UniqueRows(schema, rows[id := values]))
      && (r.Ok? ==> TableAgrees(schema, r.value, rows[id := values]))
  {
    hide TableAgrees, AddRow, DropRow, UniqueRows;
    DropRowAgrees(schema, m, rows, id);
    AddRowAgrees(schema, DropRow(m, ColNames(schema), rows[id], id), rows - {id}, values, id);
    assert (rows - {id})[id := values] == rows[id := values];
  }

  // ---- Building all indexes of a table from its rows.

  function EmptyIndex(meta: IndexMeta): BTreeIndex {
    BTreeIndex(meta.name, meta.columns, meta.unique, map[])
  }

  function BuildAll(metas: seq<IndexMeta>, colNames: seq<string>, s: seq<(RowId, Row)>): Result<IndexMap, Error> {
    if metas == [] then Ok(map[])
    else
      var meta := metas[|metas| - 1];
      match BuildAll(metas[..|metas| - 1], colNames, s)
      case Err(e) => Err(e)
      case Ok(m) =>
        match Build(EmptyIndex(meta), colNames, s)
        case Err(e) => Err(e)
        case Ok(ix) => if meta.name in m then Err(IndexExists) else Ok(m[meta.name := ix])
  }

  ghost predicate DistinctNames(metas: seq<IndexMeta>) {
    forall i, j :: 0 <= i < j < |metas| ==> metas[i].name != metas[j].name
  }

  /** A rebuild succeeds exactly when every unique index holds, and then agrees with the rows. */
  lemma {:induction false} BuildAllAgrees(metas: seq<IndexMeta>, colNames: seq<string>, s: seq<(RowId, Row)>)
    requires StrictlySorted(s) && DistinctNames(metas)
    ensures BuildAll(metas, colNames, s).Ok?
      <==> forall i :: 0 <= i < |metas| ==> UniqueFor(metas[i], colNames, ScanValues(s))
    ensures BuildAll(metas, colNames, s).Ok? ==>
      && MetasMatch(metas, BuildAll(metas, colNames, s).value)
      && AllAgree(BuildAll(metas, colNames, s).value, colNames, ScanValues(s))
  {
    hide Build, UniqueFor, Agrees, ScanValues, MetasMatch, AllAgree;
    if metas == [] {
      NoMetas(colNames, ScanValues(s));
    } else {
      var init, meta := metas[..|metas| - 1], metas[|metas| - 1];
      assert metas == init + [meta];
      BuildAllAgrees(init, colNames, s);
      BuildOneAgrees(meta, colNames, s);
      if BuildAll(init, colNames, s).Ok? {
        var m := BuildAll(init, colNames, s).value;
        FreshName(init, meta, m);
        if Build(EmptyIndex(meta), colNames, s).Ok? {
          SnocMetas(init, meta, m, Build(EmptyIndex(meta), colNames, s).value, colNames, ScanValues(s));
        }
      }
      assert forall i :: 0 <= i < |init| ==> metas[i] == init[i];
    }
  }

  lemma NoMetas(colNames: seq<string>, rows: RowValues)
    ensures MetasMatch([], map[]) && AllAgree(map[], colNames, rows)
  {
  }

  lemma BuildOneAgrees(meta: IndexMeta, colNames: seq<string>, s: seq<(RowId, Row)>)
    requires StrictlySorted(s)
    ensures Build(EmptyIndex(meta), colNames, s).Ok? <==> UniqueFor(meta, colNames, ScanValues(s))
    ensures Build(EmptyIndex(meta), colNames, s).Ok? ==>
      && Agrees(Build(EmptyIndex(meta), colNames, s).value, colNames, ScanValues(s))
      && MetaMatches(meta, Build(EmptyIndex(meta), colNames, s).value)
  {
    hide Build, Agrees, ScanValues;
    BuildAgrees(EmptyIndex(meta), colNames, s);
    if Build(EmptyIndex(meta), colNames, s).Ok? {
      var ix := Build(EmptyIndex(meta), colNames, s).value;
      assert ix.(tree := map[]) == EmptyIndex(meta);
      assert ix.name == meta.name && ix.columns == meta.columns && ix.unique == meta.unique;
    }
  }

  lemma FreshName(init: seq<IndexMeta>, meta: IndexMeta, m: IndexMap)
    requires MetasMatch(init, m) && DistinctNames(init + [meta])
    ensures meta.name !in m
  {
    var metas := init + [meta];
    forall i | 0 <= i < |init|
      ensures init[i].name != meta.name
    {
      assert metas[i].name != metas[|init|].name;
    }
  }

  lemma SnocMetas(init: seq<IndexMeta>, meta: IndexMeta, m: IndexMap, ix: BTreeIndex,
                  colNames: seq<string>, rows: RowValues)
    requires MetasMatch(init, m) && MetaMatches(meta, ix) && meta.name !in m
    requires AllAgree(m, colNames, rows) && Agrees(ix, colNames, rows)
    ensures MetasMatch(init + [meta], m[meta.name := ix])
    ensures AllAgree(m[meta.name := ix], colNames, rows)
  {
    hide Agrees;
    var metas, m' := init + [meta], m[meta.name := ix];
    forall n | n in m'
      ensures exists i :: 0 <= i < |metas| && metas[i].name == n
    {
      if n == meta.name {
        assert metas[|init|].name == n;
      } else {
        var i :| 0 <= i < |init| && init[i].name == n;
        assert metas[i].name == n;
      }
    }
  }
}

/** When CREATE TABLE and CREATE INDEX succeed, and what they define. */
module SchemaEffects {
  import opened Types
  import opened Tables
  import opened Index
  import opened Catalog
  import opened TableIndexes
  import opened Scans
  import opened Engine
  import opened Rollback
  import opened Agreement

  ghost predicate HasColumn(schema: TableSchema, name: string) {
    exists i :: 0 <= i < |schema.columns| && EqIgnoreCase(schema.columns[i].name, name)
  }

  ghost predicate HasIndex(schema: TableSchema, name: string) {
    exists i :: 0 <= i < |schema.indexes| && schema.indexes[i].name == name
  }

  lemma ColumnFound(schema: TableSchema, name: string)
    ensures Position(ColNames(schema), name).Some? <==> HasColumn(schema, name)
  {
    hide EqIgnoreCase;
    var names := ColNames(schema);
    assert forall i :: 0 <= i < |names| ==> names[i] == schema.columns[i].name;
    if HasColumn(schema, name) {
      var i :| 0 <= i < |schema.columns| && EqIgnoreCase(schema.columns[i].name, name);
      assert EqIgnoreCase(names[i], name);
    }
  }

  lemma IndexListed(schema: TableSchema, m: IndexMap, name: string)
    requires MetasMatch(schema.indexes, m)
    ensures name in m <==> HasIndex(schema, name)
  {
    hide MetaMatches;
  }

  /**
   CREATE INDEX succeeds exactly if the table and the columns exist, the name is free, and, for a
   unique index, no two stored rows have the same key; it adds the definition and changes no row.
   */
  lemma CreateIndexExact(db: Db, table: string, meta: IndexMeta)
    requires Inv(db)
    ensures CreateIndex(db, table, meta).Ok? <==>
      && table in db.catalog && table in db.tables
      && (forall i :: 0 <= i < |meta.columns| ==> HasColumn(db.catalog[table], meta.columns[i]))
      && !HasIndex(db.catalog[table], meta.name)
      && UniqueFor(meta, ColNames(db.catalog[table]), RowVals(db.tables[table].rows))
    ensures CreateIndex(db, table, meta).Ok? ==>
      var db', schema := CreateIndex(db, table, meta).value, db.catalog[table];
      && Inv(db') && db'.tables == db.tables && db'.session == db.session
      && db'.catalog == db.catalog[table := schema.(indexes := schema.indexes + [meta])]
  {
    hide TableAgrees, UniqueFor, HasIndex, HasColumn, ColNames, Build, Scan, IdsBounded;
    if table in db.catalog {
      var schema, m, t := db.catalog[table], IndexesOf(db.indexes, table), db.tables[table];
      assert TableOk(schema, m, t);
      forall i | 0 <= i < |meta.columns|
        ensures Position(ColNames(schema), meta.columns[i]).Some? <==> HasColumn(schema, meta.columns[i])
      {
        ColumnFound(schema, meta.columns[i]);
      }
      BuildsIfUnique(schema, m, t, meta);
      NameFree(schema, m, t, meta.name);
      if CreateIndex(db, table, meta).Ok? {
        CreateIndexKeepsInv(db, table, meta);
      }
    }
  }

  lemma BuildsIfUnique(schema: TableSchema, m: IndexMap, t: Table, meta: IndexMeta)
    requires TableOk(schema, m, t)
    ensures Build(EmptyIndex(meta), ColNames(schema), Scan(t)).Ok? <==>
            UniqueFor(meta, ColNames(schema), RowVals(t.rows))
  {
    hide Scan, KeysUnique;
    ScanIsComplete(t);
    BuildOneAgrees(meta, ColNames(schema), Scan(t));
  }

  lemma NameFree(schema: TableSchema, m: IndexMap, t: Table, name: string)
    requires TableOk(schema, m, t)
    ensures name in m <==> HasIndex(schema, name)
    ensures HasIndex(schema, name) <==> exists i :: 0 <= i < |schema.indexes| && schema.indexes[i].name == name
  {
    hide AllAgree;
    IndexListed(schema, m, name);
  }

  /** CREATE TABLE succeeds exactly if the name is free; the table has these columns and no row. */
  lemma CreateTableExact(db: Db, table: string, columns: seq<ColumnDef>)
    requires Inv(db)
    ensures CreateTable(db, table, columns).Ok? <==> table !in db.catalog
    ensures CreateTable(db, table, columns).Ok? ==>
      var db' := CreateTable(db, table, columns).value;
      && Inv(db') && db'.session == db.session
      && table in db'.catalog && db'.catalog[table].columns == columns && db'.catalog - {table} == db.catalog
      && db'.tables == db.tables[table := Table(map[], 1)]
  {
    hide PrimaryIndex, TableOk, CreateTable, Inv;
    CreateTableOk(db, table, columns);
    if table !in db.catalog {
      UnknownTable(db, table);
      CreateTableKeepsInv(db, table, columns);
      CreateTableShape(db, table, columns);
      OneMore(db.catalog, table, TableSchema(columns, PrimaryIndex(table, columns)));
    }
  }

  lemma CreateTableOk(db: Db, table: string, columns: seq<ColumnDef>)
    requires Inv(db)
    ensures CreateTable(db, table, columns).Ok? <==> table !in db.catalog
  {
    hide PrimaryIndex, TableOk;
    if table !in db.catalog {
      UnknownTable(db, table);
    }
  }

  lemma OneMore(catalog: SchemaMap, table: string, schema: TableSchema)
    requires table !in catalog
    ensures catalog[table := schema] - {table} == catalog
  {
  }
}

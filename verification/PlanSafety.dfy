/** For which equalities an index plan keeps the rows of every table. */
module PlanSafety {
  import opened Types
  import opened Tables
  import opened Index
  import opened TableIndexes
  import opened Scans
  import opened Expressions
  import opened Doubles
  import opened Planner

  /** The 64-bit floats in the table are among `floats`. */
  ghost predicate Storable(floats: iset<real>, t: Table) {
    forall id, k :: id in t.rows && CellAt(t.rows[id].values, k).Float8? ==> CellAt(t.rows[id].values, k).f8 in floats
  }

  /** No other storable float compares equal to the literal. */
  ghost predicate Isolated(floats: iset<real>, v: Value) {
    v.Float8? ==> forall x :: x in floats && Near(x, v.f8) ==> x == v.f8
  }

  /** Some row can equal the literal at all: not NULL, nor of a type the comparison does not know. */
  predicate Equatable(v: Value) {
    !v.Null? && ValuesEqual(v, v)
  }

  ghost predicate SafeEquality(floats: iset<real>, colNames: seq<string>, col: string, v: Value) {
    Position(colNames, col).None? || !Equatable(v) || (Unambiguous(colNames, col) && Isolated(floats, v))
  }

  /** A query with the equality `col = v`, a table with its indexes, and a plan for it. */
  ghost predicate Setting(floats: iset<real>, colNames: seq<string>, col: string, v: Value,
                          e: Expr, m: IndexMap, t: Table, plan: ScanPlan) {
    && ExtractEquality(e) == Some((col, v))
    && MayPlan(Some(e), m, colNames, plan) && AllAgree(m, colNames, RowVals(t.rows))
    && IdsBounded(t) && Storable(floats, t)
  }

  ghost predicate AlwaysPreserves(floats: iset<real>, colNames: seq<string>, col: string, v: Value) {
    forall e, m, t, plan :: Setting(floats, colNames, col, v, e, m, t, plan) ==> Preserves(e, m, colNames, t, plan)
  }

  lemma SafeUnderLiteralKey(floats: iset<real>, colNames: seq<string>, col: string, v: Value, e: Expr, t: Table)
    requires ExtractEquality(e) == Some((col, v)) && Storable(floats, t) && SafeEquality(floats, colNames, col, v)
    ensures UnderLiteralKey(e, colNames, t)
  {
    hide Position, ColumnPosition, ExtractEquality, CellAt;
    var indexed, read := Position(colNames, col), ColumnPosition(colNames, col);
    if indexed.Some? && read.Some? {
      forall id | id in t.rows && Matches(v, t.rows[id].values, read.value)
        ensures Comparable(CellAt(t.rows[id].values, indexed.value)) == Comparable(v)
      {
        EqualValuesSameKey(CellAt(t.rows[id].values, read.value), v);
      }
    }
  }

  // ---- A table on which an unsafe equality loses a row.

  /** One row: `cell` in column `k`, NULL elsewhere. */
  function OneCell(n: nat, k: nat, cell: Value): Values {
    seq(n, i requires 0 <= i < n => if i == k then cell else Null)
  }

  function OneRowTable(values: Values): Table {
    Table(map[1 := Row(values, 1)], 2)
  }

  function IndexOn(col: string, values: Values, i: nat): BTreeIndex {
    BTreeIndex("i", [col], false, map[[Comparable(CellAt(values, i))] := [1]])
  }

  function Lookup(col: string, v: Value): Expr {
    BinaryOp(Identifier(col), Eq, Literal(v))
  }

  lemma IndexOnAgrees(colNames: seq<string>, col: string, values: Values, i: nat)
    requires Position(colNames, col) == Some(i)
    ensures AllAgree(map["i" := IndexOn(col, values, i)], colNames, RowVals(OneRowTable(values).rows))
  {
    hide Position, Comparable, CellAt;
    var rows := RowVals(OneRowTable(values).rows);
    assert KeyOf([col], colNames, values) == [Comparable(CellAt(values, i))];
    assert KeysOf([col], colNames, rows) == map[1 := [Comparable(CellAt(values, i))]];
  }

  lemma OneCellStorable(floats: iset<real>, n: nat, k: nat, cell: Value)
    requires cell.Float8? ==> cell.f8 in floats
    ensures Storable(floats, OneRowTable(OneCell(n, k, cell)))
  {
  }

  // The row equals the literal where it is read, and has another key where it is indexed.
  lemma LosesRow(floats: iset<real>, colNames: seq<string>, col: string, v: Value, cell: Value)
    requires Position(colNames, col).Some? && ColumnPosition(colNames, col).Some?
    requires var i, j := Position(colNames, col).value, ColumnPosition(colNames, col).value;
      var values := OneCell(|colNames|, j, cell);
      Matches(v, values, j) && Comparable(CellAt(values, i)) != Comparable(v)
    requires cell.Float8? ==> cell.f8 in floats
    ensures !AlwaysPreserves(floats, colNames, col, v)
  {
    hide Position, ColumnPosition, Matches, Comparable, CellAt, OneCell, Preserves, Storable, AllAgree;
    var i, j := Position(colNames, col).value, ColumnPosition(colNames, col).value;
    var values := OneCell(|colNames|, j, cell);
    var e, m := Lookup(col, v), map["i" := IndexOn(col, values, i)];
    var t, plan := OneRowTable(values), IndexLookup("i", [v]);
    IndexOnAgrees(colNames, col, values, i);
    OneCellStorable(floats, |colNames|, j, cell);
    SameName(col);
    assert MayPlan(Some(e), m, colNames, plan);
    PlanExact(e, m, colNames, t, plan);
    assert !UnderLiteralKey(e, colNames, t) by {
      assert t.rows[1].values == values;
    }
    assert Setting(floats, colNames, col, v, e, m, t, plan);
  }

  lemma SameName(col: string)
    ensures EqIgnoreCase(col, col)
  {
  }

  lemma Unsafe(floats: iset<real>, colNames: seq<string>, col: string, v: Value)
    requires v.Float8? ==> v.f8 in floats
    requires !SafeEquality(floats, colNames, col, v)
    ensures !AlwaysPreserves(floats, colNames, col, v)
  {
    hide Position, ColumnPosition, AlwaysPreserves;
    PositionReads(colNames, col);
    var j := ColumnPosition(colNames, col).value;
    var cell := v;
    if Unambiguous(colNames, col) {
      var x :| x in floats && Near(x, v.f8) && x != v.f8;
      cell := Float8(x);
    }
    LosesRow(floats, colNames, col, v, cell);
  }

  /**
   The equality `col = v` may be answered from any index on the column, on every table that stores
   floats of `floats`, exactly if the name is read from the column the index is on and no other
   storable float is within epsilon of the literal.
   */
  lemma PlanSafeExact(floats: iset<real>, colNames: seq<string>, col: string, v: Value)
    requires v.Float8? ==> v.f8 in floats
    ensures AlwaysPreserves(floats, colNames, col, v) <==> SafeEquality(floats, colNames, col, v)
  {
    hide SafeEquality, Preserves, AllAgree, UnderLiteralKey, Storable, IdsBounded;
    if SafeEquality(floats, colNames, col, v) {
      forall e, m, t, plan | Setting(floats, colNames, col, v, e, m, t, plan)
        ensures Preserves(e, m, colNames, t, plan)
      {
        SafeUnderLiteralKey(floats, colNames, col, v, e, t);
        PlanExact(e, m, colNames, t, plan);
      }
    } else {
      Unsafe(floats, colNames, col, v);
    }
  }

  // ---- The storable floats are the doubles.

  ghost function AllDoubles(): iset<real> {
    iset x | IsDouble(x)
  }

  /** On an unambiguous column a float literal is safe exactly if its size is above 1. */
  lemma FloatPlanExact(colNames: seq<string>, col: string, f: real)
    requires IsDouble(f) && Position(colNames, col).Some? && Unambiguous(colNames, col)
    ensures AlwaysPreserves(AllDoubles(), colNames, col, Float8(f)) <==> f > 1.0 || f < -1.0
  {
    hide AlwaysPreserves, Position, IsDouble;
    PlanSafeExact(AllDoubles(), colNames, col, Float8(f));
    AloneExact(f);
  }

  // ---- A quoted name with a dot.

  const NAMES: seq<string> := ["x", "t.x"]

  lemma DottedNameAmbiguous()
    ensures Position(NAMES, "t.x").Some? && !Unambiguous(NAMES, "t.x")
  {
    assert Bare("t.x") == "x" by {
      assert "t.x"[..2] == "t." && Bare("t.") == [];
    }
    assert EqIgnoreCase("x", "x");
    assert ColumnPosition(NAMES, "t.x") == Some(0);
    assert !EqIgnoreCase("x", "t.x") && NAMES[1] == "t.x";
    SameName("t.x");
    assert Position(NAMES, "t.x") != Some(0);
  }

  /** With columns `x` and `t.x`, the name `t.x` reads the first and is indexed by the second. */
  lemma DottedNameLosesRow(floats: iset<real>, v: Value)
    requires Equatable(v) && (v.Float8? ==> v.f8 in floats)
    ensures !AlwaysPreserves(floats, NAMES, "t.x", v)
  {
    hide Position, Unambiguous, AlwaysPreserves, Equatable;
    DottedNameAmbiguous();
    PlanSafeExact(floats, NAMES, "t.x", v);
  }
}

/** What a list of assignments makes of a row, cell by cell. */
module Assignments {
  import opened Types
  import opened Index
  import opened Catalog
  import opened Expressions
  import opened Statements

  ghost predicate Names(schema: TableSchema, a: Assignment, k: nat) {
    Position(ColNames(schema), a.column) == Some(k)
  }

  /** The last assignment to column `k`. */
  ghost function LastTo(schema: TableSchema, assignments: seq<Assignment>, k: nat): (r: Option<nat>)
    ensures r.Some? ==>
      && r.value < |assignments| && Names(schema, assignments[r.value], k)
      && forall j :: r.value < j < |assignments| ==> !Names(schema, assignments[j], k)
    ensures r.None? ==> forall j :: 0 <= j < |assignments| ==> !Names(schema, assignments[j], k)
  {
    if assignments == [] then None
    else if Names(schema, assignments[|assignments| - 1], k) then Some(|assignments| - 1)
    else LastTo(schema, assignments[..|assignments| - 1], k)
  }

  /**
   Cell `k` holds the value of the last assignment to its column, evaluated in the row as the earlier
   ones left it and converted to the column's type; a cell without one stays, and a column the table
   does not have changes nothing.
   */
  ghost predicate AssignedRow(schema: TableSchema, row: Values, assignments: seq<Assignment>, excluded: Option<Values>,
                              row': Values)
    decreases |assignments|, 0
  {
    && |row'| == |row|
    && forall k :: 0 <= k < |row| ==>
         var last := LastTo(schema, assignments, k);
         if last.None? then row'[k] == row[k]
         else CellAssigned(schema, row, assignments, excluded, last.value, k, row'[k])
  }

  ghost predicate CellAssigned(schema: TableSchema, row: Values, assignments: seq<Assignment>,
                               excluded: Option<Values>, j: nat, k: nat, cell: Value)
    requires j < |assignments|
    decreases j, 1
  {
    k < |schema.columns| &&
    exists before, v ::
      && AssignedRow(schema, row, assignments[..j], excluded, before)
      && Eval(assignments[j].value, before, ColNames(schema), excluded) == Ok(v)
      && CoerceTo(v, schema.columns[k].dataType) == Ok(cell)
  }

  lemma AssignOneCells(schema: TableSchema, row: Values, a: Assignment, excluded: Option<Values>)
    requires AssignOne(schema, row, a, excluded).Ok?
    ensures var row', v := AssignOne(schema, row, a, excluded).value, Eval(a.value, row, ColNames(schema), excluded);
      && v.Ok? && |row'| == |row|
      && forall k :: 0 <= k < |row| ==>
           if Names(schema, a, k)
           then k < |schema.columns| && CoerceTo(v.value, schema.columns[k].dataType) == Ok(row'[k])
           else row'[k] == row[k]
  {
    hide Eval, CoerceTo;
  }

  lemma {:induction false} AssignedCells(schema: TableSchema, row: Values, assignments: seq<Assignment>,
                                         excluded: Option<Values>)
    requires Assigned(schema, row, assignments, excluded).Ok?
    ensures AssignedRow(schema, row, assignments, excluded, Assigned(schema, row, assignments, excluded).value)
    decreases |assignments|
  {
    hide Eval, CoerceTo, AssignOne, Names, ColNames;
    if assignments != [] {
      var n := |assignments| - 1;
      var init, last := assignments[..n], assignments[n];
      AssignedCells(schema, row, init, excluded);
      var before := Assigned(schema, row, init, excluded).value;
      var row' := Assigned(schema, row, assignments, excluded).value;
      AssignOneCells(schema, before, last, excluded);
      forall k | 0 <= k < |row|
        ensures var j := LastTo(schema, assignments, k);
          if j.None? then row'[k] == row[k]
          else CellAssigned(schema, row, assignments, excluded, j.value, k, row'[k])
      {
        if Names(schema, last, k) {
          assert CellAssigned(schema, row, assignments, excluded, n, k, row'[k]);
        } else if LastTo(schema, init, k).Some? {
          var j := LastTo(schema, init, k).value;
          assert init[..j] == assignments[..j] && init[j] == assignments[j];
          assert CellAssigned(schema, row, init, excluded, j, k, before[k]);
        }
      }
    }
  }

  /** No NULL in a column that does not allow it. */
  ghost predicate NullsAllowed(columns: seq<ColumnDef>, row: Values) {
    forall i :: 0 <= i < |columns| && (i < |row| ==> row[i] == Null) ==> columns[i].nullable
  }

  // ---- When a list of assignments can be carried out.

  lemma {:induction false} AssignedUnique(schema: TableSchema, row: Values, assignments: seq<Assignment>,
                                          excluded: Option<Values>, a: Values, b: Values)
    requires AssignedRow(schema, row, assignments, excluded, a) && AssignedRow(schema, row, assignments, excluded, b)
    ensures a == b
    decreases |assignments|
  {
    hide Eval, CoerceTo, ColNames;
    forall k | 0 <= k < |row| ensures a[k] == b[k] {
      var last := LastTo(schema, assignments, k);
      if last.Some? {
        var j := last.value;
        var before, v :| AssignedRow(schema, row, assignments[..j], excluded, before)
          && Eval(assignments[j].value, before, ColNames(schema), excluded) == Ok(v)
          && CoerceTo(v, schema.columns[k].dataType) == Ok(a[k]);
        var before', v' :| AssignedRow(schema, row, assignments[..j], excluded, before')
          && Eval(assignments[j].value, before', ColNames(schema), excluded) == Ok(v')
          && CoerceTo(v', schema.columns[k].dataType) == Ok(b[k]);
        AssignedUnique(schema, row, assignments[..j], excluded, before, before');
      }
    }
  }

  /** The value of the assignment can be computed in the row, and converted if its column exists. */
  ghost predicate Assignable(schema: TableSchema, row: Values, a: Assignment, excluded: Option<Values>) {
    var v := Eval(a.value, row, ColNames(schema), excluded);
    && v.Ok?
    && forall k :: 0 <= k < |schema.columns| && Names(schema, a, k) ==>
         k < |row| && CoerceTo(v.value, schema.columns[k].dataType).Ok?
  }

  ghost predicate AssignableAt(schema: TableSchema, row: Values, assignments: seq<Assignment>,
                               excluded: Option<Values>, j: nat)
    requires j < |assignments|
  {
    exists before ::
      && AssignedRow(schema, row, assignments[..j], excluded, before)
      && Assignable(schema, before, assignments[j], excluded)
  }

  ghost predicate AllAssignable(schema: TableSchema, row: Values, assignments: seq<Assignment>,
                                excluded: Option<Values>) {
    forall j :: 0 <= j < |assignments| ==> AssignableAt(schema, row, assignments, excluded, j)
  }

  lemma AssignOneExact(schema: TableSchema, row: Values, a: Assignment, excluded: Option<Values>)
    ensures AssignOne(schema, row, a, excluded).Ok? <==> Assignable(schema, row, a, excluded)
  {
    hide Eval, CoerceTo;
  }

  lemma {:induction false} AssignedExact(schema: TableSchema, row: Values, assignments: seq<Assignment>,
                                         excluded: Option<Values>)
    ensures Assigned(schema, row, assignments, excluded).Ok? <==> AllAssignable(schema, row, assignments, excluded)
    decreases |assignments|
  {
    hide Assignable, AssignOne, AssignedRow;
    if assignments != [] {
      var n := |assignments| - 1;
      var init, last := assignments[..n], assignments[n];
      AssignedExact(schema, row, init, excluded);
      assert forall j :: 0 <= j < n ==> init[..j] == assignments[..j] && init[j] == assignments[j];
      assert AllAssignable(schema, row, init, excluded) <==>
        forall j :: 0 <= j < n ==> AssignableAt(schema, row, assignments, excluded, j) by {
        assert forall j :: 0 <= j < n ==>
          (AssignableAt(schema, row, init, excluded, j) <==> AssignableAt(schema, row, assignments, excluded, j));
      }
      if Assigned(schema, row, init, excluded).Ok? {
        var before := Assigned(schema, row, init, excluded).value;
        AssignedCells(schema, row, init, excluded);
        AssignOneExact(schema, before, last, excluded);
        forall other | AssignedRow(schema, row, init, excluded, other) ensures other == before {
          AssignedUnique(schema, row, init, excluded, other, before);
        }
        assert AssignableAt(schema, row, assignments, excluded, n) <==> Assignable(schema, before, last, excluded);
      }
    }
  }

  /** The assignments can be carried out on `row`, they give `row'`, and it has no forbidden NULL. */
  ghost predicate ChangedRow(schema: TableSchema, row: Values, assignments: seq<Assignment>, excluded: Option<Values>,
                             row': Values) {
    && AllAssignable(schema, row, assignments, excluded)
    && AssignedRow(schema, row, assignments, excluded, row')
    && NullsAllowed(schema.columns, row')
  }

  lemma ChangedExact(schema: TableSchema, row: Values, assignments: seq<Assignment>, excluded: Option<Values>,
                     row': Values)
    ensures Changed(schema, row, assignments, excluded) == Ok(row')
      <==> ChangedRow(schema, row, assignments, excluded, row')
  {
    hide Assigned, AssignedRow, AllAssignable;
    AssignedExact(schema, row, assignments, excluded);
    if Assigned(schema, row, assignments, excluded).Ok? {
      var r := Assigned(schema, row, assignments, excluded).value;
      AssignedCells(schema, row, assignments, excluded);
      NullsAllowedExact(schema.columns, r);
      if AssignedRow(schema, row, assignments, excluded, row') {
        AssignedUnique(schema, row, assignments, excluded, row', r);
      }
    }
  }

  lemma NullsAllowedExact(columns: seq<ColumnDef>, row: Values)
    ensures ValidRow(columns, row) <==> NullsAllowed(columns, row)
  {
  }
}

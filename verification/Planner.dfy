/** Index plans: the rows a SELECT keeps do not depend on the plan. */
module Planner {
  import opened Types
  import opened Tables
  import opened Sorting
  import opened Index
  import opened TableIndexes
  import opened Scans
  import opened Expressions
  import opened Storage

  datatype ScanPlan = FullScan | IndexLookup(indexName: string, keyValues: seq<Value>)

  function ExtractEquality(e: Expr): Option<(string, Value)> {
    match e
    case BinaryOp(Identifier(name), Eq, Literal(v)) => Some((name, v))
    case BinaryOp(Literal(v), Eq, Identifier(name)) => Some((name, v))
    case Nested(inner) => ExtractEquality(inner)
    case _ => None
  }

  predicate CoversColumn(ix: BTreeIndex, col: string) {
    |ix.columns| == 1 && EqIgnoreCase(ix.columns[0], col)
  }

  /**
   The plans for a WHERE clause.  With several indexes on the column, the order of a hash map
   decides which one is taken.
   */
  ghost predicate MayPlan(where: Option<Expr>, m: IndexMap, colNames: seq<string>, plan: ScanPlan) {
    var equality := if where.Some? then ExtractEquality(where.value) else None;
    if equality.None? || Position(colNames, equality.value.0).None? then plan == FullScan
    else
      match plan
      case FullScan => forall n :: n in m ==> !CoversColumn(m[n], equality.value.0)
      case IndexLookup(name, keyValues) =>
        name in m && CoversColumn(m[name], equality.value.0) && keyValues == [equality.value.1]
  }

  method PlanScan(where: Option<Expr>, m: IndexMap, colNames: seq<string>) returns (plan: ScanPlan)
    ensures MayPlan(where, m, colNames, plan)
  {
    if where.None? { return FullScan; }
    var equality := ExtractEquality(where.value);
    if equality.None? { return FullScan; }
    var (col, v) := equality.value;
    if Position(colNames, col).None? { return FullScan; }
    var left := m.Keys;
    while left != {}
      invariant left <= m.Keys
      invariant forall n :: n in m && n !in left ==> !CoversColumn(m[n], col)
      decreases |left|
    {
      var n :| n in left;
      if CoversColumn(m[n], col) { return IndexLookup(n, [v]); }
      left := left - {n};
    }
    plan := FullScan;
  }

  // ---- The rows a plan offers, and the ones the WHERE clause keeps.

  function Candidates(plan: ScanPlan, m: IndexMap, t: Table): seq<(RowId, Row)>
    requires plan.IndexLookup? ==> plan.indexName in m
  {
    match plan
    case FullScan => Scan(t)
    case IndexLookup(name, keyValues) => Fetched(t.rows, TreeLookup(m[name].tree, ToKey(keyValues)))
  }

  /** Evaluation stops at the first error. */
  function Filtered(where: Option<Expr>, colNames: seq<string>, s: seq<(RowId, Row)>)
    : Result<seq<(RowId, Row)>, Error>
  {
    if s == [] then Ok([])
    else
      match Filtered(where, colNames, s[..|s| - 1])
      case Err(e) => Err(e)
      case Ok(kept) =>
        var last := s[|s| - 1];
        match (if where.None? then Ok(true) else EvalWhere(where.value, last.1.values, colNames, None))
        case Err(e) => Err(e)
        case Ok(b) => Ok(if b then kept + [last] else kept)
  }

  function RowsOf(s: seq<(RowId, Row)>): seq<Row> {
    seq(|s|, i requires 0 <= i < |s| => s[i].1)
  }

  // ---- An equality, evaluated.

  /** The identifier means the column an index on it uses: there is no earlier column that only
   matches the part behind its last dot. */
  predicate Unambiguous(colNames: seq<string>, col: string) {
    ColumnPosition(colNames, col) == Position(colNames, col)
  }

  lemma PlainNameUnambiguous(colNames: seq<string>, col: string)
    requires '.' !in col
    ensures Unambiguous(colNames, col)
  {
    hide EqIgnoreCase, Refers, ColumnPosition, Position;
    ColumnPositionFirst(colNames, col);
    forall i | 0 <= i < |colNames| ensures Refers(col, colNames[i]) <==> EqIgnoreCase(colNames[i], col) {
      PlainRefers(col, colNames[i]);
    }
  }

  lemma PlainRefers(col: string, column: string)
    requires '.' !in col
    ensures Refers(col, column) <==> EqIgnoreCase(column, col)
  {
    hide EqIgnoreCase;
    BareOfPlain(col);
  }

  lemma BareOfPlain(col: string)
    requires '.' !in col
    ensures Bare(col) == col
  {
    if col != [] {
      assert col[|col| - 1] in col;
    }
  }

  predicate Matches(v: Value, row: Values, i: nat) {
    !v.Null? && !CellAt(row, i).Null? && ValuesEqual(CellAt(row, i), v)
  }

  lemma ValuesEqualSym(a: Value, b: Value)
    ensures ValuesEqual(a, b) <==> ValuesEqual(b, a)
  {
  }

  lemma EvalEq(l: Value, r: Value)
    ensures EvalBinary(l, Eq, r) == Bool(!l.Null? && !r.Null? && ValuesEqual(l, r))
  {
  }

  /** Either operand order and any number of parentheses evaluate to the same test. */
  lemma {:induction false} EqualityEvaluates(e: Expr, row: Values, colNames: seq<string>)
    requires ExtractEquality(e).Some?
    requires ColumnPosition(colNames, ExtractEquality(e).value.0).Some?
    ensures var (col, v) := ExtractEquality(e).value;
      EvalWhere(e, row, colNames, None) == Ok(Matches(v, row, ColumnPosition(colNames, col).value))
    decreases e
  {
    hide ColumnPosition, ValuesEqual, EvalBinary, CellAt;
    match e {
      case Nested(inner) => EqualityEvaluates(inner, row, colNames);
      case BinaryOp(Identifier(name), Eq, Literal(v)) =>
        var cell := CellAt(row, ColumnPosition(colNames, name).value);
        assert Eval(e.left, row, colNames, None) == Ok(cell) && Eval(e.right, row, colNames, None) == Ok(v);
        EvalEq(cell, v);
      case BinaryOp(Literal(v), Eq, Identifier(name)) =>
        var cell := CellAt(row, ColumnPosition(colNames, name).value);
        assert Eval(e.left, row, colNames, None) == Ok(v) && Eval(e.right, row, colNames, None) == Ok(cell);
        EvalEq(v, cell);
        ValuesEqualSym(v, cell);
    }
  }

  /** Of two values the comparison calls equal, only different 64-bit floats have different index keys. */
  lemma EqualValuesSameKey(a: Value, b: Value)
    requires ValuesEqual(a, b)
    ensures Comparable(a) == Comparable(b) <==> !(a.Float8? && b.Float8? && a.f8 != b.f8)
  {
  }

  // ---- Plan independence.

  ghost predicate Keeps(where: Expr, colNames: seq<string>, p: (RowId, Row)) {
    EvalWhere(where, p.1.values, colNames, None) == Ok(true)
  }

  lemma FilteredSnoc(where: Expr, colNames: seq<string>, init: seq<(RowId, Row)>, last: (RowId, Row))
    requires Filtered(Some(where), colNames, init).Ok? && EvalWhere(where, last.1.values, colNames, None).Ok?
    ensures Filtered(Some(where), colNames, init + [last])
      == Ok(Filtered(Some(where), colNames, init).value + if Keeps(where, colNames, last) then [last] else [])
  {
    hide EvalWhere, Filtered;
    var s, kept := init + [last], Filtered(Some(where), colNames, init).value;
    assert s[..|s| - 1] == init && s[|s| - 1] == last;
    FilteredLast(where, colNames, s);
    assert kept + [] == kept;
  }

  lemma FilteredLast(where: Expr, colNames: seq<string>, s: seq<(RowId, Row)>)
    requires s != [] && Filtered(Some(where), colNames, s[..|s| - 1]).Ok?
    requires EvalWhere(where, s[|s| - 1].1.values, colNames, None).Ok?
    ensures var kept := Filtered(Some(where), colNames, s[..|s| - 1]).value;
      Filtered(Some(where), colNames, s)
      == Ok(if EvalWhere(where, s[|s| - 1].1.values, colNames, None).value then kept + [s[|s| - 1]] else kept)
  {
    hide EvalWhere;
  }

  lemma {:induction false} FilteredElements(where: Expr, colNames: seq<string>, s: seq<(RowId, Row)>)
    requires forall p :: p in s ==> EvalWhere(where, p.1.values, colNames, None).Ok?
    ensures Filtered(Some(where), colNames, s).Ok?
    ensures forall p :: p in Filtered(Some(where), colNames, s).value <==> p in s && Keeps(where, colNames, p)
    ensures |Filtered(Some(where), colNames, s).value| <= |s|
  {
    hide EvalWhere, Keeps;
    if s == [] {
    } else {
      hide Filtered;
      var init, last := s[..|s| - 1], s[|s| - 1];
      assert s == init + [last];
      FilteredElements(where, colNames, init);
      FilteredSnoc(where, colNames, init, last);
    }
  }

  lemma {:induction false} FilteredDistinct(where: Expr, colNames: seq<string>, s: seq<(RowId, Row)>)
    requires forall p :: p in s ==> EvalWhere(where, p.1.values, colNames, None).Ok?
    requires DistinctKeys(s, Id)
    ensures Filtered(Some(where), colNames, s).Ok? && DistinctKeys(Filtered(Some(where), colNames, s).value, Id)
  {
    hide EvalWhere, Keeps;
    if s != [] {
      hide Filtered;
      var init, last := s[..|s| - 1], s[|s| - 1];
      assert s == init + [last];
      assert DistinctKeys(init, Id);
      FilteredDistinct(where, colNames, init);
      FilteredElements(where, colNames, init);
      FilteredSnoc(where, colNames, init, last);
      var kept := Filtered(Some(where), colNames, init).value;
      forall i | 0 <= i < |kept| ensures kept[i].0 != last.0 {
        assert kept[i] in init;
        var k :| 0 <= k < |init| && init[k] == kept[i];
        assert Id(s[k]) != Id(s[|s| - 1]);
      }
    }
  }

  function Id(p: (RowId, Row)): nat {
    p.0
  }

  lemma {:induction false} FetchedElements(rows: map<RowId, Row>, ids: seq<RowId>)
    ensures forall p :: p in Fetched(rows, ids) <==> p.0 in ids && p.0 in rows && rows[p.0] == p.1
    ensures Distinct(ids) ==> DistinctKeys(Fetched(rows, ids), Id)
    ensures |Fetched(rows, ids)| <= |ids|
  {
    if ids != [] {
      var init, last := ids[..|ids| - 1], ids[|ids| - 1];
      assert ids == init + [last];
      FetchedElements(rows, init);
      if Distinct(ids) {
        assert Distinct(init);
        var f := Fetched(rows, init);
        forall i | 0 <= i < |f| ensures f[i].0 != last {
          assert f[i] in f;
          var k :| 0 <= k < |init| && init[k] == f[i].0;
          assert ids[k] != ids[|ids| - 1];
        }
      }
    }
  }

  // The ids under the literal's key are exactly those whose indexed cell has that key.
  lemma LookupIsComplete(ix: BTreeIndex, colNames: seq<string>, t: Table, v: Value, i: nat)
    requires Agrees(ix, colNames, RowVals(t.rows)) && |ix.columns| == 1
    requires Position(colNames, ix.columns[0]) == Some(i)
    ensures var ids := TreeLookup(ix.tree, ToKey([v]));
      && Distinct(ids)
      && (ix.unique ==> |ids| <= 1)
      && forall id :: id in ids <==> id in t.rows && Comparable(CellAt(t.rows[id].values, i)) == Comparable(v)
  {
    var ids, rows := TreeLookup(ix.tree, ToKey([v])), RowVals(t.rows);
    var keys := KeysOf(ix.columns, colNames, rows);
    forall id | id in t.rows
      ensures keys[id] == [Comparable(CellAt(t.rows[id].values, i))]
    {
      assert KeyOf(ix.columns, colNames, rows[id]) == [Comparable(CellAt(rows[id], i))];
    }
    assert ToKey([v]) == [Comparable(v)];
    forall id ensures id in ids <==> id in t.rows && Comparable(CellAt(t.rows[id].values, i)) == Comparable(v) {
      if id in ids {
        assert keys[id] == ToKey([v]);
      }
      if id in t.rows && Comparable(CellAt(t.rows[id].values, i)) == Comparable(v) {
        assert keys[id] == ToKey([v]);
      }
    }
  }

  /** The rows the plan keeps are those a full scan keeps; in the same order if the index is unique. */
  ghost predicate Preserves(e: Expr, m: IndexMap, colNames: seq<string>, t: Table, plan: ScanPlan)
    requires plan.IndexLookup? ==> plan.indexName in m
  {
    var planned, full := Filtered(Some(e), colNames, Candidates(plan, m, t)), Filtered(Some(e), colNames, Scan(t));
    && planned.Ok? == full.Ok?
    && (planned.Ok? ==>
          && multiset(RowsOf(planned.value)) == multiset(RowsOf(full.value))
          && (plan.IndexLookup? && m[plan.indexName].unique ==> RowsOf(planned.value) == RowsOf(full.value)))
  }

  /** Every row the equality selects has the literal's key in the column the index is on. */
  ghost predicate UnderLiteralKey(e: Expr, colNames: seq<string>, t: Table) {
    ExtractEquality(e).Some? ==>
      var (col, v) := ExtractEquality(e).value;
      var indexed, read := Position(colNames, col), ColumnPosition(colNames, col);
      indexed.Some? && read.Some? ==>
        forall id :: id in t.rows && Matches(v, t.rows[id].values, read.value) ==>
          Comparable(CellAt(t.rows[id].values, indexed.value)) == Comparable(v)
  }

  /**
   An index lookup followed by the WHERE clause yields what the full scan followed by the WHERE
   clause yields, exactly if every row the equality selects is under the literal's key.
   */
  lemma PlanExact(e: Expr, m: IndexMap, colNames: seq<string>, t: Table, plan: ScanPlan)
    requires MayPlan(Some(e), m, colNames, plan) && AllAgree(m, colNames, RowVals(t.rows)) && IdsBounded(t)
    ensures plan.IndexLookup? ==> (Preserves(e, m, colNames, t, plan) <==> UnderLiteralKey(e, colNames, t))
    ensures plan.FullScan? ==> Preserves(e, m, colNames, t, plan)
    ensures Filtered(Some(e), colNames, Candidates(plan, m, t)).Ok? == Filtered(Some(e), colNames, Scan(t)).Ok?
  {
    hide Filtered, Scan, EvalWhere, ColumnPosition, Position, EqIgnoreCase, ExtractEquality, Agrees, Fetched, RowVals,
         Matches, Comparable, CellAt;
    if plan.IndexLookup? {
      var (col, v) := ExtractEquality(e).value;
      var ix, i := m[plan.indexName], Position(colNames, col).value;
      SamePosition(colNames, ix.columns[0], col);
      LookupIsComplete(ix, colNames, t, v, i);
      PositionReads(colNames, col);
      var ids := TreeLookup(ix.tree, ToKey([v]));
      LookupKeeps(e, colNames, t, ids, i);
      if UnderLiteralKey(e, colNames, t) && ix.unique {
        OneRow(Filtered(Some(e), colNames, Fetched(t.rows, ids)).value, Filtered(Some(e), colNames, Scan(t)).value);
      }
    }
  }

  lemma {:induction false} PositionReads(colNames: seq<string>, col: string)
    ensures Position(colNames, col).Some? ==> ColumnPosition(colNames, col).Some?
  {
    hide EqIgnoreCase;
    if colNames != [] {
      PositionReads(colNames[1..], col);
    }
  }

  lemma LookupKeeps(e: Expr, colNames: seq<string>, t: Table, ids: seq<RowId>, i: nat)
    requires ExtractEquality(e).Some? && IdsBounded(t) && Distinct(ids)
    requires var col := ExtractEquality(e).value.0;
      Position(colNames, col) == Some(i) && ColumnPosition(colNames, col).Some?
    requires forall id :: id in ids <==>
      id in t.rows && Comparable(CellAt(t.rows[id].values, i)) == Comparable(ExtractEquality(e).value.1)
    ensures var planned := Filtered(Some(e), colNames, Fetched(t.rows, ids));
      var full := Filtered(Some(e), colNames, Scan(t));
      && planned.Ok? && full.Ok? && |planned.value| <= |ids|
      && (if UnderLiteralKey(e, colNames, t)
          then
            && multiset(planned.value) == multiset(full.value)
            && multiset(RowsOf(planned.value)) == multiset(RowsOf(full.value))
          else multiset(RowsOf(planned.value)) != multiset(RowsOf(full.value)))
  {
    hide Filtered, Scan, EvalWhere, ColumnPosition, Position, ExtractEquality, Fetched, Matches, CellAt, Comparable;
    var (col, v) := ExtractEquality(e).value;
    var j := ColumnPosition(colNames, col).value;
    forall row: Values ensures EvalWhere(e, row, colNames, None) == Ok(Matches(v, row, j)) {
      EqualityEvaluates(e, row, colNames);
    }
    FetchedElements(t.rows, ids);
    ScanIsComplete(t);
    FilteredElements(e, colNames, Fetched(t.rows, ids));
    FilteredElements(e, colNames, Scan(t));
    FilteredDistinct(e, colNames, Fetched(t.rows, ids));
    FilteredDistinct(e, colNames, Scan(t));
    var a, b := Filtered(Some(e), colNames, Fetched(t.rows, ids)).value, Filtered(Some(e), colNames, Scan(t)).value;
    assert forall p :: p in b <==> p.0 in t.rows && t.rows[p.0] == p.1 && Matches(v, p.1.values, j);
    assert forall p :: p in a <==> p in b && p.0 in ids;
    if UnderLiteralKey(e, colNames, t) {
      SameElements(a, b);
      SameRowsOf(a, b);
    } else {
      var id :| id in t.rows && Matches(v, t.rows[id].values, j)
        && Comparable(CellAt(t.rows[id].values, i)) != Comparable(v);
      FewerElements(a, b, (id, t.rows[id]));
    }
  }

  lemma FewerElements(a: seq<(RowId, Row)>, b: seq<(RowId, Row)>, p: (RowId, Row))
    requires DistinctKeys(a, Id) && DistinctKeys(b, Id) && (forall q :: q in a ==> q in b) && p in b && p !in a
    ensures multiset(RowsOf(a)) != multiset(RowsOf(b))
  {
    var x, y := set q | q in a, set q | q in b;
    SetOfDistinct(a);
    SetOfDistinct(b);
    assert forall q :: q in x ==> q in y;
    StrictSubset(x, y, p);
    var rowsA, rowsB := RowsOf(a), RowsOf(b);
    assert |multiset(rowsA)| == |rowsA| < |rowsB| == |multiset(rowsB)|;
  }

  lemma StrictSubset<T>(x: set<T>, y: set<T>, p: T)
    requires x <= y && p in y && p !in x
    ensures |x| < |y|
  {
    assert y == x + (y - x) && p in y - x;
  }

  lemma {:induction false} SetOfDistinct(s: seq<(RowId, Row)>)
    requires DistinctKeys(s, Id)
    ensures |set q | q in s| == |s|
  {
    if s != [] {
      var init, last := s[..|s| - 1], s[|s| - 1];
      assert s == init + [last];
      SetOfDistinct(init);
      assert last !in init by {
        assert forall i :: 0 <= i < |init| ==> Id(s[i]) != Id(last);
      }
      assert (set q | q in s) == (set q | q in init) + {last};
    }
  }

  lemma SameElements(a: seq<(RowId, Row)>, b: seq<(RowId, Row)>)
    requires DistinctKeys(a, Id) && DistinctKeys(b, Id) && forall p :: p in a <==> p in b
    ensures multiset(a) == multiset(b)
  {
    var sorted := SortByKey(b, Id);
    SortDistinct(b, Id);
    SortByKeySorts(b, Id);
    forall p ensures p in a <==> p in sorted {
      assert p in sorted <==> p in multiset(sorted);
      assert p in b <==> p in multiset(b);
    }
    SortOfPermutation(a, sorted, Id);
    SortByKeySorts(a, Id);
  }

  lemma {:induction false} SameRowsOf(a: seq<(RowId, Row)>, b: seq<(RowId, Row)>)
    requires multiset(a) == multiset(b)
    ensures multiset(RowsOf(a)) == multiset(RowsOf(b))
    decreases |a|
  {
    hide RowsOf;
    if a == [] {
      NothingIn(b);
    } else {
      var last := a[|a| - 1];
      TakeOut(a, |a| - 1);
      assert last in multiset(b);
      var k :| 0 <= k < |b| && b[k] == last;
      TakeOut(b, k);
      var x, y := a[..|a| - 1] + a[|a|..], b[..k] + b[k + 1..];
      Cancel(multiset(x), multiset(y), last);
      SameRowsOf(x, y);
    }
  }

  lemma Cancel(x: multiset<(RowId, Row)>, y: multiset<(RowId, Row)>, p: (RowId, Row))
    requires x + multiset{p} == y + multiset{p}
    ensures x == y
  {
    assert x == (x + multiset{p}) - multiset{p};
    assert y == (y + multiset{p}) - multiset{p};
  }

  lemma NothingIn(b: seq<(RowId, Row)>)
    requires multiset(b) == multiset{}
    ensures b == []
  {
    assert |multiset(b)| == |b|;
  }

  lemma TakeOut(s: seq<(RowId, Row)>, k: nat)
    requires k < |s|
    ensures multiset(s) == multiset(s[..k] + s[k + 1..]) + multiset{s[k]}
    ensures multiset(RowsOf(s)) == multiset(RowsOf(s[..k] + s[k + 1..])) + multiset{s[k].1}
  {
    assert s == s[..k] + ([s[k]] + s[k + 1..]);
    assert RowsOf(s) == RowsOf(s[..k]) + ([s[k].1] + RowsOf(s[k + 1..]));
    assert RowsOf(s[..k] + s[k + 1..]) == RowsOf(s[..k]) + RowsOf(s[k + 1..]);
  }

  lemma OneRow(a: seq<(RowId, Row)>, b: seq<(RowId, Row)>)
    requires multiset(a) == multiset(b) && |a| <= 1
    ensures RowsOf(a) == RowsOf(b)
  {
    assert |multiset(a)| == |a| && |multiset(b)| == |b|;
    if |a| == 1 {
      assert a[0] in multiset(b) && a == [a[0]] && b == [b[0]];
    }
  }

  // ---- NOT splits the rows.

  /** A condition: comparisons and NULL tests under AND, OR, NOT and parentheses. */
  predicate IsCondition(e: Expr) {
    match e
    case BinaryOp(l, op, r) =>
      IsComparison(op) || ((op.And? || op.Or?) && IsCondition(l) && IsCondition(r))
    case UnaryOp(Not, arg) => true
    case IsNull(_) => true
    case IsNotNull(_) => true
    case Nested(inner) => IsCondition(inner)
    case _ => false
  }

  /** There is no third truth value: a condition is true or false, also where it compares with NULL. */
  lemma {:induction false} ConditionIsTwoValued(e: Expr, row: Values, colNames: seq<string>, excluded: Option<Values>)
    requires IsCondition(e) && Eval(e, row, colNames, excluded).Ok?
    ensures Eval(e, row, colNames, excluded).value.Bool?
    decreases e
  {
    hide ValuesEqual, IntsCompare, ColumnPosition;
    match e {
      case BinaryOp(l, op, r) =>
        if op.And? || op.Or? {
          ConditionIsTwoValued(l, row, colNames, excluded);
          ConditionIsTwoValued(r, row, colNames, excluded);
        }
      case Nested(inner) => ConditionIsTwoValued(inner, row, colNames, excluded);
      case _ =>
    }
  }

  /** Every row is selected by a condition or by its negation, and by one of them only. */
  lemma {:induction false} NotPartitions(e: Expr, colNames: seq<string>, s: seq<(RowId, Row)>)
    requires IsCondition(e) && Filtered(Some(e), colNames, s).Ok?
    ensures Filtered(Some(UnaryOp(Not, e)), colNames, s).Ok?
    ensures multiset(Filtered(Some(e), colNames, s).value)
      + multiset(Filtered(Some(UnaryOp(Not, e)), colNames, s).value) == multiset(s)
  {
    hide Eval, IsCondition, Filtered;
    if s == [] {
      NothingKept(e, colNames);
      NothingKept(UnaryOp(Not, e), colNames);
    } else {
      var init, last := s[..|s| - 1], s[|s| - 1];
      assert s == init + [last];
      FilteredPrefix(e, colNames, s);
      NotPartitions(e, colNames, init);
      ConditionIsTwoValued(e, last.1.values, colNames, None);
      NegationEvaluates(e, last.1.values, colNames);
      FilteredLast(e, colNames, s);
      FilteredLast(UnaryOp(Not, e), colNames, s);
    }
  }

  lemma NothingKept(e: Expr, colNames: seq<string>)
    ensures Filtered(Some(e), colNames, []) == Ok([])
  {
  }

  lemma FilteredPrefix(e: Expr, colNames: seq<string>, s: seq<(RowId, Row)>)
    requires s != [] && Filtered(Some(e), colNames, s).Ok?
    ensures Filtered(Some(e), colNames, s[..|s| - 1]).Ok? && EvalWhere(e, s[|s| - 1].1.values, colNames, None).Ok?
  {
    hide EvalWhere;
  }

  lemma NegationEvaluates(e: Expr, row: Values, colNames: seq<string>)
    requires Eval(e, row, colNames, None).Ok?
    ensures var v := Eval(e, row, colNames, None).value;
      Eval(UnaryOp(Not, e), row, colNames, None) == Ok(Bool(v.Bool? && !v.b))
  {
    hide EvalBinary, ColumnValue, WrapInt8, EqIgnoreCase;
  }
}

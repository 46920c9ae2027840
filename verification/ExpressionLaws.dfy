/** What the operators mean for the rows a WHERE clause keeps and for the values an assignment computes. */
module ExpressionLaws {
  import opened Types
  import opened Index
  import opened Catalog
  import opened Expressions
  import opened Planner
  import opened StatementEffects
  import opened Statements

  // ---- AND and OR.

  /** Both sides are always evaluated; of two conditions AND is true where both are and OR where one is. */
  lemma Connectives(p: Expr, q: Expr, row: Values, columns: seq<string>, excluded: Option<Values>)
    requires IsCondition(p) && IsCondition(q)
    ensures var a, b := EvalWhere(p, row, columns, excluded), EvalWhere(q, row, columns, excluded);
      var both := EvalWhere(BinaryOp(p, And, q), row, columns, excluded);
      var either := EvalWhere(BinaryOp(p, Or, q), row, columns, excluded);
      && (both.Ok? <==> a.Ok? && b.Ok?) && (either.Ok? <==> a.Ok? && b.Ok?)
      && (a.Ok? && b.Ok? ==> both.value == (a.value && b.value) && either.value == (a.value || b.value))
  {
    hide IsCondition, Eval, ValuesEqual, IntsCompare;
    OperandsFirst(p, And, q, row, columns, excluded);
    OperandsFirst(p, Or, q, row, columns, excluded);
    if Eval(p, row, columns, excluded).Ok? {
      ConditionIsTwoValued(p, row, columns, excluded);
    }
    if Eval(q, row, columns, excluded).Ok? {
      ConditionIsTwoValued(q, row, columns, excluded);
    }
  }

  lemma {:induction false} FilteredEvaluates(e: Expr, columns: seq<string>, s: seq<(RowId, Row)>)
    ensures Filtered(Some(e), columns, s).Ok?
      <==> forall i :: 0 <= i < |s| ==> EvalWhere(e, s[i].1.values, columns, None).Ok?
  {
    hide EvalWhere;
    if s != [] {
      var init, last := s[..|s| - 1], s[|s| - 1];
      FilteredEvaluates(e, columns, init);
      assert forall i :: 0 <= i < |init| ==> init[i] == s[i];
    }
  }

  /** WHERE p AND q keeps, in order, what WHERE q keeps of what WHERE p keeps. */
  lemma {:induction false} AndFiltersTwice(p: Expr, q: Expr, columns: seq<string>, s: seq<(RowId, Row)>)
    requires IsCondition(p) && IsCondition(q)
    requires Filtered(Some(p), columns, s).Ok? && Filtered(Some(q), columns, s).Ok?
    ensures Filtered(Some(BinaryOp(p, And, q)), columns, s)
      == Filtered(Some(q), columns, Filtered(Some(p), columns, s).value)
  {
    hide EvalWhere, IsCondition, Filtered;
    if s == [] {
      NothingKept(p, columns);
      NothingKept(q, columns);
      NothingKept(BinaryOp(p, And, q), columns);
    } else {
      var init, last := s[..|s| - 1], s[|s| - 1];
      FilteredPrefix(p, columns, s);
      FilteredPrefix(q, columns, s);
      AndFiltersTwice(p, q, columns, init);
      Connectives(p, q, last.1.values, columns, None);
      FilteredLast(p, columns, s);
      FilteredEvaluates(BinaryOp(p, And, q), columns, init);
      FilteredEvaluates(p, columns, init);
      FilteredEvaluates(q, columns, init);
      forall i | 0 <= i < |init| ensures EvalWhere(BinaryOp(p, And, q), init[i].1.values, columns, None).Ok? {
        Connectives(p, q, init[i].1.values, columns, None);
      }
      FilteredLast(BinaryOp(p, And, q), columns, s);
      var kept := Filtered(Some(p), columns, init).value;
      assert (kept + [last])[..|kept + [last]| - 1] == kept;
      FilteredLast(q, columns, kept + [last]);
    }
  }

  /** WHERE p OR q keeps exactly the rows that WHERE p or WHERE q keeps. */
  lemma OrKeepsEither(p: Expr, q: Expr, columns: seq<string>, s: seq<(RowId, Row)>)
    requires IsCondition(p) && IsCondition(q)
    requires Filtered(Some(p), columns, s).Ok? && Filtered(Some(q), columns, s).Ok?
    ensures Filtered(Some(BinaryOp(p, Or, q)), columns, s).Ok?
    ensures var a, b := Filtered(Some(p), columns, s).value, Filtered(Some(q), columns, s).value;
      forall x :: x in Filtered(Some(BinaryOp(p, Or, q)), columns, s).value <==> x in a || x in b
  {
    hide EvalWhere, IsCondition, Filtered;
    FilteredEvaluates(p, columns, s);
    FilteredEvaluates(q, columns, s);
    forall x | x in s
      ensures EvalWhere(p, x.1.values, columns, None).Ok? && EvalWhere(q, x.1.values, columns, None).Ok?
      ensures EvalWhere(BinaryOp(p, Or, q), x.1.values, columns, None)
        == Ok(EvalWhere(p, x.1.values, columns, None).value || EvalWhere(q, x.1.values, columns, None).value)
    {
      var i :| 0 <= i < |s| && s[i] == x;
      Connectives(p, q, x.1.values, columns, None);
    }
    FilteredElements(p, columns, s);
    FilteredElements(q, columns, s);
    FilteredElements(BinaryOp(p, Or, q), columns, s);
  }

  /** The same for the rows an UPDATE or a DELETE selects. */
  lemma SelectedByBoth(p: Expr, q: Expr, columns: seq<string>, row: Row)
    requires IsCondition(p) && IsCondition(q)
    ensures Selected(Some(BinaryOp(p, And, q)), columns, row)
      <==> Selected(Some(p), columns, row) && Selected(Some(q), columns, row)
    ensures EvalWhere(p, row.values, columns, None).Ok? && EvalWhere(q, row.values, columns, None).Ok? ==>
      (Selected(Some(BinaryOp(p, Or, q)), columns, row)
       <==> Selected(Some(p), columns, row) || Selected(Some(q), columns, row))
  {
    hide EvalWhere, IsCondition;
    Connectives(p, q, row.values, columns, None);
  }

  // ---- What a WHERE clause keeps.

  /** Without one every row is kept, by a query as by UPDATE and DELETE. */
  lemma {:induction false} NoWhereKeepsAll(columns: seq<string>, s: seq<(RowId, Row)>)
    ensures Filtered(None, columns, s) == Ok(s)
    ensures forall row :: Selected(None, columns, row)
  {
    hide EvalWhere, Filtered;
    if s == [] {
      NothingWithoutWhere(columns);
    } else {
      NoWhereKeepsAll(columns, s[..|s| - 1]);
      LastWithoutWhere(columns, s);
      assert s == s[..|s| - 1] + [s[|s| - 1]];
    }
  }

  lemma NothingWithoutWhere(columns: seq<string>)
    ensures Filtered(None, columns, []) == Ok([])
  {
  }

  lemma LastWithoutWhere(columns: seq<string>, s: seq<(RowId, Row)>)
    requires s != [] && Filtered(None, columns, s[..|s| - 1]).Ok?
    ensures Filtered(None, columns, s) == Ok(Filtered(None, columns, s[..|s| - 1]).value + [s[|s| - 1]])
  {
    hide EvalWhere;
  }

  /** NULL and false drop a row; every other value keeps it. */
  lemma WhereTruth(e: Expr, row: Values, columns: seq<string>, excluded: Option<Values>)
    ensures var v := Eval(e, row, columns, excluded);
      && (EvalWhere(e, row, columns, excluded).Ok? <==> v.Ok?)
      && (v.Ok? ==> EvalWhere(e, row, columns, excluded).value == (v.value != Null && v.value != Bool(false)))
  {
    hide Eval;
  }

  /** IS NULL keeps exactly the rows in which the expression is NULL, IS NOT NULL the others. */
  lemma NullTests(e: Expr, row: Values, columns: seq<string>, excluded: Option<Values>)
    requires Eval(e, row, columns, excluded).Ok?
    ensures var v := Eval(e, row, columns, excluded).value;
      && EvalWhere(IsNull(e), row, columns, excluded) == Ok(v == Null)
      && EvalWhere(IsNotNull(e), row, columns, excluded) == Ok(v != Null)
  {
    hide Eval;
    NullTestValues(e, row, columns, excluded);
  }

  lemma NullTestValues(e: Expr, row: Values, columns: seq<string>, excluded: Option<Values>)
    requires Eval(e, row, columns, excluded).Ok?
    ensures var v := Eval(e, row, columns, excluded).value;
      && Eval(IsNull(e), row, columns, excluded) == Ok(Bool(v.Null?))
      && Eval(IsNotNull(e), row, columns, excluded) == Ok(Bool(!v.Null?))
  {
    hide EvalBinary, EvalUnary, ColumnValue, EqIgnoreCase;
  }

  /** The comparisons on every pair of values. */
  lemma Comparisons(l: Value, r: Value)
    ensures l == Null || r == Null ==> !Holds(l, Eq, r) && !Holds(l, NotEq, r)
    ensures l != Null && r != Null ==> (Holds(l, NotEq, r) <==> !Holds(l, Eq, r))
    ensures l.Text? && r.Text? ==> (Holds(l, Eq, r) <==> l.text == r.text)
    ensures l.Bool? && r.Bool? ==> (Holds(l, Eq, r) <==> l.b == r.b)
    ensures AsInt(l).Some? && AsInt(r).Some? ==> (Holds(l, Eq, r) <==> AsInt(l) == AsInt(r))
    ensures l.Float8? && r.Float8? ==> (Holds(l, Eq, r) <==> -EPSILON < l.f8 - r.f8 < EPSILON)
    ensures !Comparables(l, r) ==> !Holds(l, Eq, r)
    ensures AsInt(l).None? || AsInt(r).None? ==>
      !Holds(l, Lt, r) && !Holds(l, LtEq, r) && !Holds(l, Gt, r) && !Holds(l, GtEq, r)
  {
    hide EvalBinary;
    ComparisonHolds(l, Eq, r);
    ComparisonHolds(l, NotEq, r);
    ComparisonHolds(l, Lt, r);
    ComparisonHolds(l, LtEq, r);
    ComparisonHolds(l, Gt, r);
    ComparisonHolds(l, GtEq, r);
  }

  lemma ComparisonHolds(l: Value, op: BinaryOperator, r: Value)
    requires IsComparison(op)
    ensures Holds(l, op, r) <==>
      && l != Null && r != Null
      && (if op.Eq? then ValuesEqual(l, r) else if op.NotEq? then !ValuesEqual(l, r) else IntsCompare(l, op, r))
  {
    hide ValuesEqual, IntsCompare;
  }

  /** Values of kinds that can be equal. */
  predicate Comparables(l: Value, r: Value) {
    || (l.Text? && r.Text?) || (l.Bool? && r.Bool?) || (l.Float8? && r.Float8?)
    || ((l.Int4? || l.Int8?) && (r.Int4? || r.Int8?))
  }

  /** `col = literal` keeps exactly the rows with that text or truth value in the column. */
  lemma EqualityKeeps(col: string, v: Value, row: Values, columns: seq<string>)
    requires (v.Text? || v.Bool?) && ColumnPosition(columns, col).Some?
    ensures EvalWhere(BinaryOp(Identifier(col), Eq, Literal(v)), row, columns, None)
      == Ok(CellAt(row, ColumnPosition(columns, col).value) == v)
  {
    hide ColumnPosition, CellAt, EvalBinary;
    EqualityEvaluates(BinaryOp(Identifier(col), Eq, Literal(v)), row, columns);
  }

  // ---- Names.

  /** A literal is its value; parentheses change nothing; what is not supported is NULL. */
  lemma Leaves(v: Value, e: Expr, row: Values, columns: seq<string>, excluded: Option<Values>)
    ensures Eval(Literal(v), row, columns, excluded) == Ok(v)
    ensures Eval(Nested(e), row, columns, excluded) == Eval(e, row, columns, excluded)
    ensures Eval(Unsupported, row, columns, excluded) == Ok(Null)
  {
  }

  ghost predicate FirstReferred(col: string, columns: seq<string>, i: nat) {
    i < |columns| && Refers(col, columns[i]) && forall j :: 0 <= j < i ==> !Refers(col, columns[j])
  }

  /** A name reads the row's cell in the first column it refers to, and is an error if there is none. */
  lemma NameReads(col: string, row: Values, columns: seq<string>, excluded: Option<Values>)
    ensures Eval(Identifier(col), row, columns, excluded) == Err(ColumnNotFound)
      <==> forall i :: 0 <= i < |columns| ==> !Refers(col, columns[i])
    ensures forall i: nat :: FirstReferred(col, columns, i) ==>
      Eval(Identifier(col), row, columns, excluded) == Ok(CellAt(row, i))
  {
    hide Refers, CellAt, ColumnPosition;
    ColumnPositionFirst(columns, col);
    NameValue(col, row, columns, excluded);
  }

  lemma NameValue(col: string, row: Values, columns: seq<string>, excluded: Option<Values>)
    ensures Eval(Identifier(col), row, columns, excluded) == ColumnValue(col, row, columns)
  {
    hide EvalBinary, ColumnValue;
  }

  lemma {:induction false} BareOfQualified(t: string, col: string)
    requires '.' !in col
    ensures Bare(t + "." + col) == col
  {
    if col == [] {
      assert (t + ".")[|t + "."| - 1] == '.';
      assert t + "." + col == t + ".";
    } else {
      var init, last := col[..|col| - 1], col[|col| - 1];
      assert col == init + [last] && last in col;
      BareOfQualified(t, init);
      assert (t + "." + col)[..|t + "." + col| - 1] == t + "." + init;
      assert (t + "." + col)[|t + "." + col| - 1] == last;
    }
  }

  /** `t.c` reads the first column called `c`, or `t.c` itself; of longer names the last two parts count. */
  lemma QualifiedReads(parts: seq<string>, row: Values, columns: seq<string>, excluded: Option<Values>)
    requires |parts| >= 2 && !EqIgnoreCase(parts[0], "excluded") && '.' !in parts[|parts| - 1]
    ensures var t, col := parts[|parts| - 2], parts[|parts| - 1];
      && Eval(CompoundIdentifier(parts), row, columns, excluded)
         == Eval(Identifier(t + "." + col), row, columns, excluded)
      && forall c :: Refers(t + "." + col, c) <==> EqIgnoreCase(c, t + "." + col) || EqIgnoreCase(c, col)
  {
    hide EqIgnoreCase, ColumnValue, EvalBinary, EvalUnary;
    BareOfQualified(parts[|parts| - 2], parts[|parts| - 1]);
  }

  /** `excluded.c` reads the proposed row, never the stored one; outside DO UPDATE it is an error. */
  lemma ExcludedReads(parts: seq<string>, row: Values, columns: seq<string>, proposed: Values)
    requires |parts| >= 2 && EqIgnoreCase(parts[0], "excluded")
    ensures Eval(CompoundIdentifier(parts), row, columns, Some(proposed))
      == Eval(Identifier(parts[|parts| - 1]), proposed, columns, None)
    ensures Eval(CompoundIdentifier(parts), row, columns, None).Err?
  {
    hide EqIgnoreCase, ColumnValue, EvalBinary, EvalUnary;
  }

  // ---- Arithmetic.

  /** A 32-bit integer congruent to `n`: `n` itself if it has 32 bits. */
  predicate Is32Bit(v: Value, n: int) {
    v.Int4? && -0x8000_0000 <= v.i4 < 0x8000_0000 && (v.i4 - n) % 0x1_0000_0000 == 0
  }

  predicate Is64Bit(v: Value, n: int) {
    v.Int8? && -0x8000_0000_0000_0000 <= v.i8 < 0x8000_0000_0000_0000 && (v.i8 - n) % 0x1_0000_0000_0000_0000 == 0
  }

  lemma IntegerArithmetic(a: int, b: int)
    ensures Is32Bit(EvalBinary(Int4(a), Plus, Int4(b)), a + b)
    ensures Is64Bit(EvalBinary(Int8(a), Plus, Int8(b)), a + b)
    ensures Is64Bit(EvalBinary(Int4(a), Minus, Int8(b)), a - b)
    ensures Is64Bit(EvalBinary(Int8(a), Multiply, Int8(b)), a * b)
  {
  }

  /** Without overflow the number is exact. */
  lemma NoOverflow(v: Value, n: int)
    ensures Is32Bit(v, n) && -0x8000_0000 <= n < 0x8000_0000 ==> v == Int4(n)
    ensures Is64Bit(v, n) && -0x8000_0000_0000_0000 <= n < 0x8000_0000_0000_0000 ==> v == Int8(n)
  {
    if Is32Bit(v, n) && -0x8000_0000 <= n < 0x8000_0000 {
      assert -0x1_0000_0000 < v.i4 - n < 0x1_0000_0000;
    }
    if Is64Bit(v, n) && -0x8000_0000_0000_0000 <= n < 0x8000_0000_0000_0000 {
      assert -0x1_0000_0000_0000_0000 < v.i8 - n < 0x1_0000_0000_0000_0000;
    }
  }

  lemma FloatAndText(a: real, b: real, x: string, y: string)
    ensures NumberOf(EvalBinary(Float8(a), Plus, Float8(b))) == Some(a + b)
    ensures NumberOf(EvalBinary(Float8(a), Minus, Float8(b))) == Some(a - b)
    ensures EvalBinary(Text(x), StringConcat, Text(y)) == Text(x + y)
  {
  }

  /** The operand types an arithmetic or logical operator is defined on. */
  predicate Typed(l: Value, op: BinaryOperator, r: Value) {
    match op
    case Plus => (l.Int4? && r.Int4?) || (l.Int8? && r.Int8?) || (l.Float8? && r.Float8?)
    case Minus => (l.Int4? && r.Int8?) || (l.Float8? && r.Float8?)
    case Multiply => l.Int8? && r.Int8?
    case StringConcat => l.Text? && r.Text?
    case And => l.Bool? && r.Bool?
    case Or => l.Bool? && r.Bool?
    case _ => false
  }

  /** Everything else is NULL, operands that are NULL included. */
  lemma UntypedIsNull(l: Value, op: BinaryOperator, r: Value)
    requires !IsComparison(op)
    ensures EvalBinary(l, op, r) == Null <==> !Typed(l, op, r)
  {
  }

  lemma UnaryOperators(e: Expr, row: Values, columns: seq<string>, excluded: Option<Values>)
    requires Eval(e, row, columns, excluded).Ok?
    ensures var v, minus := Eval(e, row, columns, excluded).value, Eval(UnaryOp(Negate, e), row, columns, excluded);
      && minus.Ok?
      && (v.Int4? ==> Is32Bit(minus.value, -v.i4))
      && (v.Int8? ==> Is64Bit(minus.value, -v.i8))
      && (v.Float8? ==> NumberOf(minus.value) == Some(-v.f8))
      && (!v.Int4? && !v.Int8? && !v.Float8? ==> minus.value == v)
    ensures Eval(UnaryOp(OtherUnary, e), row, columns, excluded) == Eval(e, row, columns, excluded)
  {
    hide Eval;
    OperandFirst(Negate, e, row, columns, excluded);
    OperandFirst(OtherUnary, e, row, columns, excluded);
  }

  lemma OperandFirst(uop: UnaryOperator, e: Expr, row: Values, columns: seq<string>, excluded: Option<Values>)
    ensures var v := Eval(e, row, columns, excluded);
      Eval(UnaryOp(uop, e), row, columns, excluded) == if v.Err? then v else Ok(EvalUnary(uop, v.value))
  {
    hide EvalBinary, EvalUnary, ColumnValue, EqIgnoreCase;
  }

  /** An operator is applied to the values of its operands, the left one evaluated first. */
  lemma OperandsFirst(l: Expr, op: BinaryOperator, r: Expr, row: Values, columns: seq<string>, excluded: Option<Values>)
    ensures var a, b := Eval(l, row, columns, excluded), Eval(r, row, columns, excluded);
      Eval(BinaryOp(l, op, r), row, columns, excluded)
      == if a.Err? then a else if b.Err? then b else Ok(EvalBinary(a.value, op, b.value))
  {
    hide EvalBinary, EvalUnary, ColumnValue, EqIgnoreCase;
  }
}

/** Evaluation of the expressions a WHERE clause or an assignment is made of. */
module Expressions {
  import opened Types
  import opened Index
  import opened Catalog

  datatype BinaryOperator =
    | Plus | Minus | Multiply | StringConcat
    | Eq | NotEq | Lt | LtEq | Gt | GtEq
    | And | Or
    | OtherOp

  datatype UnaryOperator = Not | Negate | OtherUnary

  datatype Expr =
    | Literal(value: Value)
    | Identifier(name: string)
    | CompoundIdentifier(parts: seq<string>)
    | BinaryOp(left: Expr, op: BinaryOperator, right: Expr)
    | UnaryOp(uop: UnaryOperator, arg: Expr)
    | IsNull(arg: Expr)
    | IsNotNull(arg: Expr)
    | Nested(inner: Expr)
    | Unsupported

  /** `f64::EPSILON`, two to the power -52. */
  const EPSILON: real := 1.0 / 4503599627370496.0

  /** The low 64 bits, read as a signed number. */
  function WrapInt8(n: int): (r: int)
    ensures -0x8000_0000_0000_0000 <= r < 0x8000_0000_0000_0000 && (r - n) % 0x1_0000_0000_0000_0000 == 0
  {
    (n + 0x8000_0000_0000_0000) % 0x1_0000_0000_0000_0000 - 0x8000_0000_0000_0000
  }

  function AsInt(v: Value): Option<int> {
    match v
    case Int4(n) => Some(n)
    case Int8(n) => Some(n)
    case _ => None
  }

  predicate ValuesEqual(a: Value, b: Value) {
    if AsInt(a).Some? && AsInt(b).Some? then AsInt(a) == AsInt(b)
    else
      match (a, b)
      case (Text(x), Text(y)) => x == y
      case (Bool(x), Bool(y)) => x == y
      case (Float8(x), Float8(y)) => -EPSILON < x - y < EPSILON
      case (Null, Null) => true
      case _ => false
  }

  /** Comparison of two integers; false for everything else. */
  predicate IntsCompare(a: Value, op: BinaryOperator, b: Value) {
    AsInt(a).Some? && AsInt(b).Some? &&
    var x, y := AsInt(a).value, AsInt(b).value;
    match op
    case Lt => x < y
    case LtEq => x <= y
    case Gt => x > y
    case GtEq => x >= y
    case _ => false
  }

  predicate IsComparison(op: BinaryOperator) {
    op.Eq? || op.NotEq? || op.Lt? || op.LtEq? || op.Gt? || op.GtEq?
  }

  function EvalBinary(l: Value, op: BinaryOperator, r: Value): Value {
    if (l.Null? || r.Null?) && IsComparison(op) then Bool(false)
    else if (l.Null? || r.Null?) && !op.And? && !op.Or? then Null
    else
      match (l, op, r)
      case (Int4(a), Plus, Int4(b)) => Int4(WrapInt4(a + b))
      case (Int8(a), Plus, Int8(b)) => Int8(WrapInt8(a + b))
      case (Int4(a), Minus, Int8(b)) => Int8(WrapInt8(a - b))
      case (Int8(a), Multiply, Int8(b)) => Int8(WrapInt8(a * b))
      case (Float8(a), Plus, Float8(b)) => Float8(a + b)
      case (Float8(a), Minus, Float8(b)) => Float8(a - b)
      case (Text(a), StringConcat, Text(b)) => Text(a + b)
      case (_, Eq, _) => Bool(ValuesEqual(l, r))
      case (_, NotEq, _) => Bool(!ValuesEqual(l, r))
      case (_, Lt, _) => Bool(IntsCompare(l, op, r))
      case (_, LtEq, _) => Bool(IntsCompare(l, op, r))
      case (_, Gt, _) => Bool(IntsCompare(l, op, r))
      case (_, GtEq, _) => Bool(IntsCompare(l, op, r))
      case (Bool(a), And, Bool(b)) => Bool(a && b)
      case (Bool(a), Or, Bool(b)) => Bool(a || b)
      case _ => Null
  }

  predicate Holds(l: Value, op: BinaryOperator, r: Value) {
    EvalBinary(l, op, r) == Bool(true)
  }

  lemma EvalComparison(l: Value, op: BinaryOperator, r: Value)
    requires AsInt(l).Some? && AsInt(r).Some? && IsComparison(op)
    ensures Holds(l, op, r) <==>
      if op.Eq? then AsInt(l).value == AsInt(r).value
      else if op.NotEq? then AsInt(l).value != AsInt(r).value
      else IntsCompare(l, op, r)
  {
  }

  /** On integers of any width the comparisons are one total order. */
  lemma IntsOrdered(l: Value, r: Value)
    requires AsInt(l).Some? && AsInt(r).Some?
    ensures Holds(l, Lt, r) <==> AsInt(l).value < AsInt(r).value
    ensures Holds(l, Eq, r) <==> AsInt(l).value == AsInt(r).value
    ensures Holds(l, NotEq, r) <==> !Holds(l, Eq, r)
    ensures Holds(l, Gt, r) <==> Holds(r, Lt, l)
    ensures Holds(l, LtEq, r) <==> Holds(l, Lt, r) || Holds(l, Eq, r)
    ensures Holds(l, GtEq, r) <==> Holds(l, Gt, r) || Holds(l, Eq, r)
  {
    hide EvalBinary;
    EvalComparison(l, Lt, r);
    EvalComparison(l, Eq, r);
    EvalComparison(l, NotEq, r);
    EvalComparison(l, Gt, r);
    EvalComparison(r, Lt, l);
    EvalComparison(l, LtEq, r);
    EvalComparison(l, GtEq, r);
  }

  /** What follows the last dot. */
  function Bare(col: string): (r: string)
    ensures '.' !in r && |r| <= |col| && r == col[|col| - |r|..]
    ensures if |r| == |col| then '.' !in col else col[|col| - |r| - 1] == '.'
  {
    if col == [] then []
    else if col[|col| - 1] == '.' then []
    else
      var init := col[..|col| - 1];
      assert col == init + [col[|col| - 1]];
      Bare(init) + [col[|col| - 1]]
  }

  predicate Refers(col: string, column: string) {
    EqIgnoreCase(column, col) || EqIgnoreCase(column, Bare(col))
  }

  /** The first column that has the name, or the part of it behind the last dot. */
  function ColumnPosition(columns: seq<string>, col: string): (r: Option<nat>)
    ensures r.Some? ==> r.value < |columns|
  {
    if columns == [] then None
    else if Refers(col, columns[0]) then Some(0)
    else
      match ColumnPosition(columns[1..], col)
      case None => None
      case Some(i) => Some(i + 1)
  }

  lemma {:induction false} ColumnPositionFirst(columns: seq<string>, col: string)
    ensures var r := ColumnPosition(columns, col);
      if r.Some? then Refers(col, columns[r.value]) && forall i :: 0 <= i < r.value ==> !Refers(col, columns[i])
      else forall i :: 0 <= i < |columns| ==> !Refers(col, columns[i])
  {
    hide Refers;
    if columns != [] {
      ColumnPositionFirst(columns[1..], col);
      assert forall i :: 1 <= i < |columns| ==> columns[i] == columns[1..][i - 1];
    }
  }

  function ColumnValue(col: string, row: Values, columns: seq<string>): Result<Value, Error> {
    match ColumnPosition(columns, col)
    case None => Err(ColumnNotFound)
    case Some(i) => Ok(CellAt(row, i))
  }

  function EvalUnary(uop: UnaryOperator, v: Value): Value {
    match uop
    case Not => Bool(v.Bool? && !v.b)
    case Negate =>
      (match v
       case Int4(n) => Int4(WrapInt4(-n))
       case Int8(n) => Int8(WrapInt8(-n))
       case Float8(f) => Float8(-f)
       case _ => v)
    case OtherUnary => v
  }

  function Eval(e: Expr, row: Values, columns: seq<string>, excluded: Option<Values>): Result<Value, Error> {
    match e
    case Literal(v) => Ok(v)
    case Identifier(name) => ColumnValue(name, row, columns)
    case CompoundIdentifier(parts) =>
      var n := |parts|;
      if n >= 2 && EqIgnoreCase(parts[0], "excluded") then
        if excluded.None? then Err(Execution) else ColumnValue(parts[n - 1], excluded.value, columns)
      else
        ColumnValue(if n >= 2 then parts[n - 2] + "." + parts[n - 1] else if n == 1 then parts[0] else "", row, columns)
    case BinaryOp(left, op, right) =>
      (match Eval(left, row, columns, excluded)
       case Err(err) => Err(err)
       case Ok(l) =>
         match Eval(right, row, columns, excluded)
         case Err(err) => Err(err)
         case Ok(r) => Ok(EvalBinary(l, op, r)))
    case UnaryOp(uop, arg) =>
      (match Eval(arg, row, columns, excluded)
       case Err(err) => Err(err)
       case Ok(v) => Ok(EvalUnary(uop, v)))
    case IsNull(arg) =>
      (match Eval(arg, row, columns, excluded)
       case Err(err) => Err(err)
       case Ok(v) => Ok(Bool(v.Null?)))
    case IsNotNull(arg) =>
      (match Eval(arg, row, columns, excluded)
       case Err(err) => Err(err)
       case Ok(v) => Ok(Bool(!v.Null?)))
    case Nested(inner) => Eval(inner, row, columns, excluded)
    case Unsupported => Ok(Null)
  }

  function Truth(v: Value): bool {
    match v
    case Bool(b) => b
    case Null => false
    case _ => true
  }

  function EvalWhere(e: Expr, row: Values, columns: seq<string>, excluded: Option<Values>): Result<bool, Error> {
    match Eval(e, row, columns, excluded)
    case Err(err) => Err(err)
    case Ok(v) => Ok(Truth(v))
  }
}

/** Table schemas, and the two checks a row passes before it is stored. */
module Catalog {
  import opened Types
  import opened Index

  datatype DataType =
    | TInt4 | TInt8 | TFloat4 | TFloat8 | TText | TVarchar(len: nat) | TBool | TTimestamp | TJson

  datatype ColumnDef = ColumnDef(name: string, dataType: DataType, nullable: bool, primaryKey: bool)

  datatype IndexMeta = IndexMeta(name: string, columns: seq<string>, unique: bool)

  datatype TableSchema = TableSchema(columns: seq<ColumnDef>, indexes: seq<IndexMeta>)

  type SchemaMap = map<string, TableSchema>

  function ColNames(schema: TableSchema): seq<string> {
    seq(|schema.columns|, i requires 0 <= i < |schema.columns| => schema.columns[i].name)
  }

  function TypeOf(v: Value): Option<DataType> {
    match v
    case Null => None
    case Int4(_) => Some(TInt4)
    case Int8(_) => Some(TInt8)
    case Float4(_) => Some(TFloat4)
    case Float8(_) => Some(TFloat8)
    case Text(_) => Some(TText)
    case Bool(_) => Some(TBool)
    case Timestamp(_) => Some(TTimestamp)
    case Json(_) => Some(TJson)
  }

  /** `as i32`: the low 32 bits, read as a signed number. */
  function WrapInt4(n: int): (r: int)
    ensures -0x8000_0000 <= r < 0x8000_0000 && (r - n) % 0x1_0000_0000 == 0
  {
    (n + 0x8000_0000) % 0x1_0000_0000 - 0x8000_0000
  }

  predicate OfType(v: Value, target: DataType) {
    || (v.Int4? && target.TInt4?) || (v.Int8? && target.TInt8?)
    || (v.Float4? && target.TFloat4?) || (v.Float8? && target.TFloat8?)
    || (v.Text? && target.TText?) || (v.Bool? && target.TBool?)
    || (v.Timestamp? && target.TTimestamp?) || (v.Json? && target.TJson?)
  }

  /** Integers convert to each other, and every number but a 32-bit float's own type to a 64-bit float. */
  predicate Converts(v: Value, target: DataType) {
    || (v.Int4? && target.TInt8?) || (v.Int8? && target.TInt4?)
    || ((v.Int4? || v.Int8? || v.Float4?) && target.TFloat8?)
  }

  /** NULL fits every column, VARCHAR takes every value, otherwise the result has the column's type. */
  function CoerceTo(v: Value, target: DataType): (r: Result<Value, Error>)
    ensures r.Ok? ==> r.value == v || TypeOf(r.value) == Some(target)
    ensures r.Ok? && !v.Null? && !target.TVarchar? ==> TypeOf(r.value) == Some(target)
    ensures v.Null? || target.TVarchar? ==> r == Ok(v)
    ensures TypeOf(v) == Some(target) ==> r == Ok(v)
    ensures r.Ok? <==> v.Null? || target.TVarchar? || OfType(v, target) || Converts(v, target)
    ensures r.Ok? && !v.Null? && !target.TVarchar? ==> OfType(r.value, target)
    ensures r.Err? ==> r.error == TypeMismatch
  {
    match (v, target)
    case (Null, _) => Ok(Null)
    case (Int4(n), TInt8) => Ok(Int8(n))
    case (Int8(n), TInt4) => Ok(Int4(WrapInt4(n)))
    case (Int4(n), TFloat8) => Ok(Float8(n as real))
    case (Int8(n), TFloat8) => Ok(Float8(n as real))
    case (Float4(f), TFloat8) => Ok(Float8(f))
    case (_, TVarchar(_)) => Ok(v)
    case _ => if TypeOf(v) == Some(target) then Ok(v) else Err(TypeMismatch)
  }

  /** The number a value stands for. */
  function NumberOf(v: Value): Option<real> {
    match v
    case Int4(n) => Some(n as real)
    case Int8(n) => Some(n as real)
    case Timestamp(n) => Some(n as real)
    case Float4(f) => Some(f)
    case Float8(f) => Some(f)
    case _ => None
  }

  predicate Narrowed(v: Value, target: DataType) {
    v.Int8? && target.TInt4? && !(-0x8000_0000 <= v.i8 < 0x8000_0000)
  }

  /** A conversion changes the number exactly when it cuts an integer of more than 32 bits. */
  lemma CoercionKeepsNumber(v: Value, target: DataType)
    requires CoerceTo(v, target).Ok? && NumberOf(v).Some?
    ensures NumberOf(CoerceTo(v, target).value) == NumberOf(v) <==> !Narrowed(v, target)
  {
    if v.Int8? && target.TInt4? {
      var n := WrapInt4(v.i8);
      assert -0x8000_0000 <= v.i8 < 0x8000_0000 ==> n == v.i8;
    }
  }

  /** The values of a VALUES row, one per column, missing ones NULL. */
  function CoerceRow(columns: seq<ColumnDef>, values: seq<Value>): Result<seq<Value>, Error> {
    if columns == [] then Ok([])
    else
      var n := |columns| - 1;
      match CoerceRow(columns[..n], values)
      case Err(e) => Err(e)
      case Ok(init) =>
        match CoerceTo(CellAt(values, n), columns[n].dataType)
        case Err(e) => Err(e)
        case Ok(v) => Ok(init + [v])
  }

  /** Not-null constraints. */
  predicate ValidRow(columns: seq<ColumnDef>, values: seq<Value>) {
    forall i :: 0 <= i < |columns| && !columns[i].nullable ==> CellAt(values, i) != Null
  }
}

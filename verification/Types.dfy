/** Values, rows and result types shared by every component. */
module Types {

  datatype Option<+T> = None | Some(value: T)

  datatype Result<+T, +E> = Ok(value: T) | Err(error: E)

  /** The error kinds the modelled operations can return. */
  datatype Error =
    | Execution
    | Storage
    | TableNotFound
    | ColumnNotFound
    | DuplicateKey
    | IndexExists
    | VersionConflict
    | TypeMismatch

  type RowId = nat

  ghost predicate Distinct(ids: seq<nat>) {
    forall i, j :: 0 <= i < j < |ids| ==> ids[i] != ids[j]
  }

  /** A stored value.  Floats are exact reals and JSON its canonical text. */
  datatype Value =
    | Null
    | Int4(i4: int)
    | Int8(i8: int)
    | Float4(f4: real)
    | Float8(f8: real)
    | Text(text: string)
    | Bool(b: bool)
    | Timestamp(ts: int)
    | Json(json: string)

  /** `version` is the optimistic concurrency counter. */
  datatype Row = Row(values: seq<Value>, version: nat)

  function NewRow(values: seq<Value>): Row {
    Row(values, 1)
  }
}

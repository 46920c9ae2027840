/** The two table backends behind one interface. */
module Backend {
  import opened Types
  import opened Bytes
  import opened Tables
  import opened Sorting
  import opened Scans
  import opened PageFile
  import opened PageTables

  /** An in-memory table. */
  class TableData {
    var rows: Body
    var nextId: RowId

    constructor (stored: Table)
      ensures Model() == stored
    {
      rows, nextId := stored.rows, stored.nextId;
    }

    ghost function Model(): Table
      reads this
    {
      Table(rows, nextId)
    }

    method Insert(row: Row) returns (id: RowId)
      modifies this
      ensures id == old(nextId) && Model() == InsertNew(old(Model()), row)
    {
      id := nextId;
      nextId := nextId + 1;
      rows := rows[id := row];
    }

    method ApplyInsert(id: RowId, row: Row)
      modifies this
      ensures Model() == InsertAt(old(Model()), id, row)
    {
      if id >= nextId {
        nextId := id + 1;
      }
      rows := rows[id := row];
    }

    /** Stores the row whether or not the id was there. */
    method Update(id: RowId, row: Row) returns (present: bool)
      modifies this
      ensures present == (id in old(rows))
      ensures Model() == old(Model()).(rows := old(rows)[id := row])
    {
      present := id in rows;
      rows := rows[id := row];
    }

    method Delete(id: RowId) returns (present: bool)
      modifies this
      ensures present == (id in old(rows)) && Model() == DeleteAt(old(Model()), id)
    {
      present := id in rows;
      rows := rows - {id};
    }
  }

  datatype TableBackend = Memory(data: TableData) | Paged(pt: PageTable)
  {
    ghost function Repr(): set<object>
      reads if Paged? then {pt} else {}
    {
      match this
      case Memory(data) => {data}
      case Paged(pt) => {pt, pt.mmap, pt.cache}
    }

    ghost predicate Valid()
      reads Repr(), if Paged? then {pt} else {}
    {
      match this
      case Memory(data) => IdsBounded(data.Model())
      case Paged(pt) => pt.Valid() && pt.nextId >= 1
    }

    ghost function Model(): Table
      reads match this case Memory(data) => {data} case Paged(pt) => {pt}
    {
      match this
      case Memory(data) => data.Model()
      case Paged(pt) => pt.Model()
    }

    /** Ids that a page file can address. */
    ghost predicate Addressable(id: RowId)
      reads if Paged? then {pt} else {}
    {
      && id >= 1
      && (Paged? ==> pt.rowsPerPage >= 1 && id + 1 < U64_LIMIT && PageOf(id, pt.rowsPerPage) + 1 < U32_LIMIT)
    }

    /** A row that the serializer of a paged table is made for. */
    ghost predicate Storable(row: Row)
      reads if Paged? then {pt} else {}
    {
      Paged? ==> row.values in pt.codec.storable
    }

    method Insert(row: Row) returns (r: Result<RowId, Error>)
      requires Valid() && Addressable(Model().nextId) && Storable(row)
      modifies Repr()
      ensures Valid() && fresh(Repr() - old(Repr()))
      ensures Memory? ==> r.Ok?
      ensures r.Ok? ==> r.value == old(Model()).nextId && Model() == InsertNew(old(Model()), row)
      ensures r.Err? ==> r.error == Storage && Model() == old(Model()).(nextId := old(Model()).nextId + 1)
    {
      hide FileHolds, PageFile.Rows, PageOf, Fits, PageAfter, ReadHeader;
      match this
      case Memory(data) =>
        var id := data.Insert(row);
        r := Ok(id);
      case Paged(pt) =>
        r := pt.Insert(row);
    }

    method ApplyInsert(id: RowId, row: Row) returns (r: Result<(), Error>)
      requires Valid() && Addressable(id) && Storable(row)
      modifies Repr()
      ensures Valid() && fresh(Repr() - old(Repr()))
      ensures Memory? ==> r.Ok?
      ensures r.Ok? ==> Model() == InsertAt(old(Model()), id, row)
      ensures r.Err? ==> r.error == Storage
      ensures r.Err? ==>
        Model() == old(Model()).(nextId := if id >= old(Model()).nextId then id + 1 else old(Model()).nextId)
    {
      hide FileHolds, PageFile.Rows, PageOf, Fits, PageAfter, ReadHeader;
      match this
      case Memory(data) =>
        data.ApplyInsert(id, row);
        r := Ok(());
      case Paged(pt) =>
        r := pt.ApplyInsert(id, row);
    }

    method Get(id: RowId) returns (r: Result<Option<Row>, Error>)
      requires Valid() && id >= 1
      modifies Repr()
      ensures Valid() && Repr() == old(Repr()) && Model() == old(Model())
      ensures r == Ok(if id in Model().rows then Some(Model().rows[id]) else None)
    {
      hide FileHolds, PageFile.Rows, PageOf, ReadHeader;
      match this
      case Memory(data) =>
        r := Ok(if id in data.rows then Some(data.rows[id]) else None);
      case Paged(pt) =>
        r := pt.Get(id);
    }

    method Scan() returns (r: Result<seq<(RowId, Row)>, Error>)
      requires Valid()
      modifies Repr()
      ensures Valid() && Repr() == old(Repr()) && Model() == old(Model())
      ensures r == Ok(Scans.Scan(Model()))
    {
      hide FileHolds, PageFile.Rows, PageOf, ReadHeader, Lists, Scans.Scan;
      match this
      case Memory(data) =>
        var entries := EntriesOf(data.rows);
        SortedListIsScan(data.Model(), entries);
        r := Ok(SortByKey(entries, (p: (RowId, Row)) => p.0));
      case Paged(pt) =>
        r := pt.Scan();
    }

    /**
     On a missing id the two backends differ: memory stores the row, a page file refuses.  The
     engine calls this only for ids it has just found.
     */
    method Update(id: RowId, row: Row) returns (r: Result<bool, Error>)
      requires Valid() && id >= 1 && Storable(row)
      modifies Repr()
      ensures id in old(Model()).rows ==> Valid()
      ensures Repr() == old(Repr())
      ensures Memory? ==> r.Ok?
      ensures r.Ok? ==> r.value == (id in old(Model()).rows)
      ensures r.Ok? ==> Model() == if id in old(Model()).rows || Memory?
                                   then old(Model()).(rows := old(Model()).rows[id := row])
                                   else old(Model())
      ensures r.Err? ==> r.error == Storage && Model() == old(Model()) && Valid()
    {
      hide FileHolds, PageFile.Rows, PageOf, Fits, PageAfter, ReadHeader;
      match this
      case Memory(data) =>
        var present := data.Update(id, row);
        r := Ok(present);
      case Paged(pt) =>
        r := pt.Update(id, row);
    }

    method Delete(id: RowId) returns (r: Result<bool, Error>)
      requires Valid() && id >= 1
      modifies Repr()
      ensures Valid() && Repr() == old(Repr())
      ensures Memory? ==> r.Ok?
      ensures r.Ok? ==> r.value == (id in old(Model()).rows) && Model() == DeleteAt(old(Model()), id)
      ensures r.Err? ==> r.error == Storage && Model() == old(Model())
    {
      hide FileHolds, PageFile.Rows, PageOf, Fits, PageBefore, ReadHeader;
      match this
      case Memory(data) =>
        var present := data.Delete(id);
        r := Ok(present);
      case Paged(pt) =>
        r := pt.Delete(id);
    }

    method RowCount() returns (n: nat)
      requires Valid()
      modifies Repr()
      ensures Valid() && Repr() == old(Repr()) && Model() == old(Model()) && n == |Model().rows|
    {
      hide FileHolds, PageFile.Rows, PageOf, ReadHeader;
      match this
      case Memory(data) =>
        n := |data.rows|;
      case Paged(pt) =>
        n := pt.RowCount();
    }

    method Flush()
      requires Valid()
      modifies Repr()
      ensures Valid() && Repr() == old(Repr()) && Model() == old(Model())
      ensures Paged? ==> pt.HeaderCurrent()
    {
      hide FileHolds, PageFile.Rows, PageOf, ReadHeader;
      if this.Paged? {
        pt.FlushAll();
      }
    }
  }
}

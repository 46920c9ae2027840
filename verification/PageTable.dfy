/** Page-backed tables: a write-through page cache over a file of fixed slots, refining a plain table. */
module PageTables {
  import opened Types
  import opened Bytes
  import opened Tables
  import opened Sorting
  import opened Scans
  import opened Lru
  import opened PageFile

  function BodyWith(b: Body, id: RowId, row: Row): Body {
    b[id := row]
  }

  /** The page a row goes to, with the row in it. */
  ghost function PageAfter(pages: seq<Body>, id: RowId, rowsPerPage: nat, row: Row): Body
    requires rowsPerPage >= 1 && id >= 1
  {
    var p := PageOf(id, rowsPerPage);
    BodyWith(if p < |pages| then pages[p] else map[], id, row)
  }

  ghost function PageBefore(pages: seq<Body>, id: RowId, rowsPerPage: nat): Body
    requires rowsPerPage >= 1 && id >= 1
  {
    var p := PageOf(id, rowsPerPage);
    (if p < |pages| then pages[p] else map[]) - {id}
  }

  ghost function Enlarged(pages: seq<Body>, n: nat): (r: seq<Body>)
    ensures |r| == if n <= |pages| then |pages| else n
  {
    if n <= |pages| then pages else pages + EmptyPages(n - |pages|)
  }

  // ---- Pages and rows.

  lemma EnlargedRows(pages: seq<Body>, n: nat, rowsPerPage: nat)
    requires rowsPerPage >= 1 && Placed(pages, rowsPerPage)
    ensures Placed(Enlarged(pages, n), rowsPerPage) && Rows(Enlarged(pages, n)) == Rows(pages)
  {
    hide PageOf, Rows;
    assert Placed(Enlarged(pages, n), rowsPerPage);
    RowsByPage(pages, rowsPerPage);
    RowsByPage(Enlarged(pages, n), rowsPerPage);
  }

  // RowsByPage for one id.
  lemma RowAtId(pages: seq<Body>, rowsPerPage: nat, id: RowId)
    requires rowsPerPage >= 1 && Placed(pages, rowsPerPage)
    ensures id in Rows(pages) <==>
      (id >= 1 && PageOf(id, rowsPerPage) < |pages| && id in pages[PageOf(id, rowsPerPage)])
    ensures id in Rows(pages) ==> Rows(pages)[id] == pages[PageOf(id, rowsPerPage)][id]
  {
    RowsByPage(pages, rowsPerPage);
  }

  lemma StoredRow(pages: seq<Body>, id: RowId, row: Row, rowsPerPage: nat)
    requires rowsPerPage >= 1 && Placed(pages, rowsPerPage) && id >= 1 && PageOf(id, rowsPerPage) < |pages|
    ensures var p := PageOf(id, rowsPerPage);
      var pages' := pages[p := BodyWith(pages[p], id, row)];
      && OwnRows(BodyWith(pages[p], id, row), p, rowsPerPage)
      && Placed(pages', rowsPerPage)
      && Rows(pages') == Rows(pages)[id := row]
  {
    hide PageOf, Rows;
    var p := PageOf(id, rowsPerPage);
    var pages' := pages[p := BodyWith(pages[p], id, row)];
    assert OwnRows(pages[p], p, rowsPerPage);
    assert Placed(pages', rowsPerPage);
    hide Placed, OwnRows;
    var want: Body := Rows(pages)[id := row];
    forall x: RowId
      ensures x in Rows(pages') <==> x in want
      ensures x in want ==> Rows(pages')[x] == want[x]
    {
      RowAtId(pages, rowsPerPage, x);
      RowAtId(pages', rowsPerPage, x);
    }
  }

  lemma RemovedRow(pages: seq<Body>, id: RowId, rowsPerPage: nat)
    requires rowsPerPage >= 1 && Placed(pages, rowsPerPage) && id >= 1 && PageOf(id, rowsPerPage) < |pages|
    ensures var p := PageOf(id, rowsPerPage);
      var pages' := pages[p := pages[p] - {id}];
      && OwnRows(pages[p] - {id}, p, rowsPerPage)
      && Placed(pages', rowsPerPage)
      && Rows(pages') == Rows(pages) - {id}
  {
    hide PageOf, Rows;
    var p := PageOf(id, rowsPerPage);
    var pages' := pages[p := pages[p] - {id}];
    assert OwnRows(pages[p], p, rowsPerPage);
    assert Placed(pages', rowsPerPage);
    hide Placed, OwnRows;
    var want: Body := Rows(pages) - {id};
    forall x: RowId
      ensures x in Rows(pages') <==> x in want
      ensures x in want ==> Rows(pages')[x] == want[x]
    {
      RowAtId(pages, rowsPerPage, x);
      RowAtId(pages', rowsPerPage, x);
    }
  }

  method CopyInto(a: array<byte>, at: nat, data: seq<byte>)
    requires at + |data| <= a.Length
    modifies a
    ensures a[..] == Put(old(a[..]), at, data)
  {
    ghost var before := a[..];
    for i := 0 to |data|
      invariant forall k :: at <= k < at + i ==> a[k] == data[k - at]
      invariant forall k :: 0 <= k < a.Length && !(at <= k < at + i) ==> a[k] == before[k]
    {
      a[at + i] := data[i];
    }
    assert a[..] == Put(before, at, data);
  }

  class PageTable {
    const codec: PageCodec
    const rowsPerPage: nat
    const cache: LruCache<Body>
    var nextId: RowId
    var pageCount: nat
    var mmap: array<byte>

    ghost var pages: seq<Body>

    /** The file holds the pages and every cached body is the decoded slot. */
    ghost predicate Core()
      reads this, mmap, cache
    {
      && rowsPerPage >= 1 && codec.Invertible() && cache.Valid()
      && pageCount == |pages| < U32_LIMIT && nextId < U64_LIMIT
      && FileHolds(codec, rowsPerPage, mmap[..], pages)
      && forall p :: p in cache.pages ==> p < |pages| && cache.pages[p] == pages[p]
    }

    /** The stored ids lie below the id in the file's header, which is at most the live one. */
    ghost predicate Valid()
      reads this, mmap, cache
    {
      && Core()
      && ReadHeader(mmap[..]).0 <= nextId
      && forall id :: id in Rows(pages) ==> 1 <= id < ReadHeader(mmap[..]).0
    }

    ghost predicate HeaderCurrent()
      reads this, mmap
    {
      ReadHeader(mmap[..]) == (nextId, pageCount)
    }

    /** The table this object stands for. */
    ghost function Model(): Table
      reads this
    {
      Table(Rows(pages), nextId)
    }

    /** Opens a file left by another `PageTable`, or creates one. */
    constructor Open(codec: PageCodec, rowsPerPage: nat, maxPages: nat, file: Option<seq<byte>>, ghost pages: seq<Body>)
      requires rowsPerPage >= 1 && codec.Invertible()
      requires file.None? ==> pages == []
      requires file.Some? ==>
        && FileHolds(codec, rowsPerPage, file.value, pages)
        && |pages| < U32_LIMIT && ReadHeader(file.value).0 < U64_LIMIT
        && forall id :: id in Rows(pages) ==> 1 <= id < ReadHeader(file.value).0
      ensures Valid() && fresh(mmap) && fresh(cache) && this.pages == pages
      ensures Model() == Table(Rows(pages), if file.Some? then ReadHeader(file.value).0 else 1)
      ensures HeaderCurrent() <==> file.Some?
      ensures mmap[..] == if file.Some? then file.value else Zeros(FileSize(0))
      ensures this.codec == codec && this.rowsPerPage == rowsPerPage && cache.maxPages == maxPages
    {
      hide FileHolds, ReadHeader, SlotHolds, PageCodec.Stores;
      this.codec := codec;
      this.rowsPerPage := rowsPerPage;
      this.cache := new LruCache(maxPages);
      this.pages := pages;
      var bytes := if file.Some? then file.value else Zeros(FileSize(0));
      NewFile(codec, rowsPerPage);
      if file.Some? {
        HeaderCount(codec, rowsPerPage, file.value, pages);
      }
      var header := if file.Some? then ReadHeader(file.value) else (1, 0);
      nextId, pageCount := header.0, header.1;
      mmap := new byte[|bytes|](i requires 0 <= i < |bytes| => bytes[i]);
      new;
      assert mmap[..] == bytes;
    }

    method WriteHeader()
      requires Core()
      modifies mmap
      ensures Core() && HeaderCurrent()
    {
      hide FileHolds, ReadHeader, SlotHolds, PageCodec.Stores;
      FileLength(codec, rowsPerPage, mmap[..], pages);
      PutHeader(codec, rowsPerPage, mmap[..], pages, nextId);
      CopyInto(mmap, 0, HeaderBytes(nextId, pageCount));
    }

    method LoadPage(p: nat) returns (r: Result<Body, Error>)
      requires Core() && p < pageCount
      modifies cache
      ensures Core() && r == Ok(pages[p])
      ensures p in old(cache.pages) || Occupied(mmap[..], p) ==> p in cache.pages
      ensures p !in old(cache.pages) && !Occupied(mmap[..], p) ==> cache.pages == old(cache.pages)
    {
      hide FileHolds, ReadHeader, SlotHolds, PageCodec.Stores, ReadPage, Occupied;
      var hit := cache.Get(p);
      if hit.Some? { return Ok(hit.value); }
      FilePage(codec, rowsPerPage, mmap[..], pages, p);
      r := ReadPage(codec, mmap[..], p);
      if r.Ok? && Occupied(mmap[..], p) {
        cache.Insert(p, r.value);
      }
    }

    /** A page that does not fit is refused and nothing changes. */
    method StorePage(p: nat, body: Body) returns (r: Result<(), Error>)
      requires Core() && OwnRows(body, p, rowsPerPage) && codec.Stores(body)
      modifies this`pages, mmap, cache
      ensures Core()
      ensures r.Ok? <==> p < pageCount && Fits(codec, body)
      ensures r.Ok? ==> pages == old(pages)[p := body]
      ensures r.Err? ==> r.error == Storage && pages == old(pages) && mmap[..] == old(mmap[..])
      ensures mmap[..HEADER_BYTES] == old(mmap[..HEADER_BYTES])
    {
      hide FileHolds, ReadHeader, SlotHolds, PageCodec.Stores, OwnRows, Put;
      FileLength(codec, rowsPerPage, mmap[..], pages);
      if p >= pageCount { return Err(Storage); }
      var encoded := codec.encode(body);
      if |encoded| + 4 > SLOT_BYTES { return Err(Storage); }
      StoredPage(codec, rowsPerPage, mmap[..], pages, p, body);
      var at := SlotAt(p);
      CopyInto(mmap, at, Zeros(SLOT_BYTES));
      CopyInto(mmap, at, LittleEndian(|encoded|, 4));
      CopyInto(mmap, at + 4, encoded);
      pages := pages[p := body];
      cache.Insert(p, body);
      r := Ok(());
    }

    method Grow(p: nat)
      requires Core() && p + 1 < U32_LIMIT
      modifies this`pages, this`pageCount, this`mmap, mmap
      ensures Core() && (mmap == old(mmap) || fresh(mmap))
      ensures pages == Enlarged(old(pages), p + 1)
      ensures if p < old(pageCount) then mmap[..] == old(mmap[..]) else HeaderCurrent()
    {
      hide FileHolds, ReadHeader, SlotHolds, PageCodec.Stores, HeaderBytes, Put;
      if p < pageCount { return; }
      var newCount := p + 1;
      var newSize := FileSize(newCount);
      var bytes := Grown(mmap[..], newSize);
      GrownFile(codec, rowsPerPage, mmap[..], pages, newCount, nextId);
      mmap := new byte[newSize](i requires 0 <= i < newSize => bytes[i]);
      assert mmap[..] == bytes;
      CopyInto(mmap, 0, HeaderBytes(nextId, newCount));
      pageCount := newCount;
      pages := pages + EmptyPages(newCount - |pages|);
    }

    /** Stores a row, growing the file first; refused exactly when its page would overflow the slot. */
    method PutRow(id: RowId, row: Row) returns (r: Result<(), Error>)
      requires Core() && id >= 1 && PageOf(id, rowsPerPage) + 1 < U32_LIMIT && row.values in codec.storable
      modifies this`pages, this`pageCount, this`mmap, mmap, cache
      ensures Core() && (mmap == old(mmap) || fresh(mmap))
      ensures r.Ok? <==> Fits(codec, old(PageAfter(pages, id, rowsPerPage, row)))
      ensures r.Err? ==> r.error == Storage
      ensures Rows(pages) == if r.Ok? then old(Rows(pages))[id := row] else old(Rows(pages))
      ensures ReadHeader(mmap[..]).0 == old(ReadHeader(mmap[..]).0) || ReadHeader(mmap[..]).0 == nextId
    {
      hide FileHolds, SlotHolds, PageCodec.Stores, OwnRows, PageOf, Rows, FromLittleEndian;
      var p := PageOf(id, rowsPerPage);
      FilePlaced(codec, rowsPerPage, mmap[..], pages);
      EnlargedRows(pages, p + 1, rowsPerPage);
      Grow(p);
      var loaded := LoadPage(p);
      StoredRow(pages, id, row, rowsPerPage);
      StoresWith(codec, rowsPerPage, mmap[..], pages, p, id, row);
      label L:
      FileLength(codec, rowsPerPage, mmap[..], pages);
      r := StorePage(p, BodyWith(loaded.value, id, row));
      HeaderPart(mmap[..], old@L(mmap[..]));
    }

    method Insert(row: Row) returns (r: Result<RowId, Error>)
      requires Valid() && nextId >= 1 && nextId + 1 < U64_LIMIT && PageOf(nextId, rowsPerPage) + 1 < U32_LIMIT
      requires row.values in codec.storable
      modifies this, mmap, cache
      ensures Valid() && (mmap == old(mmap) || fresh(mmap))
      ensures r.Ok? <==> Fits(codec, old(PageAfter(pages, nextId, rowsPerPage, row)))
      ensures r.Ok? ==> r.value == old(nextId) && Model() == InsertNew(old(Model()), row) && HeaderCurrent()
      ensures r.Err? ==> r.error == Storage && Model() == old(Model()).(nextId := old(nextId) + 1)
    {
      hide FileHolds, SlotHolds, PageCodec.Stores, PageOf, Rows, ReadHeader, PageAfter;
      var id := nextId;
      nextId := nextId + 1;
      var put := PutRow(id, row);
      if put.Err? { return Err(put.error); }
      WriteHeader();
      r := Ok(id);
    }

    method ApplyInsert(id: RowId, row: Row) returns (r: Result<(), Error>)
      requires Valid() && 1 <= id && id + 1 < U64_LIMIT && PageOf(id, rowsPerPage) + 1 < U32_LIMIT
      requires row.values in codec.storable
      modifies this, mmap, cache
      ensures Valid() && (mmap == old(mmap) || fresh(mmap))
      ensures r.Ok? <==> Fits(codec, old(PageAfter(pages, id, rowsPerPage, row)))
      ensures r.Ok? ==> Model() == InsertAt(old(Model()), id, row) && HeaderCurrent()
      ensures r.Err? ==> r.error == Storage
      ensures r.Err? ==> Model() == old(Model()).(nextId := if id >= old(nextId) then id + 1 else old(nextId))
    {
      hide FileHolds, SlotHolds, PageCodec.Stores, Occupied, PageOf, Rows, ReadHeader, PageAfter;
      if id >= nextId {
        nextId := id + 1;
      }
      var put := PutRow(id, row);
      if put.Err? { return Err(put.error); }
      WriteHeader();
      r := Ok(());
    }

    method Get(id: RowId) returns (r: Result<Option<Row>, Error>)
      requires Valid() && id >= 1
      modifies cache
      ensures Valid()
      ensures r == Ok(if id in Model().rows then Some(Model().rows[id]) else None)
    {
      hide FileHolds, SlotHolds, PageCodec.Stores, Occupied, PageOf, Rows, ReadHeader;
      FilePlaced(codec, rowsPerPage, mmap[..], pages);
      RowsByPage(pages, rowsPerPage);
      var p := PageOf(id, rowsPerPage);
      if p >= pageCount { return Ok(None); }
      var body := LoadPage(p);
      r := Ok(if id in body.value then Some(body.value[id]) else None);
    }

    /** Only an existing row is replaced. */
    method Update(id: RowId, row: Row) returns (r: Result<bool, Error>)
      requires Valid() && id >= 1 && row.values in codec.storable
      modifies this`pages, mmap, cache
      ensures Valid()
      ensures r.Err? <==>
        id in old(Model()).rows && !Fits(codec, old(PageAfter(pages, id, rowsPerPage, row)))
      ensures r.Ok? ==> r.value == (id in old(Model()).rows)
      ensures r.Err? ==> r.error == Storage
      ensures r == Ok(true) ==> Model() == old(Model()).(rows := old(Model()).rows[id := row])
      ensures r != Ok(true) ==> Model() == old(Model())
      ensures HeaderCurrent() == old(HeaderCurrent())
    {
      hide FileHolds, SlotHolds, PageCodec.Stores, Occupied, PageOf, Rows, ReadHeader, OwnRows;
      FilePlaced(codec, rowsPerPage, mmap[..], pages);
      RowsByPage(pages, rowsPerPage);
      FileLength(codec, rowsPerPage, mmap[..], pages);
      var p := PageOf(id, rowsPerPage);
      if p >= pageCount { return Ok(false); }
      var loaded := LoadPage(p);
      StoredRow(pages, id, row, rowsPerPage);
      StoresWith(codec, rowsPerPage, mmap[..], pages, p, id, row);
      if id in loaded.value {
        var stored := StorePage(p, BodyWith(loaded.value, id, row));
        HeaderPart(mmap[..], old(mmap[..]));
        r := if stored.Ok? then Ok(true) else Err(stored.error);
      } else {
        r := Ok(false);
      }
    }

    method Delete(id: RowId) returns (r: Result<bool, Error>)
      requires Valid() && id >= 1
      modifies this`pages, mmap, cache
      ensures Valid()
      ensures r.Err? <==>
        id in old(Model()).rows && !Fits(codec, old(PageBefore(pages, id, rowsPerPage)))
      ensures r.Ok? ==> r.value == (id in old(Model()).rows)
      ensures r.Ok? ==> Model() == DeleteAt(old(Model()), id)
      ensures r.Err? ==> r.error == Storage && Model() == old(Model())
      ensures HeaderCurrent() == old(HeaderCurrent())
    {
      hide FileHolds, SlotHolds, PageCodec.Stores, Occupied, PageOf, Rows, ReadHeader, OwnRows;
      FilePlaced(codec, rowsPerPage, mmap[..], pages);
      RowsByPage(pages, rowsPerPage);
      FileLength(codec, rowsPerPage, mmap[..], pages);
      var p := PageOf(id, rowsPerPage);
      if p >= pageCount { return Ok(false); }
      var loaded := LoadPage(p);
      RemovedRow(pages, id, rowsPerPage);
      StoresWithout(codec, rowsPerPage, mmap[..], pages, p, id);
      if id in loaded.value {
        var stored := StorePage(p, loaded.value - {id});
        HeaderPart(mmap[..], old(mmap[..]));
        r := if stored.Ok? then Ok(true) else Err(stored.error);
      } else {
        r := Ok(false);
      }
    }

    /** All rows, by increasing id. */
    method Scan() returns (r: Result<seq<(RowId, Row)>, Error>)
      requires Valid()
      modifies cache
      ensures Valid() && r == Ok(Scans.Scan(Model()))
    {
      hide FileHolds, SlotHolds, PageCodec.Stores, PageOf, Rows, ReadHeader, Lists, Scans.Scan, SortByKey;
      var rows := AllEntries();
      SortedListIsScan(Model(), rows);
      r := Ok(SortByKey(rows, (p: (RowId, Row)) => p.0));
    }

    /** The rows of one page after the other. */
    method AllEntries() returns (rows: seq<(RowId, Row)>)
      requires Valid()
      modifies cache
      ensures Valid() && Lists(rows, Model().rows)
    {
      hide FileHolds, SlotHolds, PageCodec.Stores, Occupied, PageOf, Rows, ReadHeader, Lists, Placed;
      rows := [];
      ListsNothing();
      NoPages();
      FilePlaced(codec, rowsPerPage, mmap[..], pages);
      for p := 0 to pageCount
        invariant Valid() && pages == old(pages) && nextId == old(nextId) && pageCount == old(pageCount)
        invariant Lists(rows, Rows(pages[..p]))
      {
        var entries := PageEntries(p);
        NextPage(pages, p, rowsPerPage);
        ListsConcat(rows, Rows(pages[..p]), entries, pages[p]);
        rows := rows + entries;
      }
      assert pages[..pageCount] == pages;
    }

    method PageEntries(p: nat) returns (entries: seq<(RowId, Row)>)
      requires Valid() && p < pageCount
      modifies cache
      ensures Valid() && Lists(entries, pages[p])
    {
      hide FileHolds, SlotHolds, PageCodec.Stores, Occupied, PageOf, Rows, ReadHeader, Lists;
      var body := LoadPage(p);
      entries := EntriesOf(body.value);
    }

    method CacheLen() returns (n: nat)
      requires Core()
      ensures n == |cache.pages| <= cache.Capacity()
    {
      n := cache.Len();
    }

    method RowCount() returns (count: nat)
      requires Valid()
      modifies cache
      ensures Valid() && count == |Model().rows|
    {
      hide FileHolds, SlotHolds, PageCodec.Stores, Occupied, PageOf, Rows, ReadHeader, Placed;
      count := 0;
      NoPages();
      FilePlaced(codec, rowsPerPage, mmap[..], pages);
      for p := 0 to pageCount
        invariant Valid() && pages == old(pages) && nextId == old(nextId) && pageCount == old(pageCount)
        invariant count == |Rows(pages[..p])|
      {
        var body := LoadPage(p);
        NextPage(pages, p, rowsPerPage);
        DisjointSize(Rows(pages[..p]), body.value);
        count := count + |body.value|;
      }
      assert pages[..pageCount] == pages;
    }

    method FlushAll()
      requires Valid()
      modifies mmap
      ensures Valid() && HeaderCurrent()
    {
      hide FileHolds, SlotHolds, PageCodec.Stores, Occupied, Rows, ReadHeader;
      WriteHeader();
    }
  }

  /**
   Closing and opening again: all rows are there, and the next id is the old one exactly if the
   header in the file was up to date.
   */
  method Reopen(t: PageTable, maxPages: nat) returns (u: PageTable)
    requires t.Valid()
    ensures u.Valid() && fresh(u) && fresh(u.mmap) && fresh(u.cache)
    ensures u.Model().rows == t.Model().rows && u.mmap[..] == t.mmap[..]
    ensures u.Model() == t.Model() <==> t.HeaderCurrent()
  {
    hide FileHolds, ReadHeader, SlotHolds, PageCodec.Stores;
    HeaderCount(t.codec, t.rowsPerPage, t.mmap[..], t.pages);
    u := new PageTable.Open(t.codec, t.rowsPerPage, maxPages, Some(t.mmap[..]), t.pages);
  }

  /** A file that was created but never written to forgets that ids start at 1. */
  method CreateAndReopen(c: PageCodec, rowsPerPage: nat, maxPages: nat) returns (t: PageTable, u: PageTable)
    requires rowsPerPage >= 1 && c.Invertible()
    ensures t.Model() == EMPTY_TABLE && u.Model() == Table(map[], 0)
  {
    hide FileHolds, ReadHeader, SlotHolds, PageCodec.Stores;
    NoPages();
    NewFile(c, rowsPerPage);
    t := new PageTable.Open(c, rowsPerPage, maxPages, None, []);
    u := new PageTable.Open(c, rowsPerPage, maxPages, Some(t.mmap[..]), []);
  }

  lemma NoPages()
    ensures Rows([]) == map[]
  {
  }

  lemma NextPage(pages: seq<Body>, p: nat, rowsPerPage: nat)
    requires rowsPerPage >= 1 && Placed(pages, rowsPerPage) && p < |pages|
    ensures Rows(pages[..p + 1]) == Rows(pages[..p]) + pages[p]
    ensures Rows(pages[..p]).Keys !! pages[p].Keys
  {
    assert pages[..p + 1][..p] == pages[..p];
    hide PageOf, Rows;
    assert Placed(pages[..p], rowsPerPage);
    assert OwnRows(pages[p], p, rowsPerPage);
    RowsByPage(pages[..p], rowsPerPage);
  }

  lemma DisjointSize(a: Body, b: Body)
    requires a.Keys !! b.Keys
    ensures |a + b| == |a| + |b|
  {
    assert (a + b).Keys == a.Keys + b.Keys;
    assert |a.Keys + b.Keys| == |a.Keys| + |b.Keys|;
  }

  // ---- What a file's shape gives.

  lemma HeaderCount(c: PageCodec, rowsPerPage: nat, bytes: seq<byte>, pages: seq<Body>)
    requires rowsPerPage >= 1 && FileHolds(c, rowsPerPage, bytes, pages)
    ensures ReadHeader(bytes).1 == |pages|
  {
  }

  lemma FileLength(c: PageCodec, rowsPerPage: nat, bytes: seq<byte>, pages: seq<Body>)
    requires rowsPerPage >= 1 && FileHolds(c, rowsPerPage, bytes, pages)
    ensures |bytes| == FileSize(|pages|)
  {
  }

  lemma FilePlaced(c: PageCodec, rowsPerPage: nat, bytes: seq<byte>, pages: seq<Body>)
    requires rowsPerPage >= 1 && FileHolds(c, rowsPerPage, bytes, pages)
    ensures Placed(pages, rowsPerPage)
  {
  }

  lemma FilePage(c: PageCodec, rowsPerPage: nat, bytes: seq<byte>, pages: seq<Body>, p: nat)
    requires rowsPerPage >= 1 && FileHolds(c, rowsPerPage, bytes, pages) && c.Invertible() && p < |pages|
    ensures ReadPage(c, bytes, p) == Ok(pages[p])
  {
    ReadSlot(c, bytes, p, pages[p]);
  }

  lemma StoresWith(c: PageCodec, rowsPerPage: nat, bytes: seq<byte>, pages: seq<Body>, p: nat, id: RowId, row: Row)
    requires rowsPerPage >= 1 && FileHolds(c, rowsPerPage, bytes, pages) && p < |pages| && row.values in c.storable
    ensures c.Stores(BodyWith(pages[p], id, row))
  {
    hide SlotHolds, ReadHeader, Placed;
    assert c.Stores(pages[p]);
  }

  lemma StoresWithout(c: PageCodec, rowsPerPage: nat, bytes: seq<byte>, pages: seq<Body>, p: nat, id: RowId)
    requires rowsPerPage >= 1 && FileHolds(c, rowsPerPage, bytes, pages) && p < |pages|
    ensures c.Stores(pages[p] - {id})
  {
    hide SlotHolds, ReadHeader, Placed;
    assert c.Stores(pages[p]);
  }
}

/** The layout of a page file: a header, then one fixed-size slot per page. */
module PageFile {
  import opened Types
  import opened Bytes

  type Body = map<RowId, Row>

  const HEADER_BYTES: nat := 16        // an 8-byte id, a 4-byte count and padding
  const SLOT_BYTES: nat := 65536

  /** The page serializer is foreign code; `storable` are the rows it is made for. */
  datatype PageCodec = PageCodec(
    encode: Body -> seq<byte>,
    decode: seq<byte> -> Option<Body>,
    ghost storable: iset<seq<Value>>)
  {
    ghost predicate Stores(b: Body) {
      forall id :: id in b ==> b[id].values in storable
    }

    /** It can read what it writes of such rows, and never writes nothing. */
    ghost predicate Invertible() {
      forall b :: Stores(b) ==> decode(encode(b)) == Some(b) && encode(b) != []
    }
  }

  function FileSize(pages: nat): nat {
    HEADER_BYTES + SLOT_BYTES * if pages == 0 then 1 else pages
  }

  function SlotAt(p: nat): nat {
    HEADER_BYTES + SLOT_BYTES * p
  }

  function Slot(bytes: seq<byte>, p: nat): (s: seq<byte>)
    requires SlotAt(p + 1) <= |bytes|
    ensures |s| == SLOT_BYTES
  {
    bytes[SlotAt(p)..SlotAt(p + 1)]
  }

  function ReadHeader(bytes: seq<byte>): (nat, nat) {
    if |bytes| < HEADER_BYTES then (1, 0)
    else (FromLittleEndian(bytes[..8]), FromLittleEndian(bytes[8..12]))
  }

  /** A page read straight from the file. */
  function ReadPage(c: PageCodec, bytes: seq<byte>, p: nat): Result<Body, Error> {
    if !Occupied(bytes, p) then Ok(map[])
    else
      var at := SlotAt(p);
      match c.decode(bytes[at + 4..at + 4 + FromLittleEndian(bytes[at..at + 4])])
      case None => Err(Storage)
      case Some(b) => Ok(b)
  }

  /** The slot lies in the file and something was stored in it. */
  predicate Occupied(bytes: seq<byte>, p: nat) {
    var at := SlotAt(p);
    && at + 4 <= |bytes|
    && var len := FromLittleEndian(bytes[at..at + 4]);
       len != 0 && at + 4 + len <= |bytes|
  }

  predicate Fits(c: PageCodec, body: Body) {
    |c.encode(body)| + 4 <= SLOT_BYTES
  }

  function Zeros(n: nat): (s: seq<byte>)
    ensures |s| == n
  {
    seq(n, _ => 0)
  }

  /** A slot holds a page: its length and encoding, or nothing yet. */
  ghost predicate SlotHolds(c: PageCodec, slot: seq<byte>, body: Body)
    requires |slot| == SLOT_BYTES
  {
    var e := c.encode(body);
    || (body == map[] && slot[..4] == Zeros(4))
    || (|e| + 4 <= SLOT_BYTES && slot[..4] == LittleEndian(|e|, 4) && slot[4..4 + |e|] == e)
  }

  lemma SliceSlice<T>(s: seq<T>, a: nat, b: nat, i: nat, j: nat)
    requires a <= b <= |s| && i <= j <= b - a
    ensures s[a..b][i..j] == s[a + i..a + j]
  {
    var t := s[a..b];
    forall k | 0 <= k < j - i ensures t[i..j][k] == s[a + i..a + j][k] {
      assert t[i..j][k] == t[i + k] && t[i + k] == s[a + (i + k)];
    }
  }

  lemma ReadSlot(c: PageCodec, bytes: seq<byte>, p: nat, body: Body)
    requires c.Invertible() && c.Stores(body) && SlotAt(p + 1) <= |bytes| && SlotHolds(c, Slot(bytes, p), body)
    ensures ReadPage(c, bytes, p) == Ok(body)
  {
    hide FromLittleEndian, LittleEndian;
    var e, at := c.encode(body), SlotAt(p);
    SliceSlice(bytes, at, SlotAt(p + 1), 0, 4);
    if body == map[] && Slot(bytes, p)[..4] == Zeros(4) {
      FromLittleEndianZeros(Zeros(4));
    } else {
      Widths();
      LittleEndianRoundTrip(|e|, 4);
      SliceSlice(bytes, at, SlotAt(p + 1), 4, 4 + |e|);
    }
  }

  /** `bytes` with `data` written over them at `at`. */
  function Put(bytes: seq<byte>, at: nat, data: seq<byte>): (r: seq<byte>)
    requires at + |data| <= |bytes|
    ensures |r| == |bytes|
  {
    bytes[..at] + data + bytes[at + |data|..]
  }

  lemma PutKeeps(bytes: seq<byte>, at: nat, data: seq<byte>, a: nat, b: nat)
    requires at + |data| <= |bytes| && a <= b <= |bytes|
    requires b <= at || at + |data| <= a
    ensures Put(bytes, at, data)[a..b] == bytes[a..b]
  {
  }

  lemma PutReads(bytes: seq<byte>, at: nat, data: seq<byte>)
    requires at + |data| <= |bytes|
    ensures Put(bytes, at, data)[at..at + |data|] == data
  {
  }

  /** The slot of page `p` overwritten with the encoding `e`. */
  function WithPage(bytes: seq<byte>, p: nat, e: seq<byte>): (r: seq<byte>)
    requires SlotAt(p + 1) <= |bytes| && |e| + 4 <= SLOT_BYTES
    ensures |r| == |bytes|
  {
    Put(Put(Put(bytes, SlotAt(p), Zeros(SLOT_BYTES)), SlotAt(p), LittleEndian(|e|, 4)), SlotAt(p) + 4, e)
  }

  lemma WithPageHolds(c: PageCodec, bytes: seq<byte>, p: nat, body: Body)
    requires SlotAt(p + 1) <= |bytes| && Fits(c, body)
    ensures SlotHolds(c, Slot(WithPage(bytes, p, c.encode(body)), p), body)
  {
    hide Put, LittleEndian;
    var e, at := c.encode(body), SlotAt(p);
    var zeroed := Put(bytes, at, Zeros(SLOT_BYTES));
    var sized := Put(zeroed, at, LittleEndian(|e|, 4));
    var r := Put(sized, at + 4, e);
    PutReads(zeroed, at, LittleEndian(|e|, 4));
    PutKeeps(sized, at + 4, e, at, at + 4);
    PutReads(sized, at + 4, e);
    SliceSlice(r, at, SlotAt(p + 1), 0, 4);
    SliceSlice(r, at, SlotAt(p + 1), 4, 4 + |e|);
  }

  /** Neither the header nor another slot changes. */
  lemma WithPageKeeps(bytes: seq<byte>, p: nat, e: seq<byte>, a: nat, b: nat)
    requires SlotAt(p + 1) <= |bytes| && |e| + 4 <= SLOT_BYTES && a <= b <= |bytes|
    requires b <= SlotAt(p) || SlotAt(p + 1) <= a
    ensures WithPage(bytes, p, e)[a..b] == bytes[a..b]
  {
    hide Put, LittleEndian;
    var at := SlotAt(p);
    var zeroed := Put(bytes, at, Zeros(SLOT_BYTES));
    var sized := Put(zeroed, at, LittleEndian(|e|, 4));
    PutKeeps(bytes, at, Zeros(SLOT_BYTES), a, b);
    PutKeeps(zeroed, at, LittleEndian(|e|, 4), a, b);
    PutKeeps(sized, at + 4, e, a, b);
  }

  /** The twelve header bytes that are written. */
  function HeaderBytes(nextId: nat, pages: nat): (s: seq<byte>)
    ensures |s| == 12
  {
    LittleEndian(nextId, 8) + LittleEndian(pages, 4)
  }

  lemma HeaderRoundTrip(bytes: seq<byte>, nextId: nat, pages: nat)
    requires |bytes| >= HEADER_BYTES && nextId < U64_LIMIT && pages < U32_LIMIT
    ensures ReadHeader(Put(bytes, 0, HeaderBytes(nextId, pages))) == (nextId, pages)
  {
    hide FromLittleEndian, LittleEndian;
    Widths();
    LittleEndianRoundTrip(nextId, 8);
    LittleEndianRoundTrip(pages, 4);
    var r := Put(bytes, 0, HeaderBytes(nextId, pages));
    assert r[..8] == LittleEndian(nextId, 8);
    assert r[8..12] == LittleEndian(pages, 4);
  }

  lemma HeaderPart(a: seq<byte>, b: seq<byte>)
    requires |a| >= HEADER_BYTES && |b| >= HEADER_BYTES && a[..HEADER_BYTES] == b[..HEADER_BYTES]
    ensures ReadHeader(a) == ReadHeader(b)
  {
    assert a[..8] == a[..HEADER_BYTES][..8] && a[8..12] == a[..HEADER_BYTES][8..12];
    assert b[..8] == b[..HEADER_BYTES][..8] && b[8..12] == b[..HEADER_BYTES][8..12];
  }

  // ---- A whole file.

  function PageOf(id: RowId, rowsPerPage: nat): nat
    requires rowsPerPage >= 1 && id >= 1
  {
    (id - 1) / rowsPerPage
  }

  ghost predicate OwnRows(page: Body, p: nat, rowsPerPage: nat)
    requires rowsPerPage >= 1
  {
    forall id :: id in page ==> id >= 1 && PageOf(id, rowsPerPage) == p
  }

  /** Each row lies in its own page. */
  ghost predicate Placed(pages: seq<Body>, rowsPerPage: nat)
    requires rowsPerPage >= 1
  {
    forall p :: 0 <= p < |pages| ==> OwnRows(pages[p], p, rowsPerPage)
  }

  /** The rows of all pages together. */
  ghost function Rows(pages: seq<Body>): Body {
    if pages == [] then map[] else Rows(pages[..|pages| - 1]) + pages[|pages| - 1]
  }

  lemma {:induction false} RowsByPage(pages: seq<Body>, rowsPerPage: nat)
    requires rowsPerPage >= 1 && Placed(pages, rowsPerPage)
    ensures forall id :: id in Rows(pages) <==>
      (id >= 1 && PageOf(id, rowsPerPage) < |pages| && id in pages[PageOf(id, rowsPerPage)])
    ensures forall id :: id in Rows(pages) ==> Rows(pages)[id] == pages[PageOf(id, rowsPerPage)][id]
  {
    hide PageOf;
    if pages != [] {
      var init := pages[..|pages| - 1];
      forall p | 0 <= p < |init| ensures OwnRows(init[p], p, rowsPerPage) {
        assert init[p] == pages[p];
      }
      RowsByPage(init, rowsPerPage);
      assert OwnRows(pages[|pages| - 1], |pages| - 1, rowsPerPage);
    }
  }

  ghost predicate FileHolds(c: PageCodec, rowsPerPage: nat, bytes: seq<byte>, pages: seq<Body>)
    requires rowsPerPage >= 1
  {
    && |bytes| == FileSize(|pages|)
    && ReadHeader(bytes).1 == |pages|
    && (pages == [] ==> forall i :: SlotAt(0) <= i < |bytes| ==> bytes[i] == 0)
    && Placed(pages, rowsPerPage)
    && forall p :: 0 <= p < |pages| ==> SlotHolds(c, Slot(bytes, p), pages[p]) && c.Stores(pages[p])
  }

  /** Storing page `p` changes that page and nothing else. */
  lemma StoredPage(c: PageCodec, rowsPerPage: nat, bytes: seq<byte>, pages: seq<Body>, p: nat, body: Body)
    requires rowsPerPage >= 1 && FileHolds(c, rowsPerPage, bytes, pages)
    requires p < |pages| && Fits(c, body) && c.Stores(body)
    requires OwnRows(body, p, rowsPerPage)
    ensures FileHolds(c, rowsPerPage, WithPage(bytes, p, c.encode(body)), pages[p := body])
    ensures WithPage(bytes, p, c.encode(body))[..HEADER_BYTES] == bytes[..HEADER_BYTES]
  {
    hide WithPage, SlotHolds, OwnRows, FromLittleEndian;
    var r := WithPage(bytes, p, c.encode(body));
    WithPageHolds(c, bytes, p, body);
    WithPageKeeps(bytes, p, c.encode(body), 0, HEADER_BYTES);
    assert r[8..12] == r[..HEADER_BYTES][8..12] && bytes[8..12] == bytes[..HEADER_BYTES][8..12];
    forall q | 0 <= q < |pages| ensures SlotHolds(c, Slot(r, q), pages[p := body][q]) && c.Stores(pages[p := body][q]) {
      if q != p {
        WithPageKeeps(bytes, p, c.encode(body), SlotAt(q), SlotAt(q + 1));
      }
    }
  }

  lemma PutHeader(c: PageCodec, rowsPerPage: nat, bytes: seq<byte>, pages: seq<Body>, nextId: nat)
    requires rowsPerPage >= 1 && FileHolds(c, rowsPerPage, bytes, pages)
    requires nextId < U64_LIMIT && |pages| < U32_LIMIT
    ensures FileHolds(c, rowsPerPage, Put(bytes, 0, HeaderBytes(nextId, |pages|)), pages)
    ensures ReadHeader(Put(bytes, 0, HeaderBytes(nextId, |pages|))) == (nextId, |pages|)
  {
    hide SlotHolds, ReadHeader, Placed;
    HeaderRoundTrip(bytes, nextId, |pages|);
    var r := Put(bytes, 0, HeaderBytes(nextId, |pages|));
    forall p | 0 <= p < |pages| ensures SlotHolds(c, Slot(r, p), pages[p]) {
      PutKeeps(bytes, 0, HeaderBytes(nextId, |pages|), SlotAt(p), SlotAt(p + 1));
    }
  }

  function Grown(bytes: seq<byte>, size: nat): (r: seq<byte>)
    ensures |r| == size
  {
    if size <= |bytes| then bytes[..size] else bytes + Zeros(size - |bytes|)
  }

  function EmptyPages(n: nat): (s: seq<Body>)
    ensures |s| == n && forall i :: 0 <= i < n ==> s[i] == map[]
  {
    seq(n, _ => map[])
  }

  /** Growing the file adds empty pages, once the header counts them. */
  lemma GrownFile(c: PageCodec, rowsPerPage: nat, bytes: seq<byte>, pages: seq<Body>, n: nat, nextId: nat)
    requires rowsPerPage >= 1 && FileHolds(c, rowsPerPage, bytes, pages)
    requires |pages| < n < U32_LIMIT && nextId < U64_LIMIT
    ensures var r := Put(Grown(bytes, FileSize(n)), 0, HeaderBytes(nextId, n));
      && FileHolds(c, rowsPerPage, r, pages + EmptyPages(n - |pages|))
      && ReadHeader(r) == (nextId, n)
  {
    hide SlotHolds, ReadHeader, HeaderBytes;
    var grown := Grown(bytes, FileSize(n));
    var r := Put(grown, 0, HeaderBytes(nextId, n));
    var pages' := pages + EmptyPages(n - |pages|);
    HeaderRoundTrip(grown, nextId, n);
    forall p | 0 <= p < n ensures OwnRows(pages'[p], p, rowsPerPage) {
      if p < |pages| {
        assert pages'[p] == pages[p];
      }
    }
    forall p | 0 <= p < n ensures SlotHolds(c, Slot(r, p), pages'[p]) && c.Stores(pages'[p]) {
      PutKeeps(grown, 0, HeaderBytes(nextId, n), SlotAt(p), SlotAt(p + 1));
      if p < |pages| {
        assert Slot(r, p) == Slot(bytes, p);
      } else {
        forall i | SlotAt(p) <= i < SlotAt(p + 1) ensures grown[i] == 0 {
        }
        EmptySlot(c, Slot(r, p));
      }
    }
  }

  lemma EmptySlot(c: PageCodec, slot: seq<byte>)
    requires |slot| == SLOT_BYTES && forall i :: 0 <= i < |slot| ==> slot[i] == 0
    ensures SlotHolds(c, slot, map[])
  {
  }

  lemma NewFile(c: PageCodec, rowsPerPage: nat)
    requires rowsPerPage >= 1
    ensures FileHolds(c, rowsPerPage, Zeros(FileSize(0)), [])
    ensures ReadHeader(Zeros(FileSize(0))) == (0, 0)
  {
    var z := Zeros(FileSize(0));
    FromLittleEndianZeros(z[..8]);
    FromLittleEndianZeros(z[8..12]);
  }
}

/** For any list of rows there is a page serializer that can read what it writes of them. */
module PageCodecs {
  import opened Types
  import opened Bytes
  import opened PageFile

  // ---- Writing: per id a 0, or a 1 followed by the place of the row in the list and its version.

  function PlaceIn(rows: seq<seq<Value>>, values: seq<Value>): (i: nat)
    requires values in rows
    ensures i < |rows| && rows[i] == values
  {
    if rows[0] == values then 0 else 1 + PlaceIn(rows[1..], values)
  }

  function Repeat(b: byte, n: nat): seq<byte> {
    if n == 0 then [] else Repeat(b, n - 1) + [b]
  }

  predicate Listed(rows: seq<seq<Value>>, body: Body) {
    forall id :: id in body ==> body[id].values in rows
  }

  function Cell(rows: seq<seq<Value>>, body: Body, id: RowId): seq<byte>
    requires Listed(rows, body)
  {
    if id !in body then [0]
    else [1] + Repeat(2, PlaceIn(rows, body[id].values)) + Repeat(3, body[id].version)
  }

  function Cells(rows: seq<seq<Value>>, body: Body, n: nat): seq<byte>
    requires Listed(rows, body)
  {
    if n == 0 then [] else Cells(rows, body, n - 1) + Cell(rows, body, n - 1)
  }

  ghost function Bound(ids: set<RowId>): (n: nat)
    ensures forall id :: id in ids ==> id < n
    ensures n > 0 ==> n - 1 in ids
  {
    if ids == {} then 0
    else
      var id :| id in ids;
      var rest := Bound(ids - {id});
      assert ids == (ids - {id}) + {id};
      if id < rest then rest else id + 1
  }

  // ---- Reading: each byte moves the state on.

  datatype Reading = Reading(cells: map<RowId, (nat, nat)>, next: RowId)

  function ReadByte(r: Reading, b: byte): Reading {
    if b == 0 then r.(next := r.next + 1)
    else if b == 1 then Reading(r.cells[r.next := (0, 0)], r.next + 1)
    else if r.next == 0 || r.next - 1 !in r.cells then r
    else
      var (place, version) := r.cells[r.next - 1];
      r.(cells := r.cells[r.next - 1 := if b == 2 then (place + 1, version) else (place, version + 1)])
  }

  function Read(s: seq<byte>): Reading {
    if s == [] then Reading(map[], 0) else ReadByte(Read(s[..|s| - 1]), s[|s| - 1])
  }

  lemma ReadSnoc(s: seq<byte>, b: byte)
    ensures Read(s + [b]) == ReadByte(Read(s), b)
  {
    assert (s + [b])[..|s|] == s;
  }

  function Counted(c: (nat, nat), b: byte, k: nat): (nat, nat) {
    if b == 2 then (c.0 + k, c.1) else (c.0, c.1 + k)
  }

  lemma ReadCount(cells: map<RowId, (nat, nat)>, id: RowId, c: (nat, nat), b: byte)
    requires 2 <= b <= 3
    ensures ReadByte(Reading(cells[id := c], id + 1), b) == Reading(cells[id := Counted(c, b, 1)], id + 1)
  {
    assert cells[id := c][id := Counted(c, b, 1)] == cells[id := Counted(c, b, 1)];
  }

  lemma {:induction false} ReadRepeat(
      s: seq<byte>, cells: map<RowId, (nat, nat)>, id: RowId, c: (nat, nat), b: byte, k: nat)
    requires Read(s) == Reading(cells[id := c], id + 1) && 2 <= b <= 3
    ensures Read(s + Repeat(b, k)) == Reading(cells[id := Counted(c, b, k)], id + 1)
  {
    hide Read, ReadByte;
    if k == 0 {
      assert s + [] == s;
    } else {
      ReadRepeat(s, cells, id, c, b, k - 1);
      assert s + Repeat(b, k) == s + Repeat(b, k - 1) + [b];
      ReadSnoc(s + Repeat(b, k - 1), b);
      ReadCount(cells, id, Counted(c, b, k - 1), b);
    }
  }

  function Below(rows: seq<seq<Value>>, body: Body, n: nat): map<RowId, (nat, nat)>
    requires Listed(rows, body)
  {
    map id | id in body && id < n :: (PlaceIn(rows, body[id].values), body[id].version)
  }

  lemma ReadCell(s: seq<byte>, before: map<RowId, (nat, nat)>, id: RowId, place: nat, version: nat)
    requires Read(s) == Reading(before, id)
    ensures Read(s + ([1] + Repeat(2, place) + Repeat(3, version))) == Reading(before[id := (place, version)], id + 1)
  {
    hide Read, Repeat;
    ReadSnoc(s, 1);
    ReadRepeat(s + [1], before, id, (0, 0), 2, place);
    ReadRepeat(s + [1] + Repeat(2, place), before, id, (place, 0), 3, version);
    assert s + ([1] + Repeat(2, place) + Repeat(3, version)) == s + [1] + Repeat(2, place) + Repeat(3, version);
  }

  lemma {:induction false} ReadCells(rows: seq<seq<Value>>, body: Body, n: nat)
    requires Listed(rows, body)
    ensures Read(Cells(rows, body, n)) == Reading(Below(rows, body, n), n)
  {
    hide PlaceIn, Repeat, Read, ReadByte;
    if n == 0 {
      ReadNothing();
    } else {
      ReadCells(rows, body, n - 1);
      var s, id, before := Cells(rows, body, n - 1), n - 1, Below(rows, body, n - 1);
      if id in body {
        ReadCell(s, before, id, PlaceIn(rows, body[id].values), body[id].version);
        assert Below(rows, body, n) == before[id := (PlaceIn(rows, body[id].values), body[id].version)];
      } else {
        ReadSnoc(s, 0);
        ReadAbsent(before, id);
        assert Below(rows, body, n) == before;
      }
    }
  }

  lemma ReadNothing()
    ensures Read([]) == Reading(map[], 0)
  {
  }

  lemma ReadAbsent(cells: map<RowId, (nat, nat)>, id: RowId)
    ensures ReadByte(Reading(cells, id), 0) == Reading(cells, id + 1)
  {
  }

  function BodyOf(rows: seq<seq<Value>>, cells: map<RowId, (nat, nat)>): Body {
    map id | id in cells && cells[id].0 < |rows| :: Row(rows[cells[id].0], cells[id].1)
  }

  ghost function CodecFor(rows: seq<seq<Value>>): PageCodec {
    PageCodec(body => if Listed(rows, body) then [0] + Cells(rows, body, Bound(body.Keys)) else [],
              s => if s == [] then None else Some(BodyOf(rows, Read(s[1..]).cells)),
              iset values | values in rows)
  }

  /** Every list of rows has its serializer. */
  lemma CodecInverts(rows: seq<seq<Value>>)
    ensures CodecFor(rows).Invertible() && CodecFor(rows).storable == iset values | values in rows
  {
    hide Read, Cells, Bound, PlaceIn;
    var c := CodecFor(rows);
    forall body | c.Stores(body) ensures c.decode(c.encode(body)) == Some(body) && c.encode(body) != [] {
      assert Listed(rows, body);
      var n := Bound(body.Keys);
      ReadCells(rows, body, n);
      assert ([0] + Cells(rows, body, n))[1..] == Cells(rows, body, n);
      assert BodyOf(rows, Below(rows, body, n)) == body;
    }
  }

  /** One row, which fits its slot. */
  lemma SmallBodyFits(values: seq<Value>)
    ensures Fits(CodecFor([values]), map[1 := Row(values, 1)])
  {
    var body: Body := map[1 := Row(values, 1)];
    assert body.Keys == {1} && Bound({1}) == 2;
    assert Cell([values], body, 1) == [1] + [] + ([] + [3]);
    assert |Cells([values], body, 2)| == |Cells([values], body, 0)| + 1 + 2;
  }

  /** A page file that holds a row: what opening a paged table asks for is not out of reach. */
  lemma SomePageFile(values: seq<Value>) returns (bytes: seq<byte>, pages: seq<Body>)
    ensures CodecFor([values]).Invertible() && values in CodecFor([values]).storable
    ensures FileHolds(CodecFor([values]), 1, bytes, pages) && ReadHeader(bytes) == (2, 1)
    ensures pages == [map[1 := Row(values, 1)]]
  {
    hide ReadHeader, SlotHolds, Fits, PageCodec.Invertible, Put, Grown, HeaderBytes, WithPage;
    var c, body: Body := CodecFor([values]), map[1 := Row(values, 1)];
    CodecInverts([values]);
    SmallBodyFits(values);
    NewFile(c, 1);
    GrownFile(c, 1, Zeros(FileSize(0)), [], 1, 2);
    var grown := Put(Grown(Zeros(FileSize(0)), FileSize(1)), 0, HeaderBytes(2, 1));
    var empty: seq<Body> := [] + EmptyPages(1);
    StoredPage(c, 1, grown, empty, 0, body);
    bytes, pages := WithPage(grown, 0, c.encode(body)), empty[0 := body];
    HeaderPart(bytes, grown);
  }
}

/** A table scan: all rows in id order. */
module Scans {
  import opened Types
  import opened Tables
  import opened Index
  import opened Sorting

  function RowVals(rows: map<RowId, Row>): RowValues {
    map id | id in rows :: rows[id].values
  }

  function ScanUpTo(rows: map<RowId, Row>, n: nat): seq<(RowId, Row)> {
    if n == 0 then []
    else ScanUpTo(rows, n - 1) + if n - 1 in rows then [(n - 1, rows[n - 1])] else []
  }

  function Scan(t: Table): seq<(RowId, Row)> {
    ScanUpTo(t.rows, t.nextId)
  }

  lemma {:induction false} ScanUpToElements(rows: map<RowId, Row>, n: nat)
    ensures forall p :: p in ScanUpTo(rows, n) <==> p.0 < n && p.0 in rows && rows[p.0] == p.1
    ensures StrictlySorted(ScanUpTo(rows, n))
  {
    if n > 0 {
      ScanUpToElements(rows, n - 1);
      var init := ScanUpTo(rows, n - 1);
      forall i | 0 <= i < |init| ensures init[i].0 < n - 1 {
        assert init[i] in init;
      }
    }
  }

  function Below(rows: map<RowId, Row>, n: nat): RowValues {
    map id | id in rows && id < n :: rows[id].values
  }

  lemma ScanValuesSnoc(s: seq<(RowId, Row)>, id: RowId, row: Row)
    ensures ScanValues(s + [(id, row)]) == ScanValues(s)[id := row.values]
  {
    assert (s + [(id, row)])[..|s|] == s;
  }

  lemma {:induction false} ScanUpToValues(rows: map<RowId, Row>, n: nat)
    ensures ScanValues(ScanUpTo(rows, n)) == Below(rows, n)
  {
    hide ScanValues;
    if n == 0 {
      NoValues();
    } else {
      ScanUpToValues(rows, n - 1);
      if n - 1 in rows {
        ScanValuesSnoc(ScanUpTo(rows, n - 1), n - 1, rows[n - 1]);
        assert Below(rows, n) == Below(rows, n - 1)[n - 1 := rows[n - 1].values];
      } else {
        assert ScanUpTo(rows, n) == ScanUpTo(rows, n - 1);
      }
    }
  }

  lemma NoValues()
    ensures ScanValues([]) == map[]
  {
  }

  /** A scan lists exactly the stored rows, by increasing id. */
  lemma ScanIsComplete(t: Table)
    requires forall id :: id in t.rows ==> id < t.nextId
    ensures forall p :: p in Scan(t) <==> p.0 in t.rows && t.rows[p.0] == p.1
    ensures StrictlySorted(Scan(t))
    ensures ScanValues(Scan(t)) == RowVals(t.rows)
  {
    ScanUpToElements(t.rows, t.nextId);
    ScanUpToValues(t.rows, t.nextId);
  }

  /** Whatever order a hash map yields its entries in, sorting them by id is the scan. */
  lemma SortedEntriesAreScan(t: Table, entries: seq<(RowId, Row)>)
    requires forall id :: id in t.rows ==> id < t.nextId
    requires forall p :: p in entries <==> p.0 in t.rows && t.rows[p.0] == p.1
    requires DistinctKeys(entries, (p: (RowId, Row)) => p.0)
    ensures SortByKey(entries, (p: (RowId, Row)) => p.0) == Scan(t)
  {
    var key := (p: (RowId, Row)) => p.0;
    ScanIsComplete(t);
    SortOfPermutation(entries, Scan(t), key);
  }

  // ---- Collecting the entries of a hash map, in whatever order it yields them.

  ghost predicate Lists(entries: seq<(RowId, Row)>, rows: map<RowId, Row>) {
    && (forall p :: p in entries <==> p.0 in rows && rows[p.0] == p.1)
    && DistinctKeys(entries, (p: (RowId, Row)) => p.0)
  }

  lemma ListsNothing()
    ensures Lists([], map[])
  {
  }

  lemma ListsConcat(a: seq<(RowId, Row)>, ra: map<RowId, Row>, b: seq<(RowId, Row)>, rb: map<RowId, Row>)
    requires Lists(a, ra) && Lists(b, rb) && ra.Keys !! rb.Keys
    ensures Lists(a + b, ra + rb)
  {
    var key := (p: (RowId, Row)) => p.0;
    assert forall i :: 0 <= i < |a| ==> a[i] in a;
    assert forall i :: 0 <= i < |b| ==> b[i] in b;
    forall i, j | 0 <= i < j < |a + b| ensures key((a + b)[i]) != key((a + b)[j]) {
      if j < |a| {
        assert key(a[i]) != key(a[j]);
      } else if i >= |a| {
        assert key(b[i - |a|]) != key(b[j - |a|]);
      } else {
        assert a[i].0 in ra && b[j - |a|].0 in rb;
      }
    }
    forall p ensures p in a + b <==> p.0 in ra + rb && (ra + rb)[p.0] == p.1 {
    }
  }

  method EntriesOf(rows: map<RowId, Row>) returns (entries: seq<(RowId, Row)>)
    ensures Lists(entries, rows)
  {
    hide Lists;
    entries := [];
    var left := rows.Keys;
    ghost var done: map<RowId, Row> := map[];
    ListsNothing();
    while left != {}
      invariant left <= rows.Keys && done == rows - left
      invariant Lists(entries, done)
      decreases |left|
    {
      var id: RowId :| id in left;
      ListsOne(id, rows[id]);
      ListsConcat(entries, done, [(id, rows[id])], map[id := rows[id]]);
      entries := entries + [(id, rows[id])];
      left := left - {id};
      done := done + map[id := rows[id]];
      assert done == rows - left;
    }
    assert done == rows;
  }

  lemma ListsOne(id: RowId, row: Row)
    ensures Lists([(id, row)], map[id := row])
  {
  }

  /** Sorting the collected entries gives the scan. */
  lemma SortedListIsScan(t: Table, entries: seq<(RowId, Row)>)
    requires Lists(entries, t.rows) && forall id :: id in t.rows ==> id < t.nextId
    ensures SortByKey(entries, (p: (RowId, Row)) => p.0) == Scan(t)
  {
    SortedEntriesAreScan(t, entries);
  }
}

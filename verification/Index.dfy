/** Secondary indexes: ordered maps from keys to row ids, kept incrementally. */
module Index {
  import opened Types

  datatype ComparableValue =
    | CNull
    | CInt(n: int)
    | CFloat4(f4: real)   // no literal and no conversion yields a 32-bit float
    | CFloat8(f8: real)
    | CText(s: string)
    | CBool(b: bool)

  type Key = seq<ComparableValue>
  type Tree = map<Key, seq<RowId>>
  type Values = seq<Value>

  function Comparable(v: Value): ComparableValue {
    match v
    case Null => CNull
    case Int4(n) => CInt(n)
    case Int8(n) => CInt(n)
    case Float4(f) => CFloat4(f)
    case Float8(f) => CFloat8(f)
    case Text(s) => CText(s)
    case Bool(b) => CBool(b)
    case Timestamp(n) => CInt(n)
    case Json(j) => CText(j)
  }

  /** Values with the same key: equal ones, integers and timestamps by number, texts and JSON by their characters. */
  lemma ComparableExact(a: Value, b: Value)
    ensures Comparable(a) == Comparable(b) <==>
      || a == b
      || (Integral(a).Some? && Integral(a) == Integral(b))
      || (Characters(a).Some? && Characters(a) == Characters(b))
  {
  }

  function Integral(v: Value): Option<int> {
    match v
    case Int4(n) => Some(n)
    case Int8(n) => Some(n)
    case Timestamp(n) => Some(n)
    case _ => None
  }

  function Characters(v: Value): Option<string> {
    match v
    case Text(s) => Some(s)
    case Json(j) => Some(j)
    case _ => None
  }

  function LowerChar(c: char): char {
    if 'A' <= c <= 'Z' then (c as int + 32) as char else c
  }

  predicate EqIgnoreCase(a: string, b: string) {
    |a| == |b| && forall i :: 0 <= i < |a| ==> LowerChar(a[i]) == LowerChar(b[i])
  }

  /** Names are the same if they differ at most in the case of their letters. */
  lemma CaseIgnored(a: string, b: string)
    ensures EqIgnoreCase(a, b) <==>
      && |a| == |b|
      && forall i :: 0 <= i < |a| ==> a[i] == b[i] || OneLetter(a[i], b[i]) || OneLetter(b[i], a[i])
  {
  }

  /** A capital letter and the small one. */
  predicate OneLetter(c: char, d: char) {
    'A' <= c <= 'Z' && d as int == c as int - 'A' as int + 'a' as int
  }

  /** The first column of that name, ignoring ASCII case. */
  function Position(colNames: seq<string>, col: string): (r: Option<nat>)
    ensures r.Some? ==>
      && r.value < |colNames| && EqIgnoreCase(colNames[r.value], col)
      && forall i :: 0 <= i < r.value ==> !EqIgnoreCase(colNames[i], col)
    ensures r.None? ==> forall i :: 0 <= i < |colNames| ==> !EqIgnoreCase(colNames[i], col)
  {
    if colNames == [] then None
    else if EqIgnoreCase(colNames[0], col) then Some(0)
    else
      match Position(colNames[1..], col)
      case None => None
      case Some(i) => Some(i + 1)
  }

  lemma SamePosition(colNames: seq<string>, a: string, b: string)
    requires EqIgnoreCase(a, b)
    ensures Position(colNames, a) == Position(colNames, b)
  {
  }

  function CellAt(values: Values, i: nat): Value {
    if i < |values| then values[i] else Null
  }

  function KeyCell(col: string, colNames: seq<string>, values: Values): Value {
    CellAt(values, match Position(colNames, col) case Some(i) => i case None => 0)
  }

  function KeyValues(columns: seq<string>, colNames: seq<string>, values: Values): seq<Value> {
    seq(|columns|, i requires 0 <= i < |columns| => KeyCell(columns[i], colNames, values))
  }

  function ToKey(keyValues: seq<Value>): Key {
    seq(|keyValues|, i requires 0 <= i < |keyValues| => Comparable(keyValues[i]))
  }

  function KeyOf(columns: seq<string>, colNames: seq<string>, values: Values): Key {
    ToKey(KeyValues(columns, colNames, values))
  }

  // ---- The tree of one index.

  function Without(ids: seq<RowId>, id: RowId): (r: seq<RowId>)
    ensures forall x :: x in r <==> x in ids && x != id
  {
    if ids == [] then []
    else (if ids[0] == id then [] else [ids[0]]) + Without(ids[1..], id)
  }

  function TreeInsert(tree: Tree, unique: bool, key: Key, id: RowId): Result<Tree, Error> {
    if unique then
      if key in tree then Err(DuplicateKey) else Ok(tree[key := [id]])
    else
      Ok(tree[key := (if key in tree then tree[key] else []) + [id]])
  }

  function TreeRemove(tree: Tree, key: Key, id: RowId): Tree {
    if key !in tree then tree
    else
      var rest := Without(tree[key], id);
      if rest == [] then tree - {key} else tree[key := rest]
  }

  function TreeLookup(tree: Tree, key: Key): seq<RowId> {
    if key in tree then tree[key] else []
  }

  // ---- Agreement of a tree with the keys of the stored rows.

  type Keyed = map<RowId, Key>

  /** Every key maps to exactly the ids that have it, each listed once; one id per unique key. */
  ghost predicate TreeAgrees(tree: Tree, unique: bool, keys: Keyed) {
    && (forall k :: k in tree ==> tree[k] != [] && Distinct(tree[k]))
    && (forall k, id :: k in tree && id in tree[k] ==> id in keys && keys[id] == k)
    && (forall id :: id in keys ==> keys[id] in tree && id in tree[keys[id]])
    && (unique ==> forall k :: k in tree ==> |tree[k]| == 1)
  }

  ghost predicate KeysUnique(unique: bool, keys: Keyed) {
    unique ==> forall a, b :: a in keys && b in keys && a != b ==> keys[a] != keys[b]
  }

  lemma AgreesImpliesUnique(tree: Tree, unique: bool, keys: Keyed)
    requires TreeAgrees(tree, unique, keys)
    ensures KeysUnique(unique, keys)
  {
  }

  /** Adding a row succeeds exactly when the keys stay unique, and keeps the agreement. */
  lemma InsertAgrees(tree: Tree, unique: bool, keys: Keyed, key: Key, id: RowId)
    requires TreeAgrees(tree, unique, keys) && id !in keys
    ensures TreeInsert(tree, unique, key, id).Ok? <==> KeysUnique(unique, keys[id := key])
    ensures TreeInsert(tree, unique, key, id).Ok? ==>
      TreeAgrees(TreeInsert(tree, unique, key, id).value, unique, keys[id := key])
  {
    var keys' := keys[id := key];
    if unique && key in tree {
      var other := tree[key][0];
      assert other in tree[key] && keys[other] == key;
      assert other in keys' && id in keys' && keys'[other] == keys'[id];
      assert !KeysUnique(unique, keys');
    } else {
      var tree' := TreeInsert(tree, unique, key, id).value;
      forall k | k in tree'
        ensures tree'[k] != [] && Distinct(tree'[k]) && (unique ==> |tree'[k]| == 1)
      {
        assert key in tree ==> id !in tree[key];
      }
      forall k, x | k in tree' && x in tree'[k]
        ensures x in keys' && keys'[x] == k
      {
        if k != key || x != id { assert x in tree[k]; }
      }
      forall x | x in keys'
        ensures keys'[x] in tree' && x in tree'[keys'[x]]
      {
        if x != id { assert x in tree[keys[x]]; }
      }
      AgreesImpliesUnique(tree', unique, keys');
    }
  }

  lemma {:induction false} WithoutDistinct(ids: seq<RowId>, id: RowId)
    requires Distinct(ids)
    ensures Distinct(Without(ids, id)) && |Without(ids, id)| <= |ids|
  {
    if ids != [] {
      var head, rest := if ids[0] == id then [] else [ids[0]], Without(ids[1..], id);
      WithoutDistinct(ids[1..], id);
      assert ids[0] !in rest by {
        assert forall i :: 1 <= i < |ids| ==> ids[0] != ids[i];
        assert ids[0] !in ids[1..];
      }
      assert Without(ids, id) == head + rest;
      assert forall j :: 0 <= j < |rest| ==> rest[j] in rest;
    }
  }

  lemma RemoveAgrees(tree: Tree, unique: bool, keys: Keyed, id: RowId)
    requires TreeAgrees(tree, unique, keys) && id in keys
    ensures TreeAgrees(TreeRemove(tree, keys[id], id), unique, keys - {id})
  {
    var k, tree', keys' := keys[id], TreeRemove(tree, keys[id], id), keys - {id};
    WithoutDistinct(tree[k], id);
    forall j, x | j in tree' && x in tree'[j]
      ensures x in keys' && keys'[x] == j
    {
      assert x in tree[j] && x != id;
    }
    forall x | x in keys'
      ensures keys'[x] in tree' && x in tree'[keys'[x]]
    {
      assert x in tree[keys[x]];
    }
  }

  /** The index as a map from keys to sets of ids. */
  ghost function KeySets(tree: Tree): map<Key, set<RowId>> {
    map k | k in tree :: set id | id in tree[k]
  }

  /** Two trees that agree with the same rows hold the same ids under the same keys. */
  lemma AgreementUnique(a: Tree, b: Tree, unique: bool, keys: Keyed)
    requires TreeAgrees(a, unique, keys) && TreeAgrees(b, unique, keys)
    ensures KeySets(a) == KeySets(b)
    ensures unique ==> a == b
  {
    AgreementSubset(a, b, unique, keys);
    AgreementSubset(b, a, unique, keys);
    assert a.Keys == b.Keys;
    forall k | k in a
      ensures KeySets(a)[k] == KeySets(b)[k]
      ensures unique ==> a[k] == b[k]
    {
      var x := a[k][0];
      assert x in a[k] && x in b[k];
    }
    assert KeySets(a).Keys == a.Keys && KeySets(b).Keys == b.Keys;
  }

  lemma AgreementSubset(a: Tree, b: Tree, unique: bool, keys: Keyed)
    requires TreeAgrees(a, unique, keys) && TreeAgrees(b, unique, keys)
    ensures forall k :: k in a ==> k in b && forall id :: id in a[k] ==> id in b[k]
  {
    forall k | k in a
      ensures k in b && forall id :: id in a[k] ==> id in b[k]
    {
      var x := a[k][0];
      assert x in a[k] && keys[x] == k;
      forall id | id in a[k]
        ensures id in b[k]
      {
        assert keys[id] == k;
      }
    }
  }

  // ---- An index of a table.

  datatype BTreeIndex = BTreeIndex(name: string, columns: seq<string>, unique: bool, tree: Tree)

  type RowValues = map<RowId, Values>

  function KeysOf(columns: seq<string>, colNames: seq<string>, rows: RowValues): Keyed {
    map id | id in rows :: KeyOf(columns, colNames, rows[id])
  }

  ghost predicate Agrees(ix: BTreeIndex, colNames: seq<string>, rows: RowValues) {
    TreeAgrees(ix.tree, ix.unique, KeysOf(ix.columns, colNames, rows))
  }

  function WithRow(ix: BTreeIndex, colNames: seq<string>, values: Values, id: RowId): Result<BTreeIndex, Error> {
    match TreeInsert(ix.tree, ix.unique, KeyOf(ix.columns, colNames, values), id)
    case Ok(tree) => Ok(ix.(tree := tree))
    case Err(e) => Err(e)
  }

  function WithoutRow(ix: BTreeIndex, colNames: seq<string>, values: Values, id: RowId): BTreeIndex {
    ix.(tree := TreeRemove(ix.tree, KeyOf(ix.columns, colNames, values), id))
  }

  lemma WithRowAgrees(ix: BTreeIndex, colNames: seq<string>, rows: RowValues, values: Values, id: RowId)
    requires Agrees(ix, colNames, rows) && id !in rows
    ensures WithRow(ix, colNames, values, id).Ok?
      <==> KeysUnique(ix.unique, KeysOf(ix.columns, colNames, rows[id := values]))
    ensures WithRow(ix, colNames, values, id).Ok? ==>
      Agrees(WithRow(ix, colNames, values, id).value, colNames, rows[id := values])
  {
    hide KeyOf, TreeAgrees, KeysUnique, TreeInsert;
    var keys := KeysOf(ix.columns, colNames, rows);
    InsertAgrees(ix.tree, ix.unique, keys, KeyOf(ix.columns, colNames, values), id);
    assert KeysOf(ix.columns, colNames, rows[id := values]) == keys[id := KeyOf(ix.columns, colNames, values)];
  }

  lemma WithoutRowAgrees(ix: BTreeIndex, colNames: seq<string>, rows: RowValues, id: RowId)
    requires Agrees(ix, colNames, rows) && id in rows
    ensures Agrees(WithoutRow(ix, colNames, rows[id], id), colNames, rows - {id})
  {
    hide KeyOf, TreeAgrees, TreeRemove;
    var keys := KeysOf(ix.columns, colNames, rows);
    RemoveAgrees(ix.tree, ix.unique, keys, id);
    assert KeysOf(ix.columns, colNames, rows - {id}) == keys - {id};
  }

  // ---- Building an index from a scan.

  ghost predicate StrictlySorted(s: seq<(RowId, Row)>) {
    forall i, j :: 0 <= i < j < |s| ==> s[i].0 < s[j].0
  }

  function ScanValues(s: seq<(RowId, Row)>): (m: RowValues)
    ensures forall i :: 0 <= i < |s| ==> s[i].0 in m
    ensures forall id :: id in m ==> exists i :: 0 <= i < |s| && s[i].0 == id
  {
    if s == [] then map[]
    else
      var init := ScanValues(s[..|s| - 1]);
      assert forall id :: id in init ==> exists i :: 0 <= i < |s| && s[i].0 == id by {
        forall id | id in init ensures exists i :: 0 <= i < |s| && s[i].0 == id {
          var i :| 0 <= i < |s| - 1 && s[..|s| - 1][i].0 == id;
          assert s[i].0 == id;
        }
      }
      init[s[|s| - 1].0 := s[|s| - 1].1.values]
  }

  function Build(ix: BTreeIndex, colNames: seq<string>, s: seq<(RowId, Row)>): Result<BTreeIndex, Error> {
    if s == [] then Ok(ix)
    else
      match Build(ix, colNames, s[..|s| - 1])
      case Err(e) => Err(e)
      case Ok(mid) => WithRow(mid, colNames, s[|s| - 1].1.values, s[|s| - 1].0)
  }

  /** A build from scratch succeeds exactly when the keys are unique, and then agrees with the rows. */
  lemma {:induction false} BuildAgrees(ix: BTreeIndex, colNames: seq<string>, s: seq<(RowId, Row)>)
    requires ix.tree == map[] && StrictlySorted(s)
    ensures Build(ix, colNames, s).Ok? <==> KeysUnique(ix.unique, KeysOf(ix.columns, colNames, ScanValues(s)))
    ensures Build(ix, colNames, s).Ok? ==>
      && Agrees(Build(ix, colNames, s).value, colNames, ScanValues(s))
      && Build(ix, colNames, s).value.(tree := map[]) == ix
  {
    hide KeyOf, Agrees, WithRow, KeysUnique;
    if s == [] {
      EmptyAgrees(ix, colNames);
    } else {
      var init, last := s[..|s| - 1], s[|s| - 1];
      BuildAgrees(ix, colNames, init);
      assert forall i :: 0 <= i < |init| ==> init[i].0 == s[i].0 < last.0;
      assert last.0 !in ScanValues(init);
      BuildStep(ix, colNames, Build(ix, colNames, init), ScanValues(init), last.1.values, last.0);
    }
  }

  // One more scanned row, on top of a partial build `mid` of the rows before it.
  lemma BuildStep(ix: BTreeIndex, colNames: seq<string>, mid: Result<BTreeIndex, Error>, rows: RowValues,
                  values: Values, id: RowId)
    requires id !in rows
    requires mid.Ok? <==> KeysUnique(ix.unique, KeysOf(ix.columns, colNames, rows))
    requires mid.Ok? ==> Agrees(mid.value, colNames, rows) && mid.value.(tree := map[]) == ix
    ensures mid.Ok? && WithRow(mid.value, colNames, values, id).Ok?
      <==> KeysUnique(ix.unique, KeysOf(ix.columns, colNames, rows[id := values]))
    ensures mid.Ok? && WithRow(mid.value, colNames, values, id).Ok? ==>
      && Agrees(WithRow(mid.value, colNames, values, id).value, colNames, rows[id := values])
      && WithRow(mid.value, colNames, values, id).value.(tree := map[]) == ix
  {
    hide KeyOf, Agrees, KeysUnique;
    if mid.Ok? {
      WithRowAgrees(mid.value, colNames, rows, values, id);
    } else if KeysUnique(ix.unique, KeysOf(ix.columns, colNames, rows[id := values])) {
      FewerKeysUnique(ix.unique, KeysOf(ix.columns, colNames, rows), KeysOf(ix.columns, colNames, rows[id := values]));
    }
  }

  lemma FewerKeysUnique(unique: bool, keys: Keyed, more: Keyed)
    requires KeysUnique(unique, more)
    requires forall a :: a in keys ==> a in more && more[a] == keys[a]
    ensures KeysUnique(unique, keys)
  {
  }

  lemma EmptyAgrees(ix: BTreeIndex, colNames: seq<string>)
    requires ix.tree == map[]
    ensures Agrees(ix, colNames, map[])
    ensures KeysUnique(ix.unique, KeysOf(ix.columns, colNames, map[]))
  {
  }
}

/** Row versions under concurrency: a version-checked update replaces exactly the row it has read. */
module Versions {
  import opened Types
  import opened Tables

  type SessionId = nat
  type Names = map<(RowId, nat), seq<Value>>

  /** The undo record of a DELETE.  `matched` says that it removed the version its scan had read. */
  datatype Deletion = Deletion(id: RowId, oldRow: Row, matched: bool)

  /**
   One table shared by all sessions.  `read` is what each session's last scan or lookup returned;
   `deletes` are the undo records of deletions; `named` records every row that was ever stored, by
   id and version.
   */
  datatype State = State(
    table: Table,
    read: map<SessionId, map<RowId, Row>>,
    deletes: map<nat, Deletion>,
    named: Names)

  const START: State := State(EMPTY_TABLE, map[], map[], map[])

  datatype Action =
    | Read(s: SessionId)
    | Insert(values: seq<Value>)
    | Update(s: SessionId, id: RowId, values: seq<Value>)   // of UPDATE and of ON CONFLICT DO UPDATE
    | Delete(k: nat, s: SessionId, id: RowId)   // keeps the row its scan returned as undo record `k`
    | UndoInsert(id: RowId)
    | UndoUpdate(id: RowId, oldRow: Row)
    | UndoDelete(k: nat)

  predicate Enabled(st: State, a: Action) {
    && (a.Update? || a.Delete? ==> a.s in st.read && a.id in st.read[a.s])
    && (a.Delete? ==> a.k !in st.deletes)
    && (a.UndoDelete? ==> a.k in st.deletes)
  }

  /** The version check: the row is there, in the version that was read. */
  predicate Succeeds(st: State, a: Action)
    requires Enabled(st, a)
  {
    a.Update? && a.id in st.table.rows && st.table.rows[a.id].version == st.read[a.s][a.id].version
  }

  function Stores(st: State, t: Table, id: RowId): State {
    if id in t.rows then st.(table := t, named := st.named[(id, t.rows[id].version) := t.rows[id].values])
    else st.(table := t)
  }

  function Next(st: State, a: Action): State
    requires Enabled(st, a)
  {
    match a
    case Read(s) => st.(read := st.read[s := st.table.rows])
    case Insert(values) => Stores(st, InsertNew(st.table, NewRow(values)), st.table.nextId)
    case Update(s, id, values) =>
      if Succeeds(st, a)
      then Stores(st, st.table.(rows := st.table.rows[id := Row(values, st.read[s][id].version + 1)]), id)
      else st
    case Delete(k, s, id) =>
      st.(table := DeleteAt(st.table, id), deletes := st.deletes[k := DeletionOf(st, s, id)])
    case UndoInsert(id) => st.(table := DeleteAt(st.table, id))
    case UndoUpdate(id, oldRow) => if id in st.table.rows then Stores(st, UpdateAt(st.table, id, oldRow), id) else st
    case UndoDelete(k) =>
      var d := st.deletes[k];
      PutBack(st, d.id, d.oldRow).(deletes := st.deletes - {k})
  }

  /** No version is checked, and the undo record is kept even if the row is gone. */
  function DeletionOf(st: State, s: SessionId, id: RowId): Deletion
    requires s in st.read && id in st.read[s]
  {
    var oldRow := st.read[s][id];
    Deletion(id, oldRow, id in st.table.rows && st.table.rows[id].version == oldRow.version)
  }

  function PutBack(st: State, id: RowId, oldRow: Row): State {
    Stores(st, InsertAt(st.table, id, oldRow), id)
  }

  function Interleaved(actions: seq<Action>): Option<State> {
    if actions == [] then Some(START)
    else
      var a := actions[|actions| - 1];
      match Interleaved(actions[..|actions| - 1])
      case None => None
      case Some(mid) => if Enabled(mid, a) then Some(Next(mid, a)) else None
  }

  // ---- The invariant.

  ghost predicate Named(named: Names, id: RowId, row: Row) {
    (id, row.version) in named && named[(id, row.version)] == row.values
  }

  ghost predicate VersionInv(st: State) {
    && (forall id :: id in st.table.rows ==> id < st.table.nextId && Named(st.named, id, st.table.rows[id]))
    && (forall n :: n in st.named ==>
          n.0 < st.table.nextId && (n.0 in st.table.rows ==> n.1 <= st.table.rows[n.0].version))
    && (forall s, id :: s in st.read && id in st.read[s] ==> Named(st.named, id, st.read[s][id]))
  }

  /**
   Exactly when a rolled-back DELETE is harmless: no later version of the row was ever stored.
   */
  lemma PutBackExact(st: State, id: RowId, oldRow: Row)
    requires VersionInv(st) && Named(st.named, id, oldRow)
    ensures VersionInv(PutBack(st, id, oldRow)) <==> forall n :: n in st.named && n.0 == id ==> n.1 <= oldRow.version
    ensures PutBack(st, id, oldRow).named == st.named
  {
    var st' := PutBack(st, id, oldRow);
    assert st'.named == st.named;
    assert st'.table.rows == st.table.rows[id := oldRow];
    forall x | x in st'.table.rows ensures x < st'.table.nextId && Named(st'.named, x, st'.table.rows[x]) {
      if x != id {
        assert x in st.table.rows;
      }
    }
  }

  /** What the undo record of a matched deletion keeps until it is used: no other row takes its place. */
  ghost predicate PendingInv(st: State) {
    && (forall k :: Matched(st, k) ==> Latest(st, st.deletes[k]))
    && (forall j, k :: Matched(st, j) && Matched(st, k) && j != k ==> st.deletes[j].id != st.deletes[k].id)
  }

  predicate Matched(st: State, k: nat) {
    k in st.deletes && st.deletes[k].matched
  }

  ghost predicate Latest(st: State, d: Deletion) {
    && d.id !in st.table.rows && Named(st.named, d.id, d.oldRow)
    && forall n :: n in st.named && n.0 == d.id ==> n.1 <= d.oldRow.version
  }

  /** A rollback of a DELETE takes place only if the DELETE removed the version its scan had read. */
  predicate Careful(st: State, a: Action)
    requires Enabled(st, a)
  {
    a.UndoDelete? ==> st.deletes[a.k].matched
  }

  /** Names are only added: no pair is ever given to another row. */
  ghost predicate NamesGrow(a: Names, b: Names) {
    forall n :: n in a ==> n in b && b[n] == a[n]
  }

  // A row stored under a new id, or in the version after the current one, gets a fresh name.
  lemma StoreKeepsVersions(st: State, t: Table, id: RowId, row: Row)
    requires VersionInv(st)
    requires t.rows == st.table.rows[id := row] && t.nextId >= st.table.nextId && id < t.nextId
    requires if id in st.table.rows then row.version == st.table.rows[id].version + 1 else id >= st.table.nextId
    ensures (id, row.version) !in st.named
    ensures VersionInv(Stores(st, t, id)) && NamesGrow(st.named, Stores(st, t, id).named)
  {
    var st' := Stores(st, t, id);
    assert st'.named == st.named[(id, row.version) := row.values];
    forall x | x in st'.table.rows
      ensures x < st'.table.nextId && Named(st'.named, x, st'.table.rows[x])
    {
      if x != id {
        assert Named(st.named, x, st.table.rows[x]);
      }
    }
    forall s, x | s in st'.read && x in st'.read[s]
      ensures Named(st'.named, x, st'.read[s][x])
    {
      assert Named(st.named, x, st.read[s][x]);
    }
  }

  // Pending deletions are of ids that are not stored, so a row stored elsewhere does not touch them.
  lemma StoreKeepsPending(st: State, t: Table, id: RowId)
    requires VersionInv(st) && PendingInv(st) && id in t.rows
    requires t.rows == st.table.rows[id := t.rows[id]]
    requires id in st.table.rows || id >= st.table.nextId
    ensures PendingInv(Stores(st, t, id))
  {
    var st' := Stores(st, t, id);
    forall k | Matched(st', k) ensures Latest(st', st'.deletes[k]) {
      assert Latest(st, st.deletes[k]);
      assert st.deletes[k].id != id;
    }
  }

  lemma RemovalKeepsPending(st: State, id: RowId)
    requires PendingInv(st)
    ensures PendingInv(st.(table := DeleteAt(st.table, id)))
  {
    hide Named;
    var st' := st.(table := DeleteAt(st.table, id));
    forall k | Matched(st', k) ensures Latest(st', st'.deletes[k]) {
      assert Matched(st, k) && Latest(st, st.deletes[k]);
    }
    assert forall k :: Matched(st', k) ==> Matched(st, k);
  }

  lemma DeletionKeepsPending(st: State, k: nat, s: SessionId, id: RowId)
    requires VersionInv(st) && PendingInv(st) && Enabled(st, Delete(k, s, id))
    ensures PendingInv(Next(st, Delete(k, s, id)))
  {
    var st' := Next(st, Delete(k, s, id));
    forall j | Matched(st', j) ensures Latest(st', st'.deletes[j]) {
      if j != k {
        assert Matched(st, j) && Latest(st, st.deletes[j]);
      } else {
        assert Named(st.named, id, st.read[s][id]);
      }
    }
    forall i, j | Matched(st', i) && Matched(st', j) && i != j ensures st'.deletes[i].id != st'.deletes[j].id {
      assert i != k ==> Matched(st, i) && Latest(st, st.deletes[i]);
      assert j != k ==> Matched(st, j) && Latest(st, st.deletes[j]);
    }
  }

  lemma PutBackKeepsPending(st: State, k: nat)
    requires VersionInv(st) && PendingInv(st) && Matched(st, k)
    ensures PendingInv(Next(st, UndoDelete(k)))
  {
    hide Named;
    var st' := Next(st, UndoDelete(k));
    MatchedIsLatest(st, k);
    PutBackExact(st, st.deletes[k].id, st.deletes[k].oldRow);
    forall j | Matched(st', j) ensures Latest(st', st'.deletes[j]) {
      assert Matched(st, j) && Latest(st, st.deletes[j]);
    }
    assert forall j :: Matched(st', j) ==> Matched(st, j);
  }

  lemma StepKeepsPending(st: State, a: Action)
    requires VersionInv(st) && PendingInv(st) && Enabled(st, a) && Careful(st, a)
    ensures PendingInv(Next(st, a))
  {
    hide PendingInv, Stores, Named, DeletionOf, PutBack;
    match a {
      case Insert(values) => StoreKeepsPending(st, InsertNew(st.table, NewRow(values)), st.table.nextId);
      case Update(s, id, values) =>
        if Succeeds(st, a) {
          StoreKeepsPending(st, st.table.(rows := st.table.rows[id := Row(values, st.read[s][id].version + 1)]), id);
        }
      case UndoUpdate(id, oldRow) =>
        if id in st.table.rows {
          StoreKeepsPending(st, UpdateAt(st.table, id, oldRow), id);
        }
      case Delete(k, s, id) => DeletionKeepsPending(st, k, s, id);
      case UndoInsert(id) => RemovalKeepsPending(st, id);
      case UndoDelete(k) => PutBackKeepsPending(st, k);
      case Read(s) => ReadKeepsPending(st, s);
    }
  }

  lemma ReadKeepsPending(st: State, s: SessionId)
    requires PendingInv(st)
    ensures PendingInv(Next(st, Read(s)))
  {
    hide Named;
    var st' := Next(st, Read(s));
    forall k | Matched(st', k) ensures Latest(st', st'.deletes[k]) {
      assert Matched(st, k) && Latest(st, st.deletes[k]);
    }
    assert forall k :: Matched(st', k) ==> Matched(st, k);
  }

  lemma StepKeepsVersions(st: State, a: Action)
    requires VersionInv(st) && PendingInv(st) && Enabled(st, a) && Careful(st, a)
    ensures VersionInv(Next(st, a)) && NamesGrow(st.named, Next(st, a).named)
  {
    hide Stores, Named, PendingInv;
    match a {
      case Insert(values) =>
        StoreKeepsVersions(st, InsertNew(st.table, NewRow(values)), st.table.nextId, NewRow(values));
      case Update(s, id, values) =>
        if Succeeds(st, a) {
          var row := Row(values, st.read[s][id].version + 1);
          StoreKeepsVersions(st, st.table.(rows := st.table.rows[id := row]), id, row);
        }
      case UndoUpdate(id, oldRow) =>
        if id in st.table.rows {
          StoreKeepsVersions(st, UpdateAt(st.table, id, oldRow), id,
                             Row(oldRow.values, st.table.rows[id].version + 1));
        }
      case UndoDelete(k) =>
        MatchedIsLatest(st, k);
        PutBackExact(st, st.deletes[k].id, st.deletes[k].oldRow);
      case Read(s) =>
      case Delete(_, _, _) =>
      case UndoInsert(_) =>
    }
  }

  lemma MatchedIsLatest(st: State, k: nat)
    requires PendingInv(st) && Matched(st, k)
    ensures Latest(st, st.deletes[k])
  {
  }

  /** Every rolled-back DELETE of the run had removed the version its scan had read. */
  ghost predicate CarefulRun(actions: seq<Action>) {
    actions != [] ==>
      && CarefulRun(actions[..|actions| - 1])
      && var mid := Interleaved(actions[..|actions| - 1]);
         mid.Some? && Enabled(mid.value, actions[|actions| - 1]) && Careful(mid.value, actions[|actions| - 1])
  }

  lemma {:induction false} EveryStateVersioned(actions: seq<Action>)
    requires CarefulRun(actions)
    ensures Interleaved(actions).Some?
    ensures VersionInv(Interleaved(actions).value) && PendingInv(Interleaved(actions).value)
  {
    hide Next, VersionInv, PendingInv, Enabled, Careful;
    if actions == [] {
      StartVersioned();
    } else {
      var mid := Interleaved(actions[..|actions| - 1]).value;
      EveryStateVersioned(actions[..|actions| - 1]);
      StepKeepsVersions(mid, actions[|actions| - 1]);
      StepKeepsPending(mid, actions[|actions| - 1]);
    }
  }

  lemma StartVersioned()
    ensures VersionInv(START) && PendingInv(START)
  {
  }

  lemma PrefixCareful(actions: seq<Action>, i: nat)
    requires CarefulRun(actions) && i <= |actions|
    ensures CarefulRun(actions[..i])
    decreases |actions|
  {
    if i == |actions| {
      assert actions[..i] == actions;
    } else {
      PrefixCareful(actions[..|actions| - 1], i);
      assert actions[..|actions| - 1][..i] == actions[..i];
    }
  }

  /** What a pair named once, it names for the rest of the run. */
  lemma {:induction false} NamesLast(actions: seq<Action>, i: nat)
    requires CarefulRun(actions) && i <= |actions|
    ensures Interleaved(actions[..i]).Some? && Interleaved(actions).Some?
    ensures NamesGrow(Interleaved(actions[..i]).value.named, Interleaved(actions).value.named)
    decreases |actions|
  {
    hide Next, VersionInv, PendingInv, Enabled, Careful;
    EveryStateVersioned(actions);
    if i == |actions| {
      assert actions[..i] == actions;
    } else {
      var init := actions[..|actions| - 1];
      NamesLast(init, i);
      assert init[..i] == actions[..i];
      EveryStateVersioned(init);
      StepKeepsVersions(Interleaved(init).value, actions[|actions| - 1]);
    }
  }

  // ---- No lost updates.

  /** A successful update replaces exactly the row that was read, whatever happened in between. */
  lemma UpdateReplacesWhatWasRead(actions: seq<Action>, a: Action)
    requires CarefulRun(actions)
    ensures Interleaved(actions).Some?
    ensures var st := Interleaved(actions).value;
      Enabled(st, a) && Succeeds(st, a) ==>
      && st.table.rows[a.id] == st.read[a.s][a.id]
      && Next(st, a).table.rows == st.table.rows[a.id := Row(a.values, st.read[a.s][a.id].version + 1)]
  {
    EveryStateVersioned(actions);
  }

  /** Event `i` of the run is a successful update of that id in that version. */
  ghost predicate Wins(actions: seq<Action>, i: nat, id: RowId, version: nat)
    requires i < |actions|
  {
    var before := Interleaved(actions[..i]);
    && before.Some? && Enabled(before.value, actions[i]) && Succeeds(before.value, actions[i])
    && actions[i].id == id && before.value.read[actions[i].s][id].version == version
  }

  /** Of all updates that read the same version of a row, at most one succeeds. */
  lemma AtMostOneWinner(actions: seq<Action>, i: nat, j: nat, id: RowId, version: nat)
    requires CarefulRun(actions) && i < j < |actions|
    requires Wins(actions, i, id, version)
    ensures !Wins(actions, j, id, version)
  {
    PrefixCareful(actions, j);
    PrefixCareful(actions, i + 1);
    NamesLast(actions[..j], i + 1);
    assert actions[..j][..i + 1] == actions[..i + 1];
    assert actions[..i + 1][..i] == actions[..i];
    var after, before := Interleaved(actions[..i + 1]).value, Interleaved(actions[..j]).value;
    assert (id, version + 1) in after.named;
    EveryStateVersioned(actions[..j]);
    assert (id, version + 1) in before.named;
  }

  /** Undo takes an inserted row away, and gives an updated one its old values under a version never used. */
  lemma UndoStores(st: State, id: RowId, oldRow: Row)
    requires VersionInv(st)
    ensures Next(st, UndoInsert(id)).table.rows == st.table.rows - {id}
    ensures id in st.table.rows ==>
      var rows := Next(st, UndoUpdate(id, oldRow)).table.rows;
      && id in rows && rows == st.table.rows[id := rows[id]]
      && rows[id].values == oldRow.values && rows[id].version > st.table.rows[id].version
      && (id, rows[id].version) !in st.named
  {
    if id in st.table.rows {
      assert forall n :: n in st.named && n.0 == id ==> n.1 <= st.table.rows[id].version;
    }
  }

  // ---- A rolled-back DELETE whose scan was stale.

  lemma OneMore(actions: seq<Action>, st: State, a: Action, st': State, actions': seq<Action>)
    requires Interleaved(actions) == Some(st) && Enabled(st, a) && Next(st, a) == st'
    requires actions' == actions + [a]
    ensures Interleaved(actions') == Some(st')
  {
    hide Next;
    assert actions'[..|actions|] == actions;
  }

  /** Sessions 0 and 1 read row 1; session 1 updates it, and session 0 deletes it and rolls back. */
  function StaleDelete(a: seq<Value>, b: seq<Value>): seq<Action> {
    [Insert(a), Read(0), Read(1), Update(1, 1, b), Delete(0, 0, 1), UndoDelete(0), Read(2)]
  }

  /** The states on the way, after the insertion. */
  function States(a: seq<Value>, b: seq<Value>): seq<State> {
    var first, second: map<RowId, Row> := map[1 := Row(a, 1)], map[1 := Row(b, 2)];
    var names: Names := map[(1, 1) := a, (1, 2) := b];
    [State(Table(first, 2), map[], map[], map[(1, 1) := a]),
     State(Table(first, 2), map[0 := first], map[], map[(1, 1) := a]),
     State(Table(first, 2), map[0 := first, 1 := first], map[], map[(1, 1) := a]),
     State(Table(second, 2), map[0 := first, 1 := first], map[], names),
     State(Table(map[], 2), map[0 := first, 1 := first], map[0 := Deletion(1, Row(a, 1), false)], names),
     State(Table(first, 2), map[0 := first, 1 := first], map[], names),
     State(Table(first, 2), map[0 := first, 1 := first, 2 := first], map[], names)]
  }

  lemma StaleSteps(a: seq<Value>, b: seq<Value>)
    ensures Next(START, Insert(a)) == States(a, b)[0]
    ensures forall i :: 0 <= i < 6 ==>
      Enabled(States(a, b)[i], StaleDelete(a, b)[i + 1])
      && Next(States(a, b)[i], StaleDelete(a, b)[i + 1]) == States(a, b)[i + 1]
  {
    var s, e := States(a, b), StaleDelete(a, b);
    assert Next(s[0], e[1]) == s[1];
    assert Next(s[1], e[2]) == s[2];
    assert Next(s[2], e[3]) == s[3];
    assert Next(s[3], e[4]) == s[4];
    assert Next(s[4], e[5]) == s[5];
    assert Next(s[5], e[6]) == s[6];
  }

  lemma {:induction false} StaleRun(a: seq<Value>, b: seq<Value>, i: nat)
    requires 1 <= i <= 7
    ensures Interleaved(StaleDelete(a, b)[..i]) == Some(States(a, b)[i - 1])
  {
    hide Next, Enabled, Interleaved;
    var s, e := States(a, b), StaleDelete(a, b);
    StaleSteps(a, b);
    if i == 1 {
      Started();
      OneMore([], START, Insert(a), s[0], e[..1]);
    } else {
      StaleRun(a, b, i - 1);
      OneMore(e[..i - 1], s[i - 2], e[i - 1], s[i - 1], e[..i]);
    }
  }

  lemma Started()
    ensures Interleaved([]) == Some(START) && forall a: seq<Value> :: Enabled(START, Insert(a))
  {
  }

  /**
   A DELETE that scanned before another session's UPDATE and is rolled back after it brings the old
   version back: the next update gives the pair of id and version to a different row.
   */
  lemma RolledBackDeleteReusesVersions(a: seq<Value>, b: seq<Value>, c: seq<Value>)
    requires b != c
    ensures Interleaved(StaleDelete(a, b)).Some?
    ensures var st := Interleaved(StaleDelete(a, b)).value;
      && (1, 2) in st.named && st.named[(1, 2)] == b
      && Enabled(st, Update(2, 1, c)) && Succeeds(st, Update(2, 1, c))
      && Next(st, Update(2, 1, c)).named[(1, 2)] == c
      && !NamesGrow(st.named, Next(st, Update(2, 1, c)).named)
  {
    StaleRun(a, b, 7);
    assert StaleDelete(a, b)[..7] == StaleDelete(a, b);
    assert States(a, b)[6].named[(1, 2)] == b;
  }
}

/** What a live backup holds: the rows of the committed transactions, read off the actions alone. */
module BackupContents {
  import opened Types
  import opened Backup

  type Rows = map<string, map<RowId, Row>>

  // ---- What the actions say.

  datatype RowWrite = RowWrite(table: string, id: RowId, row: Option<Row>)

  /** The writes of a session that are neither committed nor taken back. */
  function Unfinished(actions: seq<Action>, s: SessionId): seq<RowWrite> {
    if actions == [] then []
    else
      var before := Unfinished(actions[..|actions| - 1], s);
      match actions[|actions| - 1]
      case Write(u, table, id, row) => if u == s then before + [RowWrite(table, id, row)] else before
      case Commit(u) => if u == s then [] else before
      case Undo(u) => if u == s && before != [] then before[..|before| - 1] else before
      case _ => before
  }

  function Applied(rows: Rows, writes: seq<RowWrite>): Rows {
    if writes == [] then rows
    else
      var last := writes[|writes| - 1];
      WithRowIn(Applied(rows, writes[..|writes| - 1]), last.table, last.id, last.row)
  }

  /** The writes of the transactions that reached their Commit; those rolled back never happened. */
  function Committed(actions: seq<Action>): Rows {
    if actions == [] then map[]
    else
      var init := actions[..|actions| - 1];
      match actions[|actions| - 1]
      case Commit(s) => Applied(Committed(init), Unfinished(init, s))
      case DropTable(table) => Committed(init) - {table}
      case _ => Committed(init)
  }

  ghost predicate Touches(writes: seq<RowWrite>, table: string, id: RowId) {
    exists i :: 0 <= i < |writes| && writes[i].table == table && writes[i].id == id
  }

  /**
   At no time do two sessions have an unfinished write of the same row, and no table is dropped while
   there is one in it.
   */
  ghost predicate Apart(actions: seq<Action>) {
    actions != [] ==>
      var init, last := actions[..|actions| - 1], actions[|actions| - 1];
      && Apart(init)
      && (forall s, u, table, id :: s != u && Touches(Unfinished(actions, s), table, id) ==>
            !Touches(Unfinished(actions, u), table, id))
      && (last.DropTable? ==> forall s, id :: !Touches(Unfinished(init, s), last.table, id))
  }

  // ---- Rows, one at a time.

  lemma RowWith(rows: Rows, table: string, id: RowId, row: Option<Row>, t: string, x: RowId)
    ensures RowIn(WithRowIn(rows, table, id, row), t, x) == if t == table && x == id then row else RowIn(rows, t, x)
  {
  }

  lemma TouchesSnoc(writes: seq<RowWrite>, w: RowWrite, t: string, x: RowId)
    ensures Touches(writes + [w], t, x) <==> Touches(writes, t, x) || (w.table == t && w.id == x)
  {
    var all := writes + [w];
    assert all[|writes|] == w;
    if Touches(writes, t, x) {
      var i :| 0 <= i < |writes| && writes[i].table == t && writes[i].id == x;
      assert all[i] == writes[i];
    }
  }

  lemma {:induction false} AppliedRow(a: Rows, b: Rows, writes: seq<RowWrite>, t: string, x: RowId)
    requires RowIn(a, t, x) == RowIn(b, t, x) || Touches(writes, t, x)
    ensures RowIn(Applied(a, writes), t, x) == RowIn(Applied(b, writes), t, x)
    ensures !Touches(writes, t, x) ==> RowIn(Applied(a, writes), t, x) == RowIn(a, t, x)
  {
    hide RowIn, WithRowIn;
    if writes != [] {
      var init, last := writes[..|writes| - 1], writes[|writes| - 1];
      assert writes == init + [last];
      TouchesSnoc(init, last, t, x);
      RowWith(Applied(a, init), last.table, last.id, last.row, t, x);
      RowWith(Applied(b, init), last.table, last.id, last.row, t, x);
      if !(last.table == t && last.id == x) {
        AppliedRow(a, b, init, t, x);
      }
    }
  }

  // ---- What a session must have pending.

  function ChangesOf(rows: Rows, writes: seq<RowWrite>): seq<Change> {
    if writes == [] then []
    else
      var init, last := writes[..|writes| - 1], writes[|writes| - 1];
      ChangesOf(rows, init) + [Change(last.table, last.id, RowIn(Applied(rows, init), last.table, last.id))]
  }

  lemma {:induction false} SameChanges(a: Rows, b: Rows, writes: seq<RowWrite>)
    requires forall t, x :: Touches(writes, t, x) ==> RowIn(a, t, x) == RowIn(b, t, x)
    ensures ChangesOf(a, writes) == ChangesOf(b, writes)
  {
    hide RowIn, Touches;
    if writes != [] {
      var init, last := writes[..|writes| - 1], writes[|writes| - 1];
      assert writes == init + [last];
      forall t, x | Touches(init, t, x) ensures RowIn(a, t, x) == RowIn(b, t, x) {
        TouchesSnoc(init, last, t, x);
      }
      TouchesSnoc(init, last, last.table, last.id);
      SameChanges(a, b, init);
      AppliedRow(a, b, init, last.table, last.id);
    }
  }

  /** The changes taken back, the last one first. */
  function TakenBack(rows: Rows, changes: seq<Change>): Rows
    decreases |changes|
  {
    if changes == [] then rows
    else
      var last := changes[|changes| - 1];
      TakenBack(WithRowIn(rows, last.table, last.id, last.before), changes[..|changes| - 1])
  }

  lemma {:induction false} TakenBackRow(rows: Rows, base: Rows, writes: seq<RowWrite>, t: string, x: RowId)
    ensures RowIn(TakenBack(rows, ChangesOf(base, writes)), t, x)
         == if Touches(writes, t, x) then RowIn(base, t, x) else RowIn(rows, t, x)
    decreases |writes|
  {
    hide RowIn, WithRowIn, Applied, Touches;
    if writes == [] {
      NoTouch(t, x);
    } else {
      var init, last := writes[..|writes| - 1], writes[|writes| - 1];
      assert writes == init + [last];
      var before := RowIn(Applied(base, init), last.table, last.id);
      var rows' := WithRowIn(rows, last.table, last.id, before);
      assert ChangesOf(base, writes)[..|ChangesOf(base, init)|] == ChangesOf(base, init);
      TouchesSnoc(init, last, t, x);
      RowWith(rows, last.table, last.id, before, t, x);
      TakenBackRow(rows', base, init, t, x);
      AppliedRow(base, base, init, t, x);
    }
  }

  lemma NoTouch(t: string, x: RowId)
    ensures !Touches([], t, x)
  {
  }

  // ---- The invariant.

  /** A row is what its session made of the committed one, or the committed one. */
  ghost predicate RowExplained(rows: Rows, actions: seq<Action>, t: string, x: RowId) {
    && (forall s :: Touches(Unfinished(actions, s), t, x) ==>
          RowIn(rows, t, x) == RowIn(Applied(Committed(actions), Unfinished(actions, s)), t, x))
    && ((forall s :: !Touches(Unfinished(actions, s), t, x)) ==> RowIn(rows, t, x) == RowIn(Committed(actions), t, x))
  }

  ghost predicate Explained(st: State, actions: seq<Action>) {
    && (forall s :: PendingOf(st, s) == ChangesOf(Committed(actions), Unfinished(actions, s)))
    && (forall t, x :: RowExplained(st.rows, actions, t, x))
  }

  lemma UnfinishedSnoc(init: seq<Action>, a: Action, s: SessionId)
    ensures var before := Unfinished(init, s);
      Unfinished(init + [a], s)
      == if a.Write? && a.s == s then before + [RowWrite(a.table, a.id, a.row)]
         else if a.Commit? && a.s == s then []
         else if a.Undo? && a.s == s && before != [] then before[..|before| - 1]
         else before
  {
    assert (init + [a])[..|init|] == init;
  }

  lemma CommittedSnoc(init: seq<Action>, a: Action)
    ensures Committed(init + [a])
      == if a.Commit? then Applied(Committed(init), Unfinished(init, a.s))
         else if a.DropTable? then Committed(init) - {a.table}
         else Committed(init)
  {
    assert (init + [a])[..|init|] == init;
  }

  lemma ApartSnoc(init: seq<Action>, a: Action)
    requires Apart(init + [a])
    ensures Apart(init)
    ensures forall s, u, table, id :: s != u && Touches(Unfinished(init + [a], s), table, id) ==>
      !Touches(Unfinished(init + [a], u), table, id)
    ensures a.DropTable? ==> forall s, id :: !Touches(Unfinished(init, s), a.table, id)
  {
    hide Unfinished, Touches;
    assert (init + [a])[..|init|] == init;
  }

  // A step that touches neither rows nor pending changes.
  lemma OtherStep(st: State, init: seq<Action>, a: Action, st': State)
    requires Explained(st, init) && !a.Write? && !a.Commit? && !a.Undo? && !a.DropTable?
    requires forall t, x :: RowIn(st'.rows, t, x) == RowIn(st.rows, t, x)
    requires st'.pending == st.pending
    ensures Explained(st', init + [a])
  {
    hide Unfinished, Committed, Touches, RowIn, Applied, ChangesOf;
    CommittedSnoc(init, a);
    forall s ensures Unfinished(init + [a], s) == Unfinished(init, s) && PendingOf(st', s) == PendingOf(st, s) {
      UnfinishedSnoc(init, a, s);
    }
    forall t, x ensures RowExplained(st'.rows, init + [a], t, x) {
      assert RowExplained(st.rows, init, t, x);
    }
  }

  lemma WriteStep(st: State, init: seq<Action>, a: Action)
    requires Explained(st, init) && a.Write? && Enabled(st, a) && Apart(init + [a])
    ensures Explained(Next(st, a), init + [a])
  {
    hide Unfinished, Committed, Touches, RowIn, WithRowIn, Applied, ChangesOf, Apart;
    var st', base, mine := Next(st, a), Committed(init), Unfinished(init, a.s);
    var w := RowWrite(a.table, a.id, a.row);
    ApartSnoc(init, a);
    CommittedSnoc(init, a);
    UnfinishedSnoc(init, a, a.s);
    TouchesSnoc(mine, w, a.table, a.id);
    forall s ensures s != a.s ==> Unfinished(init + [a], s) == Unfinished(init, s) {
      UnfinishedSnoc(init, a, s);
    }
    RowBeforeWrite(st, init, a);
    ChangesSnoc(base, mine, w);
    forall s ensures PendingOf(st', s) == ChangesOf(base, Unfinished(init + [a], s)) {
    }
    forall t, x ensures RowExplained(st'.rows, init + [a], t, x) {
      assert RowExplained(st.rows, init, t, x);
      RowWith(st.rows, a.table, a.id, a.row, t, x);
      TouchesSnoc(mine, w, t, x);
      AppliedSnoc(base, mine, w, t, x);
    }
  }

  lemma AppliedSnoc(base: Rows, writes: seq<RowWrite>, w: RowWrite, t: string, x: RowId)
    ensures RowIn(Applied(base, writes + [w]), t, x)
         == if t == w.table && x == w.id then w.row else RowIn(Applied(base, writes), t, x)
  {
    hide RowIn, WithRowIn;
    assert (writes + [w])[..|writes|] == writes;
    RowWith(Applied(base, writes), w.table, w.id, w.row, t, x);
  }

  lemma ChangesSnoc(base: Rows, writes: seq<RowWrite>, w: RowWrite)
    ensures ChangesOf(base, writes + [w])
         == ChangesOf(base, writes) + [Change(w.table, w.id, RowIn(Applied(base, writes), w.table, w.id))]
  {
    assert (writes + [w])[..|writes|] == writes;
  }

  // Nobody else has an unfinished write of the row, so it is what the session's earlier writes made of it.
  lemma RowBeforeWrite(st: State, init: seq<Action>, a: Action)
    requires Explained(st, init) && a.Write? && Apart(init + [a])
    ensures RowIn(st.rows, a.table, a.id) == RowIn(Applied(Committed(init), Unfinished(init, a.s)), a.table, a.id)
  {
    hide Unfinished, Committed, Touches, RowIn, Applied, ChangesOf, Apart;
    var mine, w := Unfinished(init, a.s), RowWrite(a.table, a.id, a.row);
    ApartSnoc(init, a);
    UnfinishedSnoc(init, a, a.s);
    TouchesSnoc(mine, w, a.table, a.id);
    assert RowExplained(st.rows, init, a.table, a.id);
    if !Touches(mine, a.table, a.id) {
      forall s ensures !Touches(Unfinished(init, s), a.table, a.id) {
        UnfinishedSnoc(init, a, s);
      }
      AppliedRow(Committed(init), Committed(init), mine, a.table, a.id);
    }
  }

  lemma CommitStep(st: State, init: seq<Action>, a: Action)
    requires Explained(st, init) && a.Commit? && Enabled(st, a) && Apart(init)
    ensures Explained(Next(st, a), init + [a])
  {
    hide Unfinished, Touches, RowIn, Applied, ChangesOf, Committed, Apart;
    var st', base, mine := Next(st, a), Committed(init), Unfinished(init, a.s);
    var base' := Applied(base, mine);
    CommittedSnoc(init, a);
    UnfinishedSnoc(init, a, a.s);
    NoChanges(base');
    forall s ensures PendingOf(st', s) == ChangesOf(base', Unfinished(init + [a], s)) {
      UnfinishedSnoc(init, a, s);
      if s != a.s {
        forall t, x | Touches(Unfinished(init, s), t, x) ensures RowIn(base, t, x) == RowIn(base', t, x) {
          OnlyOne(init, s, a.s, t, x);
          AppliedRow(base, base, mine, t, x);
        }
        SameChanges(base, base', Unfinished(init, s));
      }
    }
    forall t, x ensures RowExplained(st'.rows, init + [a], t, x) {
      CommittedRow(st, init, a, t, x);
    }
  }

  lemma NoChanges(base: Rows)
    ensures ChangesOf(base, []) == []
  {
  }

  // Who has an unfinished write of a row is the only one.
  lemma OnlyOne(actions: seq<Action>, s: SessionId, u: SessionId, t: string, x: RowId)
    requires Apart(actions) && s != u && Touches(Unfinished(actions, s), t, x)
    ensures !Touches(Unfinished(actions, u), t, x)
  {
    hide Touches;
    if actions == [] {
      NoTouch(t, x);
    }
  }

  lemma CommittedRow(st: State, init: seq<Action>, a: Action, t: string, x: RowId)
    requires Explained(st, init) && a.Commit? && Enabled(st, a) && Apart(init)
    ensures RowExplained(st.rows, init + [a], t, x)
  {
    hide Unfinished, Touches, RowIn, Applied, ChangesOf, Committed, Apart;
    var base, mine := Committed(init), Unfinished(init, a.s);
    var base' := Applied(base, mine);
    CommittedSnoc(init, a);
    NoTouch(t, x);
    assert RowExplained(st.rows, init, t, x);
    AppliedRow(base, base, mine, t, x);
    forall s ensures Unfinished(init + [a], s) == if s == a.s then [] else Unfinished(init, s) {
      UnfinishedSnoc(init, a, s);
    }
    forall s | s != a.s && Touches(Unfinished(init, s), t, x)
      ensures RowIn(st.rows, t, x) == RowIn(Applied(base', Unfinished(init, s)), t, x)
    {
      AppliedRow(base, base', Unfinished(init, s), t, x);
    }
    if forall s :: !Touches(Unfinished(init + [a], s), t, x) {
      if !Touches(mine, t, x) {
        assert forall s :: !Touches(Unfinished(init, s), t, x);
      }
    }
  }

  lemma UndoneStep(st: State, init: seq<Action>, a: Action)
    requires Explained(st, init) && a.Undo? && Enabled(st, a) && Apart(init)
    ensures Explained(Next(st, a), init + [a])
  {
    hide Unfinished, Touches, RowIn, WithRowIn, Applied, ChangesOf, Committed, Apart;
    var st', base, mine := Next(st, a), Committed(init), Unfinished(init, a.s);
    var rest, last := UndoneLast(st, init, a);
    CommittedSnoc(init, a);
    forall s ensures Unfinished(init + [a], s) == if s == a.s then rest else Unfinished(init, s) {
      UnfinishedSnoc(init, a, s);
    }
    forall s ensures PendingOf(st', s) == ChangesOf(base, Unfinished(init + [a], s)) {
    }
    forall t, x ensures RowExplained(st'.rows, init + [a], t, x) {
      assert RowExplained(st.rows, init, t, x);
      RowWith(st.rows, last.table, last.id, RowIn(Applied(base, rest), last.table, last.id), t, x);
      TouchesSnoc(rest, last, t, x);
      AppliedSnoc(base, rest, last, t, x);
      AppliedRow(base, base, rest, t, x);
      forall s | s != a.s && Touches(Unfinished(init, s), t, x) ensures !Touches(mine, t, x) {
        OnlyOne(init, s, a.s, t, x);
      }
    }
  }

  lemma UndoneLast(st: State, init: seq<Action>, a: Action) returns (rest: seq<RowWrite>, last: RowWrite)
    requires Explained(st, init) && a.Undo? && Enabled(st, a)
    ensures Unfinished(init, a.s) == rest + [last] && Unfinished(init + [a], a.s) == rest
    ensures var base, pending := Committed(init), PendingOf(st, a.s);
      var before := RowIn(Applied(base, rest), last.table, last.id);
      pending == ChangesOf(base, rest) + [Change(last.table, last.id, before)]
      && PendingOf(Next(st, a), a.s) == ChangesOf(base, rest)
      && Next(st, a).rows == WithRowIn(st.rows, last.table, last.id, before)
  {
    hide Unfinished, RowIn, WithRowIn, Applied, Committed;
    var mine, base := Unfinished(init, a.s), Committed(init);
    assert mine != [] by {
      NoChanges(base);
    }
    rest, last := mine[..|mine| - 1], mine[|mine| - 1];
    assert mine == rest + [last];
    UnfinishedSnoc(init, a, a.s);
    ChangesSnoc(base, rest, last);
    var pending := PendingOf(st, a.s);
    assert pending[..|pending| - 1] == ChangesOf(base, rest);
  }

  lemma DropStep(st: State, init: seq<Action>, a: Action)
    requires Explained(st, init) && a.DropTable? && Enabled(st, a) && Apart(init + [a])
    ensures Explained(Next(st, a), init + [a])
  {
    hide Unfinished, Touches, Applied, ChangesOf, Committed, Apart;
    var st', base, base' := Next(st, a), Committed(init), Committed(init) - {a.table};
    ApartSnoc(init, a);
    CommittedSnoc(init, a);
    forall s ensures Unfinished(init + [a], s) == Unfinished(init, s) {
      UnfinishedSnoc(init, a, s);
    }
    forall s ensures PendingOf(st', s) == ChangesOf(base', Unfinished(init + [a], s)) {
      SameChanges(base, base', Unfinished(init, s));
    }
    forall t, x ensures RowExplained(st'.rows, init + [a], t, x) {
      assert RowExplained(st.rows, init, t, x);
      forall s | Touches(Unfinished(init, s), t, x)
        ensures t != a.table
        ensures RowIn(Applied(base', Unfinished(init, s)), t, x) == RowIn(Applied(base, Unfinished(init, s)), t, x)
      {
        AppliedRow(base, base', Unfinished(init, s), t, x);
      }
    }
  }

  lemma {:induction false} EveryStateExplained(actions: seq<Action>)
    requires Interleaved(actions).Some? && Apart(actions)
    ensures Explained(Interleaved(actions).value, actions)
  {
    if actions == [] {
      StartExplained();
    } else {
      hide Explained, Apart, Enabled, Next, Committed, Unfinished;
      var init, a := actions[..|actions| - 1], actions[|actions| - 1];
      assert actions == init + [a];
      ApartSnoc(init, a);
      EveryStateExplained(init);
      var st := Interleaved(init).value;
      match a {
        case Write(_, _, _, _) => WriteStep(st, init, a);
        case Commit(_) => CommitStep(st, init, a);
        case Undo(_) => UndoneStep(st, init, a);
        case DropTable(_) => DropStep(st, init, a);
        case _ =>
          OtherRows(st, a);
          OtherStep(st, init, a, Next(st, a));
      }
    }
  }

  lemma OtherRows(st: State, a: Action)
    requires Enabled(st, a) && !a.Write? && !a.Commit? && !a.Undo? && !a.DropTable?
    ensures forall t, x :: RowIn(Next(st, a).rows, t, x) == RowIn(st.rows, t, x)
    ensures Next(st, a).pending == st.pending
  {
  }

  lemma StartExplained()
    ensures Explained(START, [])
  {
    forall t, x ensures RowExplained(START.rows, [], t, x) {
      NoTouch(t, x);
    }
  }

  // ---- The theorems.

  /** The pending changes of the sessions of a list, taken back session by session. */
  function AllTakenBack(st: State, sessions: seq<SessionId>): Rows {
    if sessions == [] then st.rows
    else TakenBack(AllTakenBack(st, sessions[..|sessions| - 1]), PendingOf(st, sessions[|sessions| - 1]))
  }

  lemma {:induction false} AllTakenBackRow(
      st: State, actions: seq<Action>, sessions: seq<SessionId>, t: string, x: RowId)
    requires Explained(st, actions)
    ensures RowIn(AllTakenBack(st, sessions), t, x)
         == if exists i :: 0 <= i < |sessions| && Touches(Unfinished(actions, sessions[i]), t, x)
            then RowIn(Committed(actions), t, x) else RowIn(st.rows, t, x)
  {
    hide RowIn, Touches, Committed, Unfinished, RowExplained;
    if sessions != [] {
      var init, last := sessions[..|sessions| - 1], sessions[|sessions| - 1];
      assert sessions == init + [last];
      AllTakenBackRow(st, actions, init, t, x);
      TakenBackRow(AllTakenBack(st, init), Committed(actions), Unfinished(actions, last), t, x);
      assert forall i :: 0 <= i < |init| ==> sessions[i] == init[i];
      assert sessions[|init|] == last;
    }
  }

  /**
   Over all interleavings in which no two sessions have an unfinished change of the same row at once:
   taking back what is pending, session by session in any order, gives the rows of the transactions
   that reached their Commit.
   */
  lemma PendingTakenBack(actions: seq<Action>, sessions: seq<SessionId>, t: string, x: RowId)
    requires Interleaved(actions).Some? && Apart(actions)
    requires forall s :: PendingOf(Interleaved(actions).value, s) != [] ==> s in sessions
    ensures RowIn(AllTakenBack(Interleaved(actions).value, sessions), t, x) == RowIn(Committed(actions), t, x)
  {
    hide RowIn, Touches, Committed, Unfinished, Apart, Interleaved, ChangesOf;
    var st := Interleaved(actions).value;
    EveryStateExplained(actions);
    AllTakenBackRow(st, actions, sessions, t, x);
    assert RowExplained(st.rows, actions, t, x);
    forall s | Touches(Unfinished(actions, s), t, x) ensures s in sessions {
      TouchedPending(Committed(actions), Unfinished(actions, s), t, x);
    }
  }

  lemma TouchedPending(base: Rows, writes: seq<RowWrite>, t: string, x: RowId)
    requires Touches(writes, t, x)
    ensures ChangesOf(base, writes) != []
  {
  }

  /** From the second zero count to the release, and in the archive: exactly the committed rows. */
  lemma BackupHoldsCommittedRows(actions: seq<Action>, t: string, x: RowId)
    requires Interleaved(actions).Some? && InWindow(Interleaved(actions).value) && Apart(actions)
    ensures var st := Interleaved(actions).value;
      && RowIn(st.rows, t, x) == RowIn(Committed(actions), t, x)
      && (st.backup.Archived? && t !in st.gone ==> RowIn(st.archive, t, x) == RowIn(Committed(actions), t, x))
  {
    hide Committed, Apart, Interleaved;
    LiveBackupIsConsistent(actions);
    PendingTakenBack(actions, [], t, x);
  }
}

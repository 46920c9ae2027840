/**
 A live backup among running sessions: the write-transaction counter, the backup lock, and what the
 archive contains.
 */
module Backup {
  import opened Types

  type SessionId = nat

  /** Where a session is.  Statements hold the backup lock for reading; BEGIN, COMMIT and ROLLBACK do not. */
  datatype Phase =
    | Idle
    | Begun             // BEGIN logged, not counted yet
    | Open              // counted, between statements
    | Writing           // inside a statement of an explicit transaction
    | Undoing           // ROLLBACK logged, undo records being applied
    | Closing           // over, still counted
    | AutoLocked        // a statement outside a transaction took the lock ...
    | AutoBegun         // ... began its own transaction ...
    | AutoWriting       // ... is counted and changes rows ...
    | AutoCommitted     // ... committed ...
    | AutoDone          // ... and is no longer counted

  predicate Counted(p: Phase) {
    p.Open? || p.Writing? || p.Undoing? || p.Closing? || p.AutoWriting? || p.AutoCommitted?
  }

  predicate Guarded(p: Phase) {
    p.Writing? || p.AutoLocked? || p.AutoBegun? || p.AutoWriting? || p.AutoCommitted? || p.AutoDone?
  }

  /** A row change and what was there before. */
  datatype Change = Change(table: string, id: RowId, before: Option<Row>)

  datatype BackupPhase = NoBackup | Waiting | Wanting | Locked | Window | Archived

  datatype State = State(
    rows: map<string, map<RowId, Row>>,
    phases: map<SessionId, Phase>,
    pending: map<SessionId, seq<Change>>,   // uncommitted, or not undone yet
    count: int,
    readers: set<SessionId>,
    writer: bool,
    backup: BackupPhase,
    snapshot: map<string, map<RowId, Row>>, // the rows when the second wait ended
    gone: set<string>,                      // tables dropped since
    files: map<string, map<RowId, Row>>,    // table files written since
    archive: map<string, map<RowId, Row>>)

  function PhaseOf(st: State, s: SessionId): Phase {
    if s in st.phases then st.phases[s] else Idle
  }

  function PendingOf(st: State, s: SessionId): seq<Change> {
    if s in st.pending then st.pending[s] else []
  }

  function RowIn(rows: map<string, map<RowId, Row>>, table: string, id: RowId): Option<Row> {
    if table in rows && id in rows[table] then Some(rows[table][id]) else None
  }

  function WithRowIn(rows: map<string, map<RowId, Row>>, table: string, id: RowId, row: Option<Row>):
    map<string, map<RowId, Row>>
  {
    var t: map<RowId, Row> := if table in rows then rows[table] else map[];
    rows[table := if row.Some? then t[id := row.value] else t - {id}]
  }

  function At(st: State, s: SessionId, p: Phase): State {
    st.(phases := st.phases[s := p])
  }

  datatype Action =
    | Begin(s: SessionId)
    | CountUp(s: SessionId)
    | Enter(s: SessionId)
    | AutoBegin(s: SessionId)
    | Write(s: SessionId, table: string, id: RowId, row: Option<Row>)
    | Leave(s: SessionId)
    | Commit(s: SessionId)
    | Rollback(s: SessionId)
    | Undo(s: SessionId)
    | UndoDone(s: SessionId)
    | CountDown(s: SessionId)
    | CreateTable(table: string)   // takes no backup lock and is not counted ...
    | DropTable(table: string)     // ... nor does this
    | StartBackup
    | FirstWait
    | TakeLock
    | SecondWait
    | Persist(table: string)
    | MakeArchive
    | Release

  predicate Enabled(st: State, a: Action) {
    match a
    case Begin(s) => PhaseOf(st, s).Idle?
    case CountUp(s) => PhaseOf(st, s).Begun? || PhaseOf(st, s).AutoBegun?
    case Enter(s) => !st.writer && (PhaseOf(st, s).Idle? || PhaseOf(st, s).Open?)
    case AutoBegin(s) => PhaseOf(st, s).AutoLocked?
    case Write(s, _, _, _) => PhaseOf(st, s).Writing? || PhaseOf(st, s).AutoWriting?
    case Leave(s) => PhaseOf(st, s).Writing? || PhaseOf(st, s).AutoDone?
    case Commit(s) => PhaseOf(st, s).Open? || PhaseOf(st, s).AutoWriting?
    case Rollback(s) => PhaseOf(st, s).Open?
    case Undo(s) => PhaseOf(st, s).Undoing? && PendingOf(st, s) != []
    case UndoDone(s) => PhaseOf(st, s).Undoing? && PendingOf(st, s) == []
    case CountDown(s) => PhaseOf(st, s).Closing? || PhaseOf(st, s).AutoCommitted?
    case CreateTable(t) => t !in st.rows
    case DropTable(t) => t in st.rows
    case StartBackup => st.backup.NoBackup?
    case FirstWait => st.backup.Waiting? && st.count == 0
    case TakeLock => st.backup.Wanting? && st.readers == {}
    case SecondWait => st.backup.Locked? && st.count == 0
    case Persist(t) => st.backup.Window? && t in st.rows
    case MakeArchive => st.backup.Window? && st.snapshot.Keys - st.gone <= st.files.Keys
    case Release => st.backup.Archived?
  }

  function Next(st: State, a: Action): State
    requires Enabled(st, a)
  {
    match a
    case Begin(s) => At(st, s, Begun)
    case CountUp(s) => At(st, s, if PhaseOf(st, s).Begun? then Open else AutoWriting).(count := st.count + 1)
    case Enter(s) => At(st, s, if PhaseOf(st, s).Idle? then AutoLocked else Writing).(readers := st.readers + {s})
    case AutoBegin(s) => At(st, s, AutoBegun)
    case Write(s, table, id, row) =>
      st.(rows := WithRowIn(st.rows, table, id, row),
          pending := st.pending[s := PendingOf(st, s) + [Change(table, id, RowIn(st.rows, table, id))]])
    case Leave(s) => At(st, s, if PhaseOf(st, s).Writing? then Open else Idle).(readers := st.readers - {s})
    case Commit(s) =>
      At(st, s, if PhaseOf(st, s).Open? then Closing else AutoCommitted).(pending := st.pending[s := []])
    case Rollback(s) => At(st, s, Undoing)
    case Undo(s) =>   // on a dropped table the code stops here with an error
      var changes := PendingOf(st, s);
      var last := changes[|changes| - 1];
      st.(rows := WithRowIn(st.rows, last.table, last.id, last.before),
          pending := st.pending[s := changes[..|changes| - 1]])
    case UndoDone(s) => At(st, s, Closing)
    case CountDown(s) => At(st, s, if PhaseOf(st, s).Closing? then Idle else AutoDone).(count := st.count - 1)
    case CreateTable(t) => st.(rows := st.rows[t := map[]])
    case DropTable(t) => st.(rows := st.rows - {t}, files := st.files - {t}, gone := st.gone + {t})
    case StartBackup => st.(backup := Waiting)
    case FirstWait => st.(backup := Wanting)
    case TakeLock => st.(backup := Locked, writer := true)
    case SecondWait => st.(backup := Window, snapshot := st.rows, files := map[], gone := {})
    case Persist(t) => st.(files := st.files[t := st.rows[t]])
    case MakeArchive => st.(backup := Archived, archive := st.files)
    case Release => st.(backup := NoBackup, writer := false)
  }

  const START: State := State(map[], map[], map[], 0, {}, false, NoBackup, map[], {}, map[], map[])

  /** The state after an interleaving of sessions and backup, if each step was enabled. */
  function Interleaved(actions: seq<Action>): Option<State> {
    if actions == [] then Some(START)
    else
      var a := actions[|actions| - 1];
      match Interleaved(actions[..|actions| - 1])
      case None => None
      case Some(mid) => if Enabled(mid, a) then Some(Next(mid, a)) else None
  }

  // ---- The invariant.

  ghost function CountedSessions(st: State): set<SessionId> {
    set s | s in st.phases && Counted(st.phases[s])
  }

  /** Changes are pending only while the session is counted. */
  ghost predicate SessionOk(st: State, s: SessionId) {
    && (s in st.readers <==> Guarded(PhaseOf(st, s)))
    && (PendingOf(st, s) != [] ==>
          var p := PhaseOf(st, s); p.Open? || p.Writing? || p.Undoing? || p.AutoWriting?)
  }

  predicate InWindow(st: State) {
    st.backup.Window? || st.backup.Archived?
  }

  ghost predicate WindowOk(st: State) {
    && (forall s :: PendingOf(st, s) == [])
    && CopyOf(st.rows, st.snapshot, st.gone)
    && (forall t :: t in st.files && t !in st.gone ==> t in st.rows && st.files[t] == st.rows[t])
    && (st.backup.Archived? ==> CopyOf(st.archive, st.snapshot, st.gone))
  }

  /** Apart from the tables `gone`: the tables of `b` with their rows, and perhaps tables without rows. */
  ghost predicate CopyOf(a: map<string, map<RowId, Row>>, b: map<string, map<RowId, Row>>, gone: set<string>) {
    && b.Keys - gone <= a.Keys
    && forall t :: t in a && t !in gone ==> if t in b then a[t] == b[t] else a[t] == map[]
  }

  ghost predicate BackupInv(st: State) {
    && (forall s :: SessionOk(st, s))
    && st.count == |CountedSessions(st)|
    && (st.writer <==> st.backup.Locked? || InWindow(st))
    && (st.writer ==> st.readers == {})
    && (InWindow(st) ==> WindowOk(st))
  }

  lemma CountAfter(st: State, s: SessionId, p: Phase)
    ensures |CountedSessions(At(st, s, p))| == |CountedSessions(st)|
      + (if Counted(p) then 1 else 0) - (if Counted(PhaseOf(st, s)) then 1 else 0)
  {
    var before, after := CountedSessions(st), CountedSessions(At(st, s, p));
    hide Counted;
    if Counted(p) {
      assert after == before + {s};
    } else {
      assert after == before - {s};
    }
    assert s in before ==> Counted(PhaseOf(st, s));
    NotCountedIdle();
  }

  lemma NotCountedIdle()
    ensures !Counted(Idle)
  {
  }

  lemma SamePhases(a: State, b: State)
    requires a.phases == b.phases
    ensures CountedSessions(a) == CountedSessions(b)
  {
  }

  // Nobody counted: nobody has pending changes.
  lemma ZeroMeansClean(st: State)
    requires BackupInv(st) && st.count == 0
    ensures forall s :: PendingOf(st, s) == []
  {
    forall s ensures PendingOf(st, s) == [] {
      assert SessionOk(st, s);
      assert s !in CountedSessions(st);
    }
  }

  lemma SessionStepKeeps(st: State, s: SessionId, st': State, p: Phase)
    requires BackupInv(st)
    requires st'.phases == st.phases[s := p]
    requires st'.count == st.count + (if Counted(p) then 1 else 0) - (if Counted(PhaseOf(st, s)) then 1 else 0)
    requires st'.readers == if Guarded(p) then st.readers + {s} else st.readers - {s}
    requires !st.writer || !Guarded(p)
    requires forall u :: u != s ==> PendingOf(st', u) == PendingOf(st, u)
    requires PendingOf(st', s) == PendingOf(st, s) || PendingOf(st', s) == []
    requires PendingOf(st', s) != [] ==> p.Open? || p.Writing? || p.Undoing? || p.AutoWriting?
    requires st'.rows == st.rows && st'.writer == st.writer && st'.backup == st.backup
    requires st'.snapshot == st.snapshot && st'.gone == st.gone && st'.files == st.files && st'.archive == st.archive
    ensures BackupInv(st')
  {
    CountAfter(st, s, p);
    SamePhases(st', At(st, s, p));
    forall u ensures SessionOk(st', u) {
      assert SessionOk(st, u);
    }
  }

  lemma RowStepKeeps(st: State, s: SessionId, st': State, changes: seq<Change>)
    requires BackupInv(st) && !InWindow(st)
    requires st' == st.(rows := st'.rows, pending := st.pending[s := changes])
    requires var p := PhaseOf(st, s); p.Open? || p.Writing? || p.Undoing? || p.AutoWriting?
    ensures BackupInv(st')
  {
    SamePhases(st', st);
    forall u ensures SessionOk(st', u) {
      assert SessionOk(st, u);
    }
  }

  lemma BackupStepKeeps(st: State, a: Action)
    requires BackupInv(st) && Enabled(st, a)
    requires a.StartBackup? || a.FirstWait? || a.TakeLock? || a.SecondWait?
      || a.Persist? || a.MakeArchive? || a.Release?
    ensures BackupInv(Next(st, a))
  {
    var st' := Next(st, a);
    SamePhases(st', st);
    forall u ensures SessionOk(st', u) && PendingOf(st', u) == PendingOf(st, u) {
      assert SessionOk(st, u);
    }
    if a.SecondWait? {
      ZeroMeansClean(st);
    }
  }

  // A new table has no rows, so it may appear even in the window; a dropped one is gone.
  lemma DdlKeeps(st: State, a: Action)
    requires BackupInv(st) && Enabled(st, a) && (a.CreateTable? || a.DropTable?)
    ensures BackupInv(Next(st, a))
  {
    var st' := Next(st, a);
    SamePhases(st', st);
    forall u ensures SessionOk(st', u) && PendingOf(st', u) == PendingOf(st, u) {
      assert SessionOk(st, u);
    }
  }

  lemma OpeningStepKeeps(st: State, a: Action)
    requires BackupInv(st) && Enabled(st, a)
    requires a.Begin? || a.CountUp? || a.Enter? || a.AutoBegin?
    ensures BackupInv(Next(st, a))
  {
    hide BackupInv, CountedSessions;
    InvAt(st, a.s);
    SessionStepKeeps(st, a.s, Next(st, a), PhaseOf(Next(st, a), a.s));
  }

  lemma ClosingStepKeeps(st: State, a: Action)
    requires BackupInv(st) && Enabled(st, a)
    requires a.Leave? || a.Commit? || a.Rollback? || a.UndoDone? || a.CountDown?
    ensures BackupInv(Next(st, a))
  {
    hide BackupInv, CountedSessions;
    InvAt(st, a.s);
    SessionStepKeeps(st, a.s, Next(st, a), PhaseOf(Next(st, a), a.s));
  }

  lemma ChangeStepKeeps(st: State, a: Action)
    requires BackupInv(st) && Enabled(st, a) && (a.Write? || a.Undo?)
    ensures BackupInv(Next(st, a))
  {
    hide BackupInv, CountedSessions;
    InvAt(st, a.s);
    RowStepKeeps(st, a.s, Next(st, a), Next(st, a).pending[a.s]);
  }

  lemma StepKeeps(st: State, a: Action)
    requires BackupInv(st) && Enabled(st, a)
    ensures BackupInv(Next(st, a))
  {
    hide BackupInv, Next, Enabled;
    match a {
      case Begin(_) | CountUp(_) | Enter(_) | AutoBegin(_) => OpeningStepKeeps(st, a);
      case Leave(_) | Commit(_) | Rollback(_) | UndoDone(_) | CountDown(_) => ClosingStepKeeps(st, a);
      case Write(_, _, _, _) => ChangeStepKeeps(st, a);
      case Undo(_) => ChangeStepKeeps(st, a);
      case CreateTable(_) | DropTable(_) => DdlKeeps(st, a);
      case _ => BackupStepKeeps(st, a);
    }
  }

  // While the lock is held for writing no statement runs, and in the window nothing is pending.
  lemma InvAt(st: State, s: SessionId)
    requires BackupInv(st)
    ensures SessionOk(st, s)
    ensures st.writer ==> !Guarded(PhaseOf(st, s))
    ensures InWindow(st) ==> st.writer && PendingOf(st, s) == []
  {
    assert SessionOk(st, s);
  }

  lemma {:induction false} EveryStateOk(actions: seq<Action>)
    requires Interleaved(actions).Some?
    ensures BackupInv(Interleaved(actions).value)
  {
    hide BackupInv, Enabled, Next;
    if actions == [] {
      StartOk();
    } else {
      EveryStateOk(actions[..|actions| - 1]);
      StepKeeps(Interleaved(actions[..|actions| - 1]).value, actions[|actions| - 1]);
    }
  }

  lemma StartOk()
    ensures BackupInv(START)
  {
    assert CountedSessions(START) == {};
  }

  /**
   Over all interleavings: from the end of the second wait until the lock is released no session has
   an uncommitted or half-undone change, the rows of every table that is not dropped stay what they
   were, and the archive is a copy of exactly those rows.  Tables created meanwhile are empty, in the
   engine and in the archive.
   */
  lemma LiveBackupIsConsistent(actions: seq<Action>)
    requires Interleaved(actions).Some? && InWindow(Interleaved(actions).value)
    ensures var st := Interleaved(actions).value;
      && (forall s :: PendingOf(st, s) == [])
      && CopyOf(st.rows, st.snapshot, st.gone)
      && (st.backup.Archived? ==> CopyOf(st.archive, st.snapshot, st.gone))
  {
    EveryStateOk(actions);
  }

  /** Inside the window no step of any session changes a row, except that DROP TABLE removes a table. */
  lemma WindowFreezesRows(actions: seq<Action>, a: Action)
    requires Interleaved(actions + [a]).Some?
    requires Interleaved(actions).Some? && InWindow(Interleaved(actions).value)
    ensures !a.Write? && !a.Undo?
    ensures var before, after := Interleaved(actions).value.rows, Interleaved(actions + [a]).value.rows;
      after == if a.CreateTable? then before[a.table := map[]]
               else if a.DropTable? then before - {a.table}
               else before
  {
    hide BackupInv;
    EveryStateOk(actions);
    assert (actions + [a])[..|actions|] == actions;
    if a.Write? || a.Undo? {
      InvAt(Interleaved(actions).value, a.s);
    }
  }
}

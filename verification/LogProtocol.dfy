/**
 Many sessions writing one log.  An append takes its LSN first and writes its frame later, so frames
 of different sessions reach the file in any order.
 */
module LogProtocol {
  import opened Types
  import opened WalFormat
  import opened Sorting
  import opened Replaying

  type SessionId = nat

  datatype Phase =
    | Resting
    | Allocated(txn: TxnId)   // has an id, Begin not logged yet
    | Running(txn: TxnId)
    | Closing(txn: TxnId)     // the terminator has its LSN

  /** `pending` holds the records that have an LSN but are not in the file yet. */
  datatype State = State(
    nextTxn: TxnId,
    lsn: nat,
    phases: map<SessionId, Phase>,
    pending: map<SessionId, Entry>,
    file: seq<Entry>)

  const START: State := State(1, 0, map[], map[], [])

  function PhaseOf(st: State, s: SessionId): Phase {
    if s in st.phases then st.phases[s] else Resting
  }

  datatype Action =
    | Alloc(s: SessionId)
    | TakeLsn(s: SessionId, op: WalOp)
    | WriteFrame(s: SessionId)

  /** The record a session may log next, and the phase that leads to. */
  predicate MayLog(p: Phase, op: WalOp) {
    match p
    case Allocated(txn) => op == WalOp.Begin(txn)
    case Running(txn) => op.txn == txn && !op.Begin?
    case _ => false
  }

  function AfterLog(op: WalOp): Phase {
    if op.Commit? || op.Abort? then Closing(op.txn) else Running(op.txn)
  }

  predicate Enabled(st: State, a: Action) {
    match a
    case Alloc(s) => PhaseOf(st, s) == Resting
    case TakeLsn(s, op) => s !in st.pending && MayLog(PhaseOf(st, s), op)
    case WriteFrame(s) => s in st.pending
  }

  function Next(st: State, a: Action): State
    requires Enabled(st, a)
  {
    match a
    case Alloc(s) => st.(phases := st.phases[s := Allocated(st.nextTxn)], nextTxn := st.nextTxn + 1)
    case TakeLsn(s, op) =>
      st.(lsn := st.lsn + 1, pending := st.pending[s := Entry(st.lsn + 1, op)], phases := st.phases[s := AfterLog(op)])
    case WriteFrame(s) =>
      st.(file := st.file + [st.pending[s]], pending := st.pending - {s},
          phases := if PhaseOf(st, s).Closing? then st.phases[s := Resting] else st.phases)
  }

  /** The state after an interleaving of all sessions' actions, if each was enabled. */
  function Interleaved(actions: seq<Action>): Option<State> {
    if actions == [] then Some(START)
    else
      var a := actions[|actions| - 1];
      match Interleaved(actions[..|actions| - 1])
      case None => None
      case Some(mid) => if Enabled(mid, a) then Some(Next(mid, a)) else None
  }

  // ---- The log a protocol run leaves.

  /** Within one transaction: LSN order is file order, Begin comes first and a terminator last. */
  ghost predicate PairOk(a: Entry, b: Entry) {
    a.op.txn == b.op.txn ==>
      a.lsn < b.lsn && !b.op.Begin? && !a.op.Commit? && !a.op.Abort?
  }

  ghost predicate BeginBefore(file: seq<Entry>, j: nat)
    requires j < |file|
  {
    file[j].op.Begin? || exists i :: 0 <= i < j && file[i].op == WalOp.Begin(file[j].op.txn)
  }

  ghost predicate WellFormed(file: seq<Entry>) {
    && DistinctKeys(file, Lsn)
    && (forall i, j :: 0 <= i < j < |file| ==> PairOk(file[i], file[j]))
    && (forall j :: 0 <= j < |file| ==> BeginBefore(file, j))
  }

  // ---- The invariant.

  /** What the file holds of the transaction a session is running. */
  ghost predicate SessionOk(st: State, s: SessionId) {
    var p := PhaseOf(st, s);
    && (p != Resting ==> p.txn < st.nextTxn)
    && (p.Resting? || p.Allocated? ==> s !in st.pending)
    && (p.Closing? ==> s in st.pending && st.pending[s].op.txn == p.txn)
    && (p.Allocated? ==> forall i :: 0 <= i < |st.file| ==> st.file[i].op.txn != p.txn)
    && (p.Running? && s in st.pending ==>
          st.pending[s].op.txn == p.txn && !st.pending[s].op.Commit? && !st.pending[s].op.Abort?)
    && (p.Running? || p.Closing? ==>
          && (forall i :: 0 <= i < |st.file| && st.file[i].op.txn == p.txn ==>
                !st.file[i].op.Commit? && !st.file[i].op.Abort?)
          && (if s in st.pending && st.pending[s].op.Begin?
              then forall i :: 0 <= i < |st.file| ==> st.file[i].op.txn != p.txn
              else exists i :: 0 <= i < |st.file| && st.file[i].op == WalOp.Begin(p.txn)))
    && (s in st.pending ==>
          && st.pending[s].lsn <= st.lsn
          && forall i :: 0 <= i < |st.file| ==>
               st.file[i].lsn != st.pending[s].lsn
               && (st.file[i].op.txn == st.pending[s].op.txn ==> st.file[i].lsn < st.pending[s].lsn))
  }

  ghost predicate Apart(st: State, s: SessionId, u: SessionId) {
    && (PhaseOf(st, s) != Resting && PhaseOf(st, u) != Resting ==> PhaseOf(st, s).txn != PhaseOf(st, u).txn)
    && (s in st.pending && u in st.pending ==> st.pending[s].lsn != st.pending[u].lsn)
  }

  ghost predicate ProtocolInv(st: State) {
    && WellFormed(st.file)
    && (forall i :: 0 <= i < |st.file| ==> st.file[i].lsn <= st.lsn && st.file[i].op.txn < st.nextTxn)
    && (forall s :: SessionOk(st, s))
    && (forall s, u :: s != u ==> Apart(st, s, u))
  }

  lemma AllocKeeps(st: State, s: SessionId)
    requires ProtocolInv(st) && Enabled(st, Alloc(s))
    ensures ProtocolInv(Next(st, Alloc(s)))
  {
    hide WellFormed;
    var st' := Next(st, Alloc(s));
    forall u ensures SessionOk(st', u) {
      assert SessionOk(st, u);
    }
    forall u, v | u != v ensures Apart(st', u, v) {
      assert Apart(st, u, v) && SessionOk(st, u) && SessionOk(st, v);
    }
  }

  lemma TakeKeeps(st: State, s: SessionId, op: WalOp)
    requires ProtocolInv(st) && Enabled(st, TakeLsn(s, op))
    ensures ProtocolInv(Next(st, TakeLsn(s, op)))
  {
    hide WellFormed;
    var st' := Next(st, TakeLsn(s, op));
    forall u ensures SessionOk(st', u) {
      assert SessionOk(st, u);
    }
    forall u, v | u != v ensures Apart(st', u, v) {
      assert Apart(st, u, v) && SessionOk(st, u) && SessionOk(st, v);
    }
  }

  lemma WriteKeeps(st: State, s: SessionId)
    requires ProtocolInv(st) && Enabled(st, WriteFrame(s))
    ensures ProtocolInv(Next(st, WriteFrame(s)))
  {
    var st' := Next(st, WriteFrame(s));
    assert SessionOk(st, s);
    AppendOk(st.file, st.pending[s]);
    hide WellFormed;
    forall u ensures SessionOk(st', u) {
      assert SessionOk(st, u) && (u != s ==> Apart(st, s, u));
      var p := PhaseOf(st', u);
      if p.Running? || p.Closing? {
        if u == s && st.pending[s].op.Begin? {
          assert st'.file[|st.file|].op == WalOp.Begin(p.txn);
        } else if !(u in st.pending && st.pending[u].op.Begin?) {
          var i :| 0 <= i < |st.file| && st.file[i].op == WalOp.Begin(p.txn);
          assert st'.file[i].op == WalOp.Begin(p.txn);
        }
      }
    }
    forall u, v | u != v ensures Apart(st', u, v) {
      assert Apart(st, u, v);
    }
  }

  lemma AppendOk(file: seq<Entry>, e: Entry)
    requires WellFormed(file)
    requires forall i :: 0 <= i < |file| ==> file[i].lsn != e.lsn && PairOk(file[i], e)
    requires e.op.Begin? || exists i :: 0 <= i < |file| && file[i].op == WalOp.Begin(e.op.txn)
    ensures WellFormed(file + [e])
  {
    hide PairOk;
    var file' := file + [e];
    SnocDistinct(file, e);
    forall j | 0 <= j < |file'| ensures BeginBefore(file', j) {
      if j < |file| {
        assert BeginBefore(file, j);
        if !file[j].op.Begin? {
          var i :| 0 <= i < j && file[i].op == WalOp.Begin(file[j].op.txn);
          assert file'[i].op == WalOp.Begin(file'[j].op.txn);
        }
      } else if !e.op.Begin? {
        var i :| 0 <= i < |file| && file[i].op == WalOp.Begin(e.op.txn);
        assert file'[i].op == WalOp.Begin(file'[j].op.txn);
      }
    }
  }

  /** Every log that any interleaving leaves behind is well-formed. */
  lemma {:induction false} EveryLogWellFormed(actions: seq<Action>)
    requires Interleaved(actions).Some?
    ensures ProtocolInv(Interleaved(actions).value)
  {
    hide Enabled, Next, ProtocolInv;
    if actions == [] {
      StartOk();
    } else {
      EveryLogWellFormed(actions[..|actions| - 1]);
      var mid := Interleaved(actions[..|actions| - 1]).value;
      match actions[|actions| - 1] {
        case Alloc(s) => AllocKeeps(mid, s);
        case TakeLsn(s, op) => TakeKeeps(mid, s, op);
        case WriteFrame(s) => WriteKeeps(mid, s);
      }
    }
  }

  lemma StartOk()
    ensures ProtocolInv(START)
  {
  }

  // ---- What replay makes of such a log.

  lemma WellFormedOneTerminator(file: seq<Entry>)
    requires WellFormed(file)
    ensures OneTerminator(file)
  {
    forall i, j, txn | 0 <= i < j < |file| && Terminates(file[i].op, txn)
      ensures !Terminates(file[j].op, txn)
    {
      assert PairOk(file[i], file[j]);
    }
  }

  lemma WellFormedPrefix(file: seq<Entry>, n: nat)
    requires WellFormed(file) && n <= |file|
    ensures WellFormed(file[..n])
  {
    hide PairOk;
    var cut := file[..n];
    forall j | 0 <= j < n ensures BeginBefore(cut, j) {
      assert BeginBefore(file, j);
      if !file[j].op.Begin? {
        var i :| 0 <= i < j && file[i].op == WalOp.Begin(file[j].op.txn);
        assert cut[i].op == WalOp.Begin(cut[j].op.txn);
      }
    }
  }

  /**
   Replaying any prefix of such a log, frames in any order, applies by increasing LSN exactly the
   data records of the transactions whose Commit is in the prefix.
   */
  lemma ReplayOfPrefix(actions: seq<Action>, n: nat, shuffled: seq<Entry>)
    requires Interleaved(actions).Some? && n <= |Interleaved(actions).value.file|
    requires multiset(shuffled) == multiset(Interleaved(actions).value.file[..n])
    ensures var cut := Interleaved(actions).value.file[..n];
      && StrictlySortedBy(ToApply(cut), Lsn)
      && (forall e :: e in ToApply(cut) <==> e in cut && e.op.IsDataOp() && HasCommit(cut, e.op.txn))
      && ToApply(shuffled) == ToApply(cut)
  {
    hide WellFormed, HasCommit, Interleaved, ToApply, OneTerminator, CommittedData;
    EveryLogWellFormed(actions);
    var cut := Interleaved(actions).value.file[..n];
    WellFormedPrefix(Interleaved(actions).value.file, n);
    ReplayOfWellFormed(cut);
    WellFormedDistinct(cut);
    WellFormedOneTerminator(cut);
    PermutedOk(cut, shuffled);
    FileOrderIrrelevant(shuffled, cut);
  }

  lemma {:induction false} OccursOnce(s: seq<Entry>, e: Entry)
    requires DistinctKeys(s, Lsn)
    ensures multiset(s)[e] <= 1
  {
    if s != [] {
      var init, last := s[..|s| - 1], s[|s| - 1];
      assert s == init + [last];
      assert DistinctKeys(init, Lsn);
      OccursOnce(init, e);
      if e == last {
        forall i | 0 <= i < |init| ensures init[i] != e {
          assert Lsn(s[i]) != Lsn(s[|s| - 1]);
        }
        assert e !in multiset(init);
      }
    }
  }

  lemma OccursTwice(s: seq<Entry>, i: nat, j: nat)
    requires i < j < |s| && s[i] == s[j]
    ensures multiset(s)[s[i]] >= 2
  {
    assert s == s[..j] + s[j..];
    assert s[..j][i] in multiset(s[..j]) && s[j..][0] in multiset(s[j..]);
  }

  lemma PermutedOk(cut: seq<Entry>, shuffled: seq<Entry>)
    requires DistinctKeys(cut, Lsn) && OneTerminator(cut) && multiset(shuffled) == multiset(cut)
    ensures DistinctKeys(shuffled, Lsn) && OneTerminator(shuffled)
    ensures forall e :: e in shuffled <==> e in cut
  {
    forall e ensures e in shuffled <==> e in cut {
      assert e in shuffled <==> e in multiset(shuffled);
      assert e in cut <==> e in multiset(cut);
    }
    forall i, j | 0 <= i < j < |shuffled|
      ensures Lsn(shuffled[i]) != Lsn(shuffled[j])
      ensures forall txn :: Terminates(shuffled[i].op, txn) ==> !Terminates(shuffled[j].op, txn)
    {
      PairApart(cut, shuffled, i, j);
    }
  }

  lemma PairApart(cut: seq<Entry>, shuffled: seq<Entry>, i: nat, j: nat)
    requires DistinctKeys(cut, Lsn) && OneTerminator(cut) && multiset(shuffled) == multiset(cut)
    requires i < j < |shuffled| && shuffled[i] in cut && shuffled[j] in cut
    ensures Lsn(shuffled[i]) != Lsn(shuffled[j])
    ensures forall txn :: Terminates(shuffled[i].op, txn) ==> !Terminates(shuffled[j].op, txn)
  {
    OccursOnce(cut, shuffled[i]);
    if shuffled[i] == shuffled[j] {
      OccursTwice(shuffled, i, j);
    }
    var p :| 0 <= p < |cut| && cut[p] == shuffled[i];
    var q :| 0 <= q < |cut| && cut[q] == shuffled[j];
    assert Lsn(cut[p]) != Lsn(cut[q]);
  }

  lemma WellFormedDistinct(file: seq<Entry>)
    requires WellFormed(file)
    ensures DistinctKeys(file, Lsn)
  {
  }

  lemma ReplayOfWellFormed(file: seq<Entry>)
    requires WellFormed(file)
    ensures StrictlySortedBy(ToApply(file), Lsn)
    ensures forall e :: e in ToApply(file) <==> e in file && e.op.IsDataOp() && HasCommit(file, e.op.txn)
  {
    hide HasCommit, Selected, SortByKey, StrictlySortedBy, OneTerminator, Committed;
    WellFormedOneTerminator(file);
    var s := CommittedData(file);
    SelectedElements(file, file);
    SelectedDistinct(file, file);
    SortDistinct(s, Lsn);
    SortByKeySorts(s, Lsn);
    forall e ensures e in ToApply(file) <==> e in file && e.op.IsDataOp() && HasCommit(file, e.op.txn) {
      assert e in ToApply(file) <==> e in multiset(ToApply(file));
      assert e in s <==> e in multiset(s);
      if e.op.IsDataOp() {
        CommittedHasCommit(file, e.op.txn);
      }
    }
  }

  /**
   Atomicity under interleaving: a prefix that holds a transaction's Commit holds all of its
   records.
   */
  lemma CommitBringsAll(file: seq<Entry>, n: nat, txn: TxnId)
    requires WellFormed(file) && n <= |file| && HasCommit(file[..n], txn)
    ensures forall i :: 0 <= i < |file| && file[i].op.txn == txn ==> i < n
  {
    var k :| 0 <= k < n && file[..n][k].op == WalOp.Commit(txn);
    forall i | 0 <= i < |file| && file[i].op.txn == txn ensures i < n {
      if i > k {
        assert PairOk(file[k], file[i]);
      }
    }
  }

  // ---- No record is lost and none is made up.

  /** The records of the actions, numbered in the order in which they took their LSN. */
  function Issued(actions: seq<Action>): seq<Entry> {
    if actions == [] then []
    else
      var before := Issued(actions[..|actions| - 1]);
      match actions[|actions| - 1]
      case TakeLsn(_, op) => before + [Entry(|before| + 1, op)]
      case _ => before
  }

  ghost predicate IsPending(st: State, e: Entry) {
    exists s :: s in st.pending && st.pending[s] == e
  }

  /** Every record of the actions is in the file or on its way there, once, and nothing else is. */
  lemma {:induction false} FileHoldsIssued(actions: seq<Action>)
    requires Interleaved(actions).Some?
    ensures var st := Interleaved(actions).value;
      && st.lsn == |Issued(actions)|
      && (forall e :: e in Issued(actions) <==> e in st.file || IsPending(st, e))
      && DistinctKeys(st.file, Lsn)
  {
    hide Enabled;
    EveryLogWellFormed(actions);
    if actions != [] {
      var init, a := actions[..|actions| - 1], actions[|actions| - 1];
      FileHoldsIssued(init);
      IssuedStep(Interleaved(init).value, Issued(init), a, Issued(actions));
    }
  }

  lemma IssuedStep(st: State, before: seq<Entry>, a: Action, after: seq<Entry>)
    requires Enabled(st, a)
    requires after == if a.TakeLsn? then before + [Entry(st.lsn + 1, a.op)] else before
    requires forall e :: e in before <==> e in st.file || IsPending(st, e)
    ensures forall e :: e in after <==> e in Next(st, a).file || IsPending(Next(st, a), e)
  {
    var st' := Next(st, a);
    forall e ensures e in after <==> e in st'.file || IsPending(st', e) {
      if IsPending(st, e) {
        var s :| s in st.pending && st.pending[s] == e;
        assert (s in st'.pending && st'.pending[s] == e) || (a.WriteFrame? && a.s == s && e in st'.file);
      }
      if IsPending(st', e) {
        var s :| s in st'.pending && st'.pending[s] == e;
        assert (s in st.pending && st.pending[s] == e) || (a.TakeLsn? && a.s == s);
      }
      if a.TakeLsn? {
        assert st'.pending[a.s] == Entry(st.lsn + 1, a.op);
      }
    }
  }
}

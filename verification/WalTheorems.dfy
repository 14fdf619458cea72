/** What the WAL engine guarantees, stated over every run. */
module WalTheorems {
  import opened Common
  import opened WalLog
  import opened WalAccounts
  import opened WalMachine
  import opened WalRecovery

  // ---------------------------------------------------------------------
  // Invariants of every run
  // ---------------------------------------------------------------------

  predicate OfTransaction(a: Action) {
    a.DoBegin? || a.DoLogWrite? || a.DoApplyWrite? || a.DoCommit? || a.DoAbort? || a.DoUndo? || a.DoLogUndo? || a.DoAbortEnd?
  }

  lemma SoundTransaction(s: State, a: Action)
    requires Sound(s) && Enabled(s, a) && OfTransaction(a)
    ensures Sound(Do(s, a))
  {
    match a {
      case DoBegin => SoundBegin(s, a);
      case DoLogWrite(_, _, _) => SoundLogWrite(s, a);
      case DoApplyWrite => SoundApplyWrite(s, a);
      case DoCommit(_) => SoundCommit(s, a);
      case DoAbort(_) => SoundAbort(s, a);
      case DoUndo => SoundUndo(s, a);
      case DoLogUndo => SoundLogUndo(s, a);
      case DoAbortEnd => SoundAbortEnd(s, a);
    }
  }

  lemma SoundStep(s: State, a: Action)
    requires Sound(s) && Enabled(s, a)
    ensures Sound(Do(s, a))
  {
    if OfTransaction(a) {
      SoundTransaction(s, a);
      return;
    }
    match a {
      case DoFlush(_) => SoundFlush(s, a);
      case DoCheckpointBegin => SoundCheckpointBegin(s, a);
      case DoListActive => SoundListActive(s, a);
      case DoCheckpointEnd => SoundCheckpointEnd(s, a);
      case DoPoint => SoundPoint(s, a);
      case DoCrash(_) => SoundCrash(s, a);
      case DoAnalyze => SoundAnalyze(s, a);
      case DoRedo => SoundRedo(s, a);
      case DoRedoEnd => SoundRedoEnd(s, a);
      case DoPick(_) => SoundPick(s, a);
      case DoWalk => SoundWalk(s, a);
      case DoCompensate => SoundCompensate(s, a);
      case DoLogCompensation => SoundLogCompensation(s, a);
      case DoWalkEnd => SoundWalkEnd(s, a);
      case DoRecovered => SoundRecovered(s, a);
    }
  }

  lemma SoundInitial()
    ensures Sound(Initial)
  {
    var s := Initial;
    assert Linked(s.log);
    forall k ensures DiskKeyOk(s.log, RedoFrom(s), s.active.Keys, s.versions[0], k) {
    }
  }

  lemma {:induction false} RunSound(s: State, acts: seq<Action>)
    requires Sound(s) && ExecFrom(s, acts).Some?
    ensures Sound(ExecFrom(s, acts).value)
    decreases |acts|
  {
    if acts != [] {
      RunSound(s, acts[..|acts| - 1]);
      SoundStep(ExecFrom(s, acts[..|acts| - 1]).value, acts[|acts| - 1]);
    }
  }

  /** The ledger holds, for each running transaction, exactly its pending writes. */
  ghost predicate Booked(log: seq<Record>, t: TxnId) {
    OpenOf(Ledger(log), t) == Writes(StackOf(Stacks(log), t))
  }

  ghost predicate Valued(s: State) {
    && Accounted(s.log)
    && forall t {:trigger Booked(s.log, t)} | t in s.active :: Booked(s.log, t)
  }

  /** The record an action appends to the log, if any. */
  ghost function Appends(s: State, a: Action): Option<Record>
    requires Enabled(s, a)
  {
    match a
    case DoBegin => Some(Begin(s.next))
    case DoLogWrite(t, key, op) => Some(UpdateRecord(s, t, key, op))
    case DoCommit(t) => Some(Commit(t, s.active[t].last))
    case DoAbort(t) => Some(Abort(t, s.active[t].last))
    case DoLogUndo =>
      var e := s.phase.undo[|s.phase.undo| - 1];
      Some(Clr(s.phase.txn, s.phase.last, Compensation(e.op, e.prior), e.key, e.undoNext))
    case DoCheckpointBegin => Some(CheckpointBegin)
    case DoListActive => Some(ActiveTxn(s.phase.todo[0], s.active[s.phase.todo[0]].last))
    case DoCheckpointEnd => Some(CheckpointEnd)
    case DoLogCompensation =>
      var r := s.log[s.phase.lsn];
      Some(Clr(s.phase.txn, -1, Compensation(r.op, r.prior), r.key, r.prev))
    case _ => None
  }

  lemma LogOf(s: State, a: Action)
    requires Enabled(s, a)
    ensures Do(s, a).log == match Appends(s, a) case Some(r) => s.log + [r] case None => s.log
  {
  }

  /** Every record the engine appends is honest, unless it is a dirty write. */
  lemma RecordHonest(s: State, a: Action)
    requires Sound(s) && Valued(s) && Enabled(s, a) && !DirtyWrite(s, a) && Appends(s, a).Some?
    ensures Honest(s.log, Appends(s, a).value)
  {
    match a {
      case DoBegin =>
        assert s.next in s.active ==> RunningOk(s.log, s.active, s.next, s.next);
        assert Spent(s.log, s.next);
      case DoLogWrite(t, key, op) =>
        assert RunningOk(s.log, s.active, s.next, t);
        forall u | u in Stacks(s.log) && u != t ensures !Dirty(Stacks(s.log)[u], key) {
          if u in s.active {
            assert RunningOk(s.log, s.active, s.next, u);
          } else {
            assert Spent(s.log, u);
          }
        }
      case DoCommit(t) =>
        assert RunningOk(s.log, s.active, s.next, t);
        assert Booked(s.log, t);
      case DoLogCompensation =>
        var u := s.log[s.phase.lsn];
        assert StackOf(Stacks(s.log), s.phase.txn) == Chain(s.log, u.prev) + [EntryOf(u)];
      case _ =>
    }
  }

  /** Ledger and stack of a transaction move together. */
  lemma BookedRecord(log: seq<Record>, r: Record, t: TxnId)
    requires r == Begin(t) || Booked(log, t)
    requires (r.Commit? || r.Clr? || r.Abort?) ==> r.txn != t
    ensures Booked(log + [r], t)
  {
    Appended(log, r);
    if r.Update? && r.txn == t {
      DropLast(StackOf(Stacks(log), t), EntryOf(r));
    }
  }

  lemma BookedStep(s: State, a: Action, t: TxnId)
    requires Sound(s) && Valued(s) && Enabled(s, a) && Appends(s, a).Some? && t in Do(s, a).active
    ensures Booked(s.log + [Appends(s, a).value], t)
  {
    if t in s.active {
      assert Booked(s.log, t) && RunningOk(s.log, s.active, s.next, t);
    }
    BookedRecord(s.log, Appends(s, a).value, t);
  }

  lemma ValuedStep(s: State, a: Action)
    requires Sound(s) && Valued(s) && Enabled(s, a) && !DirtyWrite(s, a)
    ensures Valued(Do(s, a))
  {
    var s' := Do(s, a);
    LogOf(s, a);
    if Appends(s, a).Some? {
      RecordHonest(s, a);
      AccountedStep(s.log, Appends(s, a).value);
      forall t | t in s'.active ensures Booked(s'.log, t) {
        BookedStep(s, a, t);
      }
    } else {
      forall t | t in s'.active ensures Booked(s'.log, t) {
        assert t in s.active && Booked(s.log, t);
      }
    }
  }

  lemma {:induction false} RunValued(s: State, acts: seq<Action>)
    requires Sound(s) && Valued(s) && ExecFrom(s, acts).Some? && DisciplinedFrom(s, acts)
    ensures Valued(ExecFrom(s, acts).value)
    decreases |acts|
  {
    if acts != [] {
      RunSound(s, acts[..|acts| - 1]);
      RunValued(s, acts[..|acts| - 1]);
      ValuedStep(ExecFrom(s, acts[..|acts| - 1]).value, acts[|acts| - 1]);
    }
  }

  lemma ValuedInitial()
    ensures Valued(Initial)
  {
  }

  // ---------------------------------------------------------------------
  // Guarantees
  // ---------------------------------------------------------------------

  /** Between calls, the tree shows the committed value of every key, except where
      a running transaction has written: there it shows that write. */
  lemma TreeShows(acts: seq<Action>, k: Key)
    requires Exec(acts).Some? && Disciplined(acts) && Exec(acts).value.phase.Idle?
    ensures var s := Exec(acts).value;
            && (forall t | t in s.active && Dirty(s.active[t].undo, k) ::
                  Get(s.tree, k) == Top(s.active[t].undo, k, None))
            && ((forall t | t in s.active :: !Dirty(s.active[t].undo, k)) ==>
                  Get(s.tree, k) == Get(Committed(s.log), k))
  {
    SoundInitial();
    ValuedInitial();
    RunSound(Initial, acts);
    RunValued(Initial, acts);
    var s := Exec(acts).value;
    var stacks, base := Stacks(s.log), Committed(s.log);
    assert KeyOk(stacks, base, Replay(s.log), k);
    forall t | t in s.active ensures t in stacks && stacks[t] == s.active[t].undo {
      assert RunningOk(s.log, s.active, s.next, t);
    }
    forall t | t in s.active && Dirty(s.active[t].undo, k)
      ensures Get(s.tree, k) == Top(s.active[t].undo, k, None)
    {
      assert Dirty(stacks[t], k);
      TopDirty(stacks[t], k, Get(base, k), None);
    }
    if forall t | t in s.active :: !Dirty(s.active[t].undo, k) {
      forall t | t in stacks ensures !Dirty(stacks[t], k) {
        if t !in s.active { assert Spent(s.log, t); }
      }
    }
  }

  /** With no transaction running, the tree is exactly the committed map. */
  lemma IdleTreeIsCommitted(acts: seq<Action>)
    requires Exec(acts).Some? && Disciplined(acts)
    requires Exec(acts).value.phase.Idle? && Exec(acts).value.active == map[]
    ensures Exec(acts).value.tree == Committed(Exec(acts).value.log)
  {
    var s := Exec(acts).value;
    forall k ensures Get(s.tree, k) == Get(Committed(s.log), k) {
      TreeShows(acts, k);
    }
    GetEqual(s.tree, Committed(s.log));
  }

  /** Only a COMMIT changes the committed map, and it applies the whole
      transaction at once. */
  lemma CommitIsAtomic(s: State, a: Action)
    requires Enabled(s, a)
    ensures Committed(Do(s, a).log) ==
            if a.DoCommit? then ApplyAll(Committed(s.log), OpenOf(Ledger(s.log), a.txn)) else Committed(s.log)
  {
    LogOf(s, a);
    if Appends(s, a).Some? {
      Appended(s.log, Appends(s, a).value);
    }
  }

  lemma {:induction false} CommittedStays(s: State, acts: seq<Action>)
    requires ExecFrom(s, acts).Some? && forall i | 0 <= i < |acts| :: !acts[i].DoCommit?
    ensures Committed(ExecFrom(s, acts).value.log) == Committed(s.log)
    decreases |acts|
  {
    if acts != [] {
      CommittedStays(s, acts[..|acts| - 1]);
      CommitIsAtomic(ExecFrom(s, acts[..|acts| - 1]).value, acts[|acts| - 1]);
    }
  }

  /** Crash recovery. Take any run, cut off at any point; let anything but a
      commit happen after it: crashes, recoveries that are themselves cut off,
      aborts. Once the engine stands idle with no transaction running, its tree is
      the map of the transactions whose COMMIT was logged before the cut. */
  lemma CrashKeepsExactlyTheCommitted(acts: seq<Action>, rest: seq<Action>)
    requires Exec(acts + rest).Some? && Disciplined(acts + rest)
    requires forall i | 0 <= i < |rest| :: !rest[i].DoCommit?
    requires Exec(acts + rest).value.phase.Idle? && Exec(acts + rest).value.active == map[]
    ensures Exec(acts).Some?
    ensures Exec(acts + rest).value.tree == Committed(Exec(acts).value.log)
  {
    ExecPrefix(Initial, acts, rest);
    ExecAppend(Initial, acts, rest);
    CommittedStays(Exec(acts).value, rest);
    IdleTreeIsCommitted(acts + rest);
  }
}

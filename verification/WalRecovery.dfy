/**
 Safety of the WAL engine over whole runs, with crashes at any point: during a
 write, an abort, a checkpoint, or an earlier recovery.
 */
module WalRecovery {
  import opened Common
  import opened WalLog
  import opened WalAccounts
  import opened WalMachine

  // ---------------------------------------------------------------------
  // The invariant
  // ---------------------------------------------------------------------

  /** Analysis from the checkpoint finds the same chains as analysis from LSN 0,
      but for transactions that have nothing left to undo. */
  ghost predicate AnalysisAgrees(log: seq<Record>, start: Start)
    requires start.redoFrom <= |log|
  {
    forall t {:trigger LoserAgrees(log, start, t)} :: LoserAgrees(log, start, t)
  }

  ghost predicate LoserAgrees(log: seq<Record>, start: Start, t: TxnId)
    requires start.redoFrom <= |log|
  {
    var found := Get(Losers(log, start), t);
    found == Get(Full(log), t) || (found == None && Spent(log, t))
  }

  /** Transaction `t` has nothing left to undo. */
  ghost predicate Spent(log: seq<Record>, t: TxnId) {
    StackOf(Stacks(log), t) == []
  }

  ghost predicate CheckpointOk(log: seq<Record>, checkpoint: int) {
    && (checkpoint == -1 || (0 <= checkpoint < |log| && log[checkpoint].CheckpointBegin?
                             && ScanBracket(log, checkpoint + 1, []).Some?))
    && AnalysisAgrees(log, ReadCheckpoint(log, checkpoint))
  }

  predicate Touched(log: seq<Record>, from: nat, k: Key) {
    exists i :: from <= i < |log| && Redoable(log[i]) && log[i].key == k
  }

  /** Some transaction that is no longer running has yet to compensate `k`. */
  ghost predicate Orphaned(stacks: map<TxnId, seq<UndoEntry>>, active: set<TxnId>, k: Key) {
    exists t :: t in stacks && t !in active && Dirty(stacks[t], k)
  }

  /** What may be on disk for `k` is what redo needs to find there: redo sets `k`
      anyway, or the value is current, or undo will set `k`. */
  ghost predicate DiskKeyOk(log: seq<Record>, from: nat, active: set<TxnId>, table: Table, k: Key) {
    || Touched(log, from, k)
    || Get(table, k) == Get(Replay(log), k)
    || Orphaned(Stacks(log), active, k)
  }

  ghost predicate DiskOk(log: seq<Record>, from: nat, active: set<TxnId>, versions: seq<Table>) {
    forall i, k {:trigger DiskKeyOk(log, from, active, versions[i], k)} | 0 <= i < |versions| ::
      DiskKeyOk(log, from, active, versions[i], k)
  }

  ghost predicate ActiveOk(log: seq<Record>, active: map<TxnId, TxnState>, next: TxnId) {
    0 <= next && forall t {:trigger RunningOk(log, active, next, t)} | t in active :: RunningOk(log, active, next, t)
  }

  ghost predicate RunningOk(log: seq<Record>, active: map<TxnId, TxnState>, next: TxnId, t: TxnId)
    requires t in active
  {
    && 0 <= t < next
    && t in Full(log) && Full(log)[t] == active[t].last
    && t in Stacks(log) && Stacks(log)[t] == active[t].undo
  }

  /** Only transactions in `live` have anything left to undo. */
  ghost predicate Settled(log: seq<Record>, live: set<TxnId>) {
    forall t {:trigger Spent(log, t)} | t !in live :: Spent(log, t)
  }

  ghost predicate TreeOk(log: seq<Record>, tree: Table) {
    forall k {:trigger TreeKeyOk(log, tree, k)} :: TreeKeyOk(log, tree, k)
  }

  ghost predicate TreeKeyOk(log: seq<Record>, tree: Table, k: Key) {
    Get(tree, k) == Get(Replay(log), k) || Orphaned(Stacks(log), {}, k)
  }

  ghost predicate LosersOk(log: seq<Record>, losers: LastLsn)
    requires Linked(log)
  {
    forall t {:trigger LoserOk(log, losers[t], t)} | t in losers :: LoserOk(log, losers[t], t)
  }

  ghost predicate LoserOk(log: seq<Record>, lsn: int, t: TxnId)
    requires Linked(log)
  {
    -1 <= lsn < |log| && Chain(log, lsn) == StackOf(Stacks(log), t)
  }

  ghost predicate WalkOk(s: State, txn: TxnId, lsn: int, losers: LastLsn)
    requires Linked(s.log)
  {
    && s.active == map[]
    && TreeOk(s.log, s.tree)
    && LosersOk(s.log, losers)
    && txn !in losers
    && LoserOk(s.log, lsn, txn)
    && Settled(s.log, losers.Keys + {txn})
  }

  ghost predicate BracketOk(s: State, begin: int, done: seq<TxnId>)
  {
    && 0 <= begin && |s.log| == begin + 1 + |done|
    && s.log[begin].CheckpointBegin?
    && forall i | 0 <= i < |done| ::
         done[i] in s.active && s.log[begin + 1 + i] == ActiveTxn(done[i], s.active[done[i]].last)
  }

  ghost predicate Quiet(s: State) {
    s.tree == Replay(s.log) && Settled(s.log, s.active.Keys)
  }

  ghost predicate PhaseOk(s: State)
    requires Linked(s.log) && s.versions != []
  {
    match s.phase
    case Idle => Quiet(s)
    case Writing(key, op) =>
      && Apply(s.tree, key, op) == Replay(s.log)
      && Settled(s.log, s.active.Keys)
      && Touched(s.log, RedoFrom(s), key)
    case Aborting(txn, undo, last, applied) =>
      && txn !in s.active
      && txn in Stacks(s.log) && Stacks(s.log)[txn] == undo
      && Settled(s.log, s.active.Keys + {txn})
      && (applied ==> undo != [])
      && (if applied
          then var e := undo[|undo| - 1];
               s.tree == Apply(Replay(s.log), e.key, Compensation(e.op, e.prior))
          else s.tree == Replay(s.log))
    case Flushed(order) => Quiet(s) && s.versions == [s.tree] && Lists(order, s.active.Keys)
    case Listing(begin, done, todo) =>
      && Quiet(s) && s.versions == [s.tree]
      && BracketOk(s, begin, done)
      && Lists(done + todo, s.active.Keys)
    case Listed(begin) =>
      && Quiet(s) && s.versions == [s.tree]
      && 0 <= begin < |s.log| && s.log[begin].CheckpointBegin?
      && ScanBracket(s.log, begin + 1, []).Some?
      && var seeds := SeedMap(ScanBracket(s.log, begin + 1, []).value);
         && seeds.Keys == s.active.Keys
         && forall t | t in seeds :: seeds[t] == s.active[t].last
    case Booting => s.active == map[] && s.versions == [s.tree]
    case Redoing(at, losers) =>
      var start := ReadCheckpoint(s.log, s.checkpoint);
      && s.active == map[] && s.log != []
      && start.redoFrom <= at <= |s.log|
      && losers == Losers(s.log, start)
      && s.tree == Redo(s.log[..at], start.redoFrom, s.versions[0])
    case Undoing(losers) =>
      && s.active == map[]
      && TreeOk(s.log, s.tree)
      && LosersOk(s.log, losers)
      && Settled(s.log, losers.Keys)
    case Walking(txn, lsn, losers) => WalkOk(s, txn, lsn, losers)
    case Compensated(txn, lsn, losers) =>
      && WalkOk(s, txn, lsn, losers)
      && 0 <= lsn && s.log[lsn].Update?
      && Get(s.tree, s.log[lsn].key) == After(Compensation(s.log[lsn].op, s.log[lsn].prior))
  }

  ghost predicate Core(s: State) {
    && Structured(s.log)
    && CheckpointOk(s.log, s.checkpoint)
    && s.versions != [] && s.versions[|s.versions| - 1] == s.tree
    && DiskOk(s.log, RedoFrom(s), s.active.Keys, s.versions)
    && ActiveOk(s.log, s.active, s.next)
  }

  function RedoFrom(s: State): (r: nat)
    ensures r <= |s.log|
  {
    ReadCheckpoint(s.log, s.checkpoint).redoFrom
  }

  ghost predicate Sound(s: State) {
    Core(s) && PhaseOk(s)
  }

  // ---------------------------------------------------------------------
  // Appending to the log
  // ---------------------------------------------------------------------

  /** A complete bracket reads the same however the log goes on. */
  lemma {:induction false} BracketStable(log: seq<Record>, r: Record, lsn: nat, found: Pairs)
    requires ScanBracket(log, lsn, found).Some?
    ensures ScanBracket(log + [r], lsn, found) == ScanBracket(log, lsn, found)
    decreases |log| - lsn
  {
    assert (log + [r])[lsn] == log[lsn];
    if log[lsn].ActiveTxn? {
      BracketStable(log, r, lsn + 1, found + [(log[lsn].activeTxn, log[lsn].activeLast)]);
    }
  }

  lemma LogGrows(log: seq<Record>, r: Record, checkpoint: int)
    requires Structured(log) && Lawful(log, r) && CheckpointOk(log, checkpoint)
    ensures Structured(log + [r])
    ensures ReadCheckpoint(log + [r], checkpoint) == ReadCheckpoint(log, checkpoint)
    ensures CheckpointOk(log + [r], checkpoint)
  {
    StructuredStep(log, r);
    if checkpoint >= 0 {
      BracketStable(log, r, checkpoint + 1, []);
      assert (log + [r])[checkpoint] == log[checkpoint];
    }
    Appended(log, r);
    var start := ReadCheckpoint(log, checkpoint);
    assert Losers(log + [r], start) == AnalyzeStep(Losers(log, start), r, |log|);
    forall t ensures LoserAgrees(log + [r], start, t) {
      assert LoserAgrees(log, start, t);
    }
  }

  lemma TouchedGrows(log: seq<Record>, r: Record, from: nat, k: Key)
    requires from <= |log|
    ensures Touched(log + [r], from, k) <==> Touched(log, from, k) || (Redoable(r) && r.key == k)
  {
    var log' := log + [r];
    if Redoable(r) && r.key == k {
      assert Redoable(log'[|log|]) && log'[|log|].key == k;
    }
    if Touched(log, from, k) {
      var i :| from <= i < |log| && Redoable(log[i]) && log[i].key == k;
      assert log'[i] == log[i];
    }
  }

  lemma DiskGrows(log: seq<Record>, r: Record, from: nat, active: set<TxnId>, active': set<TxnId>, versions: seq<Table>)
    requires from <= |log| && DiskOk(log, from, active, versions)
    requires forall k | Orphaned(Stacks(log), active, k) ::
               Orphaned(Stacks(log + [r]), active', k) || (Redoable(r) && r.key == k)
    ensures DiskOk(log + [r], from, active', versions)
  {
    Appended(log, r);
    forall i, k | 0 <= i < |versions| ensures DiskKeyOk(log + [r], from, active', versions[i], k) {
      assert DiskKeyOk(log, from, active, versions[i], k);
      TouchedGrows(log, r, from, k);
    }
  }

  /** Orphaned keys stay so when the stacks of other transactions change. */
  lemma OrphansKept(stacks: map<TxnId, seq<UndoEntry>>, stacks': map<TxnId, seq<UndoEntry>>,
                    active: set<TxnId>, active': set<TxnId>)
    requires forall t | t in stacks && t !in active && stacks[t] != [] ::
               t in stacks' && t !in active' && stacks'[t] == stacks[t]
    ensures forall k | Orphaned(stacks, active, k) :: Orphaned(stacks', active', k)
  {
    forall k | Orphaned(stacks, active, k) ensures Orphaned(stacks', active', k) {
      var t :| t in stacks && t !in active && Dirty(stacks[t], k);
      assert t in stacks' && t !in active' && Dirty(stacks'[t], k);
    }
  }

  /** Appending a lawful record that strands no orphaned key keeps everything that
      does not depend on the call in progress. */
  lemma CoreAppend(s: State, r: Record, s': State)
    requires Core(s) && Lawful(s.log, r)
    requires s'.log == s.log + [r] && s'.checkpoint == s.checkpoint
    requires s'.tree == s.tree && s'.versions == s.versions
    requires forall k | Orphaned(Stacks(s.log), s.active.Keys, k) ::
               Orphaned(Stacks(s'.log), s'.active.Keys, k) || (Redoable(r) && r.key == k)
    requires ActiveOk(s'.log, s'.active, s'.next)
    ensures Core(s') && RedoFrom(s') == RedoFrom(s)
  {
    LogGrows(s.log, r, s.checkpoint);
    DiskGrows(s.log, r, RedoFrom(s), s.active.Keys, s'.active.Keys, s.versions);
  }

  /** Changing the tree is safe if redo or undo will set right what is not
      already right. */
  lemma CoreTree(s: State, s': State)
    requires Core(s)
    requires s'.log == s.log && s'.checkpoint == s.checkpoint && s'.active == s.active && s'.next == s.next
    requires s'.versions == s.versions + [s'.tree]
    requires forall k :: DiskKeyOk(s.log, RedoFrom(s), s.active.Keys, s'.tree, k)
    ensures Core(s')
  {
    forall i, k | 0 <= i < |s'.versions| ensures DiskKeyOk(s.log, RedoFrom(s), s.active.Keys, s'.versions[i], k) {
      if i < |s.versions| {
        assert DiskKeyOk(s.log, RedoFrom(s), s.active.Keys, s.versions[i], k);
      }
    }
  }

  /** Only the transaction named in a record changes its place in the books. */
  lemma OtherUnchanged(log: seq<Record>, r: Record, t: TxnId)
    requires (r.Begin? || r.Update? || r.Clr? || r.Commit?) ==> r.txn != t
    ensures Get(Full(log + [r]), t) == Get(Full(log), t)
    ensures Get(Stacks(log + [r]), t) == Get(Stacks(log), t)
    ensures Spent(log, t) ==> Spent(log + [r], t)
  {
    Appended(log, r);
  }

  lemma RunningStep(log: seq<Record>, r: Record, active: map<TxnId, TxnState>, next: TxnId, t: TxnId)
    requires ActiveOk(log, active, next) && t in active
    requires (r.Begin? || r.Update? || r.Clr? || r.Commit?) ==> r.txn != t
    ensures RunningOk(log + [r], active, next, t)
  {
    assert RunningOk(log, active, next, t);
    OtherUnchanged(log, r, t);
  }

  lemma SettledStep(log: seq<Record>, r: Record, live: set<TxnId>, live': set<TxnId>)
    requires Settled(log, live)
    requires forall t | t !in live' ::
               Spent(log + [r], t) || (t !in live && ((r.Begin? || r.Update? || r.Clr? || r.Commit?) ==> r.txn != t))
    ensures Settled(log + [r], live')
  {
    forall t | t !in live' ensures Spent(log + [r], t) {
      if t !in live {
        assert Spent(log, t);
        if (r.Begin? || r.Update? || r.Clr? || r.Commit?) ==> r.txn != t { OtherUnchanged(log, r, t); }
      }
    }
  }

  // ---------------------------------------------------------------------
  // Every action keeps the invariant
  // ---------------------------------------------------------------------

  lemma SoundBegin(s: State, a: Action)
    requires Sound(s) && Enabled(s, a) && a.DoBegin?
    ensures Sound(Do(s, a))
  {
    var r, s' := Begin(s.next), Do(s, a);
    Appended(s.log, r);
    assert s.next !in s.active by {
      assert s.next in s.active ==> RunningOk(s.log, s.active, s.next, s.next);
    }
    assert Spent(s.log, s.next);
    OrphansKept(Stacks(s.log), Stacks(s'.log), s.active.Keys, s'.active.Keys);
    forall t | t in s'.active ensures RunningOk(s'.log, s'.active, s'.next, t) {
      if t != s.next { RunningStep(s.log, r, s.active, s.next, t); }
    }
    CoreAppend(s, r, s');
    SettledStep(s.log, r, s.active.Keys, s'.active.Keys);
  }

  lemma SoundLogWrite(s: State, a: Action)
    requires Sound(s) && Enabled(s, a) && a.DoLogWrite?
    ensures Sound(Do(s, a))
  {
    var r, s' := UpdateRecord(s, a.txn, a.key, a.op), Do(s, a);
    Appended(s.log, r);
    assert RunningOk(s.log, s.active, s.next, a.txn);
    OrphansKept(Stacks(s.log), Stacks(s'.log), s.active.Keys, s'.active.Keys);
    forall t | t in s'.active ensures RunningOk(s'.log, s'.active, s'.next, t) {
      if t != a.txn { RunningStep(s.log, r, s.active, s.next, t); }
    }
    CoreAppend(s, r, s');
    SettledStep(s.log, r, s.active.Keys, s'.active.Keys);
    TouchedGrows(s.log, r, RedoFrom(s), a.key);
  }

  lemma SoundApplyWrite(s: State, a: Action)
    requires Sound(s) && Enabled(s, a) && a.DoApplyWrite?
    ensures Sound(Do(s, a))
  {
    CoreTree(s, Do(s, a));
  }

  lemma SoundCommit(s: State, a: Action)
    requires Sound(s) && Enabled(s, a) && a.DoCommit?
    ensures Sound(Do(s, a))
  {
    var r, s' := Commit(a.txn, s.active[a.txn].last), Do(s, a);
    Appended(s.log, r);
    assert RunningOk(s.log, s.active, s.next, a.txn);
    assert TxnOk(s.log, a.txn);
    OrphansKept(Stacks(s.log), Stacks(s'.log), s.active.Keys, s'.active.Keys);
    forall t | t in s'.active ensures RunningOk(s'.log, s'.active, s'.next, t) {
      RunningStep(s.log, r, s.active, s.next, t);
    }
    CoreAppend(s, r, s');
    SettledStep(s.log, r, s.active.Keys, s'.active.Keys);
  }

  lemma SoundAbort(s: State, a: Action)
    requires Sound(s) && Enabled(s, a) && a.DoAbort?
    ensures Sound(Do(s, a))
  {
    var r, s' := Abort(a.txn, s.active[a.txn].last), Do(s, a);
    Appended(s.log, r);
    assert RunningOk(s.log, s.active, s.next, a.txn);
    assert TxnOk(s.log, a.txn);
    OrphansKept(Stacks(s.log), Stacks(s'.log), s.active.Keys, s'.active.Keys);
    forall t | t in s'.active ensures RunningOk(s'.log, s'.active, s'.next, t) {
      RunningStep(s.log, r, s.active, s.next, t);
    }
    CoreAppend(s, r, s');
    SettledStep(s.log, r, s.active.Keys, s'.active.Keys + {a.txn});
  }

  lemma SoundUndo(s: State, a: Action)
    requires Sound(s) && Enabled(s, a) && a.DoUndo?
    ensures Sound(Do(s, a))
  {
    var undo, stacks, s' := s.phase.undo, Stacks(s.log), Do(s, a);
    var e := undo[|undo| - 1];
    forall k ensures DiskKeyOk(s.log, RedoFrom(s), s.active.Keys, s'.tree, k) {
      if k == e.key {
        assert s.phase.txn in stacks && s.phase.txn !in s.active.Keys && Dirty(stacks[s.phase.txn], k);
      }
    }
    CoreTree(s, s');
  }

  /** Popping a transaction's top entry with a CLR for its key. */
  lemma OrphansPop(stacks: map<TxnId, seq<UndoEntry>>, t: TxnId, active: set<TxnId>, k: Key)
    requires t in stacks && stacks[t] != []
    requires Orphaned(stacks, active, k) && k != stacks[t][|stacks[t]| - 1].key
    ensures Orphaned(stacks[t := Pop(stacks[t])], active, k)
  {
    var stacks': map<TxnId, seq<UndoEntry>> := stacks[t := Pop(stacks[t])];
    var u :| u in stacks && u !in active && Dirty(stacks[u], k);
    if u == t {
      var i :| 0 <= i < |stacks[t]| && stacks[t][i].key == k;
      assert Pop(stacks[t])[i].key == k;
    }
    assert u in stacks' && u !in active && Dirty(stacks'[u], k);
  }

  /** `r` compensates the top entry of a transaction that is no longer running. */
  ghost predicate CompensatesTop(s: State, r: Record) {
    && r.Clr?
    && r.txn in Stacks(s.log) && r.txn !in s.active
    && var stack := Stacks(s.log)[r.txn];
       stack != [] && r.key == stack[|stack| - 1].key && r.undoNext == stack[|stack| - 1].undoNext
  }

  lemma CoreClr(s: State, r: Record, s': State)
    requires Core(s) && CompensatesTop(s, r)
    requires s'.log == s.log + [r] && s'.checkpoint == s.checkpoint
    requires s'.tree == s.tree && s'.versions == s.versions && s'.active == s.active && s'.next == s.next
    ensures Core(s')
  {
    Appended(s.log, r);
    forall k | Orphaned(Stacks(s.log), s.active.Keys, k)
      ensures Orphaned(Stacks(s'.log), s'.active.Keys, k) || r.key == k
    {
      if k != r.key { OrphansPop(Stacks(s.log), r.txn, s.active.Keys, k); }
    }
    forall t | t in s'.active ensures RunningOk(s'.log, s'.active, s'.next, t) {
      RunningStep(s.log, r, s.active, s.next, t);
    }
    CoreAppend(s, r, s');
  }

  lemma SoundLogUndo(s: State, a: Action)
    requires Sound(s) && Enabled(s, a) && a.DoLogUndo?
    ensures Sound(Do(s, a))
  {
    var e, s' := s.phase.undo[|s.phase.undo| - 1], Do(s, a);
    var r := Clr(s.phase.txn, s.phase.last, Compensation(e.op, e.prior), e.key, e.undoNext);
    CoreClr(s, r, s');
    Appended(s.log, r);
    SettledStep(s.log, r, s.active.Keys + {r.txn}, s.active.Keys + {r.txn});
  }

  lemma SoundAbortEnd(s: State, a: Action)
    requires Sound(s) && Enabled(s, a) && a.DoAbortEnd?
    ensures Sound(Do(s, a))
  {
    forall t | t !in s.active.Keys ensures Spent(s.log, t) {
      assert t != s.phase.txn ==> t !in s.active.Keys + {s.phase.txn};
    }
  }

  // Checkpoints

  lemma SoundFlush(s: State, a: Action)
    requires Sound(s) && Enabled(s, a) && a.DoFlush?
    ensures Sound(Do(s, a))
  {
    var s' := Do(s, a);
    forall k ensures DiskKeyOk(s.log, RedoFrom(s), s.active.Keys, s'.versions[0], k) {
    }
  }

  /** Checkpoint records change no reading of the log. */
  lemma CoreMarker(s: State, r: Record, s': State)
    requires Core(s) && Quiet(s) && (r.CheckpointBegin? || r.ActiveTxn? || r.CheckpointEnd?)
    requires s'.log == s.log + [r] && s'.checkpoint == s.checkpoint
    requires s'.tree == s.tree && s'.versions == s.versions && s'.active == s.active && s'.next == s.next
    ensures Core(s') && Quiet(s')
  {
    Appended(s.log, r);
    forall t | t in s'.active ensures RunningOk(s'.log, s'.active, s'.next, t) {
      RunningStep(s.log, r, s.active, s.next, t);
    }
    CoreAppend(s, r, s');
    SettledStep(s.log, r, s.active.Keys, s.active.Keys);
  }

  lemma SoundCheckpointBegin(s: State, a: Action)
    requires Sound(s) && Enabled(s, a) && a.DoCheckpointBegin?
    ensures Sound(Do(s, a))
  {
    var s' := Do(s, a);
    CoreMarker(s, CheckpointBegin, s');
    assert [] + s.phase.order == s.phase.order;
  }

  lemma BracketGrows(s: State, begin: int, done: seq<TxnId>, t: TxnId)
    requires BracketOk(s, begin, done) && t in s.active
    ensures BracketOk(s.(log := s.log + [ActiveTxn(t, s.active[t].last)]), begin, done + [t])
  {
  }

  lemma SoundListActive(s: State, a: Action)
    requires Sound(s) && Enabled(s, a) && a.DoListActive?
    ensures Sound(Do(s, a))
  {
    var begin, done, todo, s' := s.phase.begin, s.phase.done, s.phase.todo, Do(s, a);
    var t := todo[0];
    CoreMarker(s, ActiveTxn(t, s.active[t].last), s');
    ListingGoesOn(s, begin, done, todo, s');
  }

  lemma ListingGoesOn(s: State, begin: int, done: seq<TxnId>, todo: seq<TxnId>, s': State)
    requires BracketOk(s, begin, done) && todo != [] && Lists(done + todo, s.active.Keys) && todo[0] in s.active
    requires s'.log == s.log + [ActiveTxn(todo[0], s.active[todo[0]].last)] && s'.active == s.active
    ensures BracketOk(s', begin, done + [todo[0]]) && Lists((done + [todo[0]]) + todo[1..], s'.active.Keys)
  {
    BracketGrows(s, begin, done, todo[0]);
    assert done + todo == (done + [todo[0]]) + todo[1..];
  }

  /** A closed bracket reads back as the running transactions. */
  lemma ListedReads(s: State)
    requires Sound(s) && s.phase.Listed?
    ensures ReadCheckpoint(s.log, s.phase.begin).seeds == map t | t in s.active :: s.active[t].last
  {
    var seeds := SeedMap(ScanBracket(s.log, s.phase.begin + 1, []).value);
    assert ReadCheckpoint(s.log, s.phase.begin).seeds == seeds;
    forall t | t in s.active ensures t in seeds && seeds[t] == s.active[t].last { assert t in seeds.Keys; }
    forall t | t in seeds ensures t in s.active { assert t in seeds.Keys; }
    assert seeds == map t | t in s.active :: s.active[t].last;
  }

  /** Reading back a bracket listing the transactions `done`. */
  lemma {:induction false} BracketReads(log: seq<Record>, begin: nat, done: seq<TxnId>, active: map<TxnId, TxnState>,
                                        n: nat, found: Pairs)
    requires n <= |done| && |log| == begin + 2 + |done| && log[|log| - 1].CheckpointEnd?
    requires forall i | 0 <= i < |done| ::
               done[i] in active && log[begin + 1 + i] == ActiveTxn(done[i], active[done[i]].last)
    requires |found| == n && forall i | 0 <= i < n :: found[i] == (done[i], active[done[i]].last)
    ensures ScanBracket(log, begin + 1 + n, found).Some?
    ensures var ps := ScanBracket(log, begin + 1 + n, found).value;
            |ps| == |done| && forall i | 0 <= i < |done| :: ps[i] == (done[i], active[done[i]].last)
    decreases |done| - n
  {
    if n < |done| {
      assert log[begin + 1 + n] == ActiveTxn(done[n], active[done[n]].last);
      BracketReads(log, begin, done, active, n + 1, found + [(done[n], active[done[n]].last)]);
    }
  }

  lemma {:induction false} SeedsListed(ps: Pairs, active: map<TxnId, TxnState>)
    requires forall i | 0 <= i < |ps| :: ps[i].0 in active && ps[i].1 == active[ps[i].0].last
    ensures SeedMap(ps).Keys == set i | 0 <= i < |ps| :: ps[i].0
    ensures forall t | t in SeedMap(ps) :: t in active && SeedMap(ps)[t] == active[t].last
  {
    if ps != [] {
      var rest := ps[..|ps| - 1];
      assert forall i | 0 <= i < |rest| :: rest[i] == ps[i];
      SeedsListed(rest, active);
      assert (set i | 0 <= i < |ps| :: ps[i].0) == (set i | 0 <= i < |rest| :: rest[i].0) + {ps[|ps| - 1].0};
    }
  }

  lemma BracketEnds(s: State, begin: int, done: seq<TxnId>)
    requires BracketOk(s, begin, done) && Lists(done, s.active.Keys)
    ensures var log' := s.log + [CheckpointEnd];
            && log'[begin].CheckpointBegin?
            && ScanBracket(log', begin + 1, []).Some?
            && var seeds := SeedMap(ScanBracket(log', begin + 1, []).value);
               && seeds.Keys == s.active.Keys
               && forall t | t in seeds :: seeds[t] == s.active[t].last
  {
    var log' := s.log + [CheckpointEnd];
    assert forall i | 0 <= i < |s.log| :: log'[i] == s.log[i];
    BracketReads(log', begin, done, s.active, 0, []);
    SeedsAreActive(ScanBracket(log', begin + 1, []).value, done, s.active);
  }

  lemma SeedsAreActive(ps: Pairs, done: seq<TxnId>, active: map<TxnId, TxnState>)
    requires |ps| == |done| && Lists(done, active.Keys)
    requires forall i | 0 <= i < |done| :: done[i] in active && ps[i] == (done[i], active[done[i]].last)
    ensures SeedMap(ps).Keys == active.Keys && forall t | t in SeedMap(ps) :: SeedMap(ps)[t] == active[t].last
  {
    SeedsListed(ps, active);
    forall t | t in active.Keys ensures t in (set i | 0 <= i < |ps| :: ps[i].0) {
      assert t in done;
      var i :| 0 <= i < |done| && done[i] == t;
      assert ps[i].0 == t;
    }
  }

  lemma SoundCheckpointEnd(s: State, a: Action)
    requires Sound(s) && Enabled(s, a) && a.DoCheckpointEnd?
    ensures Sound(Do(s, a))
  {
    CoreMarker(s, CheckpointEnd, Do(s, a));
    assert s.phase.done + s.phase.todo == s.phase.done;
    BracketEnds(s, s.phase.begin, s.phase.done);
  }

  /** Whatever the starting point and the seeds, analysis agrees with analysis
      from LSN 0 on every transaction whose seed is right. */
  lemma {:induction false} AnalysisEither(log: seq<Record>, from: nat, seeds: LastLsn, t: TxnId)
    requires from <= |log|
    ensures var a := Get(Analyze(log, from, seeds), t);
            a == Get(Full(log), t) || a == Get(seeds, t)
    decreases |log|
  {
    if |log| > from {
      AnalysisEither(log[..|log| - 1], from, seeds, t);
    }
  }

  lemma SoundPoint(s: State, a: Action)
    requires Sound(s) && Enabled(s, a) && a.DoPoint?
    ensures Sound(Do(s, a))
  {
    var start, s' := ReadCheckpoint(s.log, s.phase.begin), Do(s, a);
    forall t ensures LoserAgrees(s.log, start, t) {
      AnalysisEither(s.log, start.redoFrom, start.seeds, t);
      if t in s.active {
        assert RunningOk(s.log, s.active, s.next, t);
      } else {
        assert Spent(s.log, t);
      }
    }
    forall k ensures DiskKeyOk(s.log, RedoFrom(s'), s.active.Keys, s.versions[0], k) {
    }
  }

  // Crash and recovery

  lemma SoundCrash(s: State, a: Action)
    requires Sound(s) && Enabled(s, a) && a.DoCrash?
    ensures Sound(Do(s, a))
  {
    var s' := Do(s, a);
    assert s'.active.Keys == {};
    forall k ensures DiskKeyOk(s.log, RedoFrom(s), {}, s'.versions[0], k) {
      var i :| 0 <= i < |s.versions| && Get(a.disk, k) == Get(s.versions[i], k);
      assert DiskKeyOk(s.log, RedoFrom(s), s.active.Keys, s.versions[i], k);
      if Orphaned(Stacks(s.log), s.active.Keys, k) {
        var t :| t in Stacks(s.log) && t !in s.active.Keys && Dirty(Stacks(s.log)[t], k);
        assert t !in {};
      }
    }
  }

  lemma SoundAnalyze(s: State, a: Action)
    requires Sound(s) && Enabled(s, a) && a.DoAnalyze?
    ensures Sound(Do(s, a))
  {
    if s.log == [] {
      forall k ensures Get(s.tree, k) == Get(Replay(s.log), k) {
        assert DiskKeyOk(s.log, RedoFrom(s), s.active.Keys, s.versions[0], k);
      }
      GetEqual(s.tree, Replay(s.log));
    } else {
      assert s.log[..RedoFrom(s)] == s.log[..RedoFrom(s)][..RedoFrom(s)];
    }
  }

  lemma SoundRedo(s: State, a: Action)
    requires Sound(s) && Enabled(s, a) && a.DoRedo?
    ensures Sound(Do(s, a))
  {
    var at, s' := s.phase.at, Do(s, a);
    var r := s.log[at];
    RedoNext(s.log, at, RedoFrom(s), s.versions[0]);
    if Redoable(r) {
      RedoOnDisk(s, s');
      CoreTree(s, s');
    }
  }

  lemma RedoNext(log: seq<Record>, at: nat, from: nat, start: Table)
    requires from <= at < |log|
    ensures Redo(log[..at + 1], from, start) == ReplayStep(Redo(log[..at], from, start), log[at])
  {
    assert log[..at + 1][..at] == log[..at];
  }

  lemma RedoOnDisk(s: State, s': State)
    requires Sound(s) && s.phase.Redoing? && s.phase.at < |s.log| && Redoable(s.log[s.phase.at])
    requires s'.tree == Apply(s.tree, s.log[s.phase.at].key, s.log[s.phase.at].op)
    ensures forall k :: DiskKeyOk(s.log, RedoFrom(s), s.active.Keys, s'.tree, k)
  {
    forall k ensures DiskKeyOk(s.log, RedoFrom(s), s.active.Keys, s'.tree, k) {
      assert DiskKeyOk(s.log, RedoFrom(s), s.active.Keys, s.versions[|s.versions| - 1], k);
    }
  }

  /** Redo sets every key the log touches from there on and leaves the others. */
  lemma {:induction false} RedoKey(log: seq<Record>, from: nat, start: Table, k: Key)
    requires from <= |log|
    ensures Get(Redo(log, from, start), k) == if Touched(log, from, k) then Get(Replay(log), k) else Get(start, k)
    decreases |log|
  {
    if |log| > from {
      var rest, r := log[..|log| - 1], log[|log| - 1];
      assert log == rest + [r];
      RedoKey(rest, from, start, k);
      TouchedGrows(rest, r, from, k);
    }
  }

  lemma SoundRedoEnd(s: State, a: Action)
    requires Sound(s) && Enabled(s, a) && a.DoRedoEnd?
    ensures Sound(Do(s, a))
  {
    var losers := s.phase.losers;
    assert s.log[..s.phase.at] == s.log;
    assert s.active.Keys == {};
    forall k ensures TreeKeyOk(s.log, s.tree, k) {
      RedoKey(s.log, RedoFrom(s), s.versions[0], k);
      assert DiskKeyOk(s.log, RedoFrom(s), s.active.Keys, s.versions[0], k);
    }
    var start := ReadCheckpoint(s.log, s.checkpoint);
    forall t | t in losers ensures LoserOk(s.log, losers[t], t) {
      assert LoserAgrees(s.log, start, t);
      assert TxnOk(s.log, t);
    }
    forall t | t !in losers.Keys ensures Spent(s.log, t) {
      assert LoserAgrees(s.log, start, t);
      assert TxnOk(s.log, t);
    }
  }

  lemma SoundPick(s: State, a: Action)
    requires Sound(s) && Enabled(s, a) && a.DoPick?
    ensures Sound(Do(s, a))
  {
    var losers := s.phase.losers - {a.txn};
    assert LoserOk(s.log, s.phase.losers[a.txn], a.txn);
    forall t | t in losers ensures LoserOk(s.log, losers[t], t) {
      assert LoserOk(s.log, s.phase.losers[t], t);
    }
    assert s.phase.losers.Keys == losers.Keys + {a.txn};
  }

  lemma SoundWalk(s: State, a: Action)
    requires Sound(s) && Enabled(s, a) && a.DoWalk?
    ensures Sound(Do(s, a))
  {
    var lsn := s.phase.lsn;
    assert -1 <= NextUndo(s.log[lsn]) < lsn;
  }

  lemma SoundCompensate(s: State, a: Action)
    requires Sound(s) && Enabled(s, a) && a.DoCompensate?
    ensures Sound(Do(s, a))
  {
    var txn, r, stacks, s' := s.phase.txn, s.log[s.phase.lsn], Stacks(s.log), Do(s, a);
    var stack := StackOf(stacks, txn);
    assert stack[|stack| - 1] == EntryOf(r);
    assert s.active.Keys == {};
    assert Orphaned(stacks, {}, r.key) by {
      assert txn in stacks && txn !in {} && Dirty(stacks[txn], r.key);
    }
    forall k ensures DiskKeyOk(s.log, RedoFrom(s), s.active.Keys, s'.tree, k) && TreeKeyOk(s.log, s'.tree, k) {
      assert TreeKeyOk(s.log, s.tree, k);
    }
    CoreTree(s, s');
  }

  /** Once its CLR is logged, a compensated key is in order again. */
  lemma TreeClr(log: seq<Record>, r: Record, tree: Table)
    requires TreeOk(log, tree) && r.Clr? && StackOf(Stacks(log), r.txn) != []
    requires r.key == Stacks(log)[r.txn][|Stacks(log)[r.txn]| - 1].key
    requires Get(tree, r.key) == After(r.op)
    ensures TreeOk(log + [r], tree)
  {
    Appended(log, r);
    forall k ensures TreeKeyOk(log + [r], tree, k) {
      assert TreeKeyOk(log, tree, k);
      if k != r.key && Orphaned(Stacks(log), {}, k) { OrphansPop(Stacks(log), r.txn, {}, k); }
    }
  }

  /** The losers still waiting are unaffected by another one's CLR. */
  lemma LosersClr(log: seq<Record>, r: Record, losers: LastLsn)
    requires Linked(log) && Linked(log + [r]) && LosersOk(log, losers) && r.Clr? && r.txn !in losers
    ensures LosersOk(log + [r], losers)
  {
    Appended(log, r);
    forall t | t in losers ensures LoserOk(log + [r], losers[t], t) {
      assert LoserOk(log, losers[t], t);
      ChainStable(log, r, losers[t]);
    }
  }

  lemma LoserPopped(log: seq<Record>, r: Record, lsn: int)
    requires Linked(log) && Linked(log + [r]) && r.Clr? && -1 <= lsn < |log|
    requires StackOf(Stacks(log), r.txn) != [] && Pop(StackOf(Stacks(log), r.txn)) == Chain(log, lsn)
    ensures LoserOk(log + [r], lsn, r.txn)
  {
    ChainStable(log, r, lsn);
    Appended(log, r);
  }

  lemma SoundLogCompensation(s: State, a: Action)
    requires Sound(s) && Enabled(s, a) && a.DoLogCompensation?
    ensures Sound(Do(s, a))
  {
    var txn, u, losers, s' := s.phase.txn, s.log[s.phase.lsn], s.phase.losers, Do(s, a);
    var r := Clr(txn, -1, Compensation(u.op, u.prior), u.key, u.prev);
    var stack := StackOf(Stacks(s.log), txn);
    assert stack == Chain(s.log, u.prev) + [EntryOf(u)];
    CoreClr(s, r, s');
    assert Pop(stack) == Chain(s.log, u.prev);
    WalkPopped(s, r, u.prev, losers, s');
  }

  /** The walk after the CLR of its current update is logged. */
  lemma WalkPopped(s: State, r: Record, lsn: int, losers: LastLsn, s': State)
    requires Linked(s.log) && Linked(s.log + [r]) && r.Clr? && -1 <= lsn < |s.log|
    requires s.active == map[] && TreeOk(s.log, s.tree) && LosersOk(s.log, losers) && r.txn !in losers
    requires Settled(s.log, losers.Keys + {r.txn})
    requires var stack := StackOf(Stacks(s.log), r.txn);
             stack != [] && Pop(stack) == Chain(s.log, lsn) && r.key == stack[|stack| - 1].key
    requires Get(s.tree, r.key) == After(r.op)
    requires s'.log == s.log + [r] && s'.tree == s.tree && s'.active == s.active
    ensures WalkOk(s', r.txn, lsn, losers)
  {
    TreeClr(s.log, r, s.tree);
    LosersClr(s.log, r, losers);
    LoserPopped(s.log, r, lsn);
    SettledStep(s.log, r, losers.Keys + {r.txn}, losers.Keys + {r.txn});
  }

  lemma SoundWalkEnd(s: State, a: Action)
    requires Sound(s) && Enabled(s, a) && a.DoWalkEnd?
    ensures Sound(Do(s, a))
  {
    forall t | t !in s.phase.losers.Keys ensures Spent(s.log, t) {
      assert t != s.phase.txn ==> t !in s.phase.losers.Keys + {s.phase.txn};
    }
  }

  lemma SoundRecovered(s: State, a: Action)
    requires Sound(s) && Enabled(s, a) && a.DoRecovered?
    ensures Sound(Do(s, a))
  {
    forall k ensures Get(s.tree, k) == Get(Replay(s.log), k) {
      forall t | t in Stacks(s.log) ensures !Dirty(Stacks(s.log)[t], k) {
        assert Spent(s.log, t);
      }
      assert TreeKeyOk(s.log, s.tree, k);
    }
    GetEqual(s.tree, Replay(s.log));
  }
}

/**
 The WAL engine as a state machine over its individual effects on the log, the
 tree and the disk.

 The tree is a key/value table. Pages reach the disk whenever the buffer pool
 steals them, so `versions` collects every table the tree has held since the
 last full flush, and a crash leaves on disk, key by key, some value found among
 them. Appended log records survive a crash; everything volatile is lost, and
 transaction ids start again at 0.
 */
module WalMachine {
  import opened Common
  import opened WalLog
  import opened WalAccounts

  datatype TxnState = TxnState(last: int, undo: seq<UndoEntry>)

  /** How far the call in progress has come. */
  datatype Phase =
    | Idle
    | Writing(key: Key, op: Op)
    | Aborting(txn: TxnId, undo: seq<UndoEntry>, last: int, applied: bool)
    | Flushed(order: seq<TxnId>)
    | Listing(begin: int, done: seq<TxnId>, todo: seq<TxnId>)
    | Listed(begin: int)
    | Booting
    | Redoing(at: nat, losers: LastLsn)
    | Undoing(losers: LastLsn)
    | Walking(txn: TxnId, lsn: int, losers: LastLsn)
    | Compensated(txn: TxnId, lsn: int, losers: LastLsn)

  datatype State = State(
    log: seq<Record>,
    tree: Table,
    versions: seq<Table>,
    checkpoint: int,
    active: map<TxnId, TxnState>,
    next: TxnId,
    phase: Phase)

  const Initial := State([], map[], [map[]], -1, map[], 0, Idle)

  datatype Action =
    | DoBegin
    | DoLogWrite(txn: TxnId, key: Key, op: Op)
    | DoApplyWrite
    | DoCommit(txn: TxnId)
    | DoAbort(txn: TxnId)
    | DoUndo
    | DoLogUndo
    | DoAbortEnd
    | DoFlush(order: seq<TxnId>)
    | DoCheckpointBegin
    | DoListActive
    | DoCheckpointEnd
    | DoPoint
    | DoCrash(disk: Table)
    | DoAnalyze
    | DoRedo
    | DoRedoEnd
    | DoPick(txn: TxnId)
    | DoWalk
    | DoCompensate
    | DoLogCompensation
    | DoWalkEnd
    | DoRecovered

  // ---------------------------------------------------------------------
  // Reading the checkpoint
  // ---------------------------------------------------------------------

  type Pairs = seq<(TxnId, int)>

  /** Reads the ACTIVE_TXN records of a bracket; None if it is malformed. */
  function ScanBracket(log: seq<Record>, lsn: nat, found: Pairs): Option<Pairs>
    decreases |log| - lsn
  {
    if lsn >= |log| then None
    else match log[lsn]
      case ActiveTxn(t, last) => ScanBracket(log, lsn + 1, found + [(t, last)])
      case CheckpointEnd => Some(found)
      case _ => None
  }

  function SeedMap(ps: Pairs): LastLsn {
    if ps == [] then map[] else SeedMap(ps[..|ps| - 1])[ps[|ps| - 1].0 := ps[|ps| - 1].1]
  }

  function MinLast(begin: nat, ps: Pairs): (r: nat)
    ensures r <= begin
  {
    if ps == [] then begin
    else
      var m, last := MinLast(begin, ps[..|ps| - 1]), ps[|ps| - 1].1;
      if 0 <= last < m then last else m
  }

  datatype Start = Start(redoFrom: nat, seeds: LastLsn)

  /** Where recovery starts, by the checkpoint pointer of the meta page. */
  function ReadCheckpoint(log: seq<Record>, checkpoint: int): (r: Start)
    ensures r.redoFrom <= |log| && (log != [] ==> r.redoFrom < |log|)
  {
    if 0 <= checkpoint < |log| && log[checkpoint].CheckpointBegin? then
      match ScanBracket(log, checkpoint + 1, [])
      case Some(ps) => Start(MinLast(checkpoint, ps), SeedMap(ps))
      case None => Start(0, map[])
    else Start(0, map[])
  }

  function Losers(log: seq<Record>, start: Start): LastLsn
    requires start.redoFrom <= |log|
  {
    Analyze(log, start.redoFrom, start.seeds)
  }

  // ---------------------------------------------------------------------
  // Actions
  // ---------------------------------------------------------------------

  /** A disk image a crash may leave behind. */
  ghost predicate OnDisk(disk: Table, versions: seq<Table>) {
    forall k :: exists i :: 0 <= i < |versions| && Get(disk, k) == Get(versions[i], k)
  }

  /** `order` names exactly the given transactions. */
  ghost predicate Lists(order: seq<TxnId>, txns: set<TxnId>) {
    forall t :: t in order <==> t in txns
  }

  ghost predicate Enabled(s: State, a: Action) {
    match a
    case DoBegin => s.phase.Idle?
    case DoLogWrite(t, key, op) => s.phase.Idle? && t in s.active && (op.Delete? ==> key in s.tree)
    case DoApplyWrite => s.phase.Writing?
    case DoCommit(t) => s.phase.Idle? && t in s.active
    case DoAbort(t) => s.phase.Idle? && t in s.active
    case DoUndo => s.phase.Aborting? && s.phase.undo != [] && !s.phase.applied
    case DoLogUndo => s.phase.Aborting? && s.phase.undo != [] && s.phase.applied
    case DoAbortEnd => s.phase.Aborting? && s.phase.undo == []
    case DoFlush(order) => s.phase.Idle? && Lists(order, s.active.Keys)
    case DoCheckpointBegin => s.phase.Flushed?
    case DoListActive => s.phase.Listing? && s.phase.todo != [] && s.phase.todo[0] in s.active
    case DoCheckpointEnd => s.phase.Listing? && s.phase.todo == []
    case DoPoint => s.phase.Listed?
    case DoCrash(disk) => OnDisk(disk, s.versions)
    case DoAnalyze => s.phase.Booting?
    case DoRedo => s.phase.Redoing? && s.phase.at < |s.log|
    case DoRedoEnd => s.phase.Redoing? && s.phase.at == |s.log|
    case DoPick(t) => s.phase.Undoing? && t in s.phase.losers
    case DoWalk =>
      && s.phase.Walking?
      && 0 <= s.phase.lsn < |s.log|
      && !s.log[s.phase.lsn].Begin?
      && !s.log[s.phase.lsn].Update?
    case DoCompensate => s.phase.Walking? && 0 <= s.phase.lsn < |s.log| && s.log[s.phase.lsn].Update?
    case DoLogCompensation => s.phase.Compensated? && 0 <= s.phase.lsn < |s.log| && s.log[s.phase.lsn].Update?
    case DoWalkEnd =>
      && s.phase.Walking?
      && (s.phase.lsn == -1 || (0 <= s.phase.lsn < |s.log| && s.log[s.phase.lsn].Begin?))
    case DoRecovered => s.phase.Undoing? && s.phase.losers == map[]
  }

  /** Changing the tree makes its new contents a candidate for the disk. */
  function SetTree(s: State, tree: Table): State {
    s.(tree := tree, versions := s.versions + [tree])
  }

  function UpdateRecord(s: State, t: TxnId, key: Key, op: Op): Record
    requires t in s.active
  {
    Update(t, s.active[t].last, op, key, Get(s.tree, key))
  }

  ghost function Do(s: State, a: Action): State
    requires Enabled(s, a)
  {
    match a
    case DoBegin =>
      s.(log := s.log + [Begin(s.next)], active := s.active[s.next := TxnState(|s.log|, [])], next := s.next + 1)
    case DoLogWrite(t, key, op) =>
      var r := UpdateRecord(s, t, key, op);
      s.(log := s.log + [r],
         active := s.active[t := TxnState(|s.log|, s.active[t].undo + [EntryOf(r)])],
         phase := Writing(key, op))
    case DoApplyWrite => SetTree(s, Apply(s.tree, s.phase.key, s.phase.op)).(phase := Idle)
    case DoCommit(t) => s.(log := s.log + [Commit(t, s.active[t].last)], active := s.active - {t})
    case DoAbort(t) =>
      s.(log := s.log + [Abort(t, s.active[t].last)],
         active := s.active - {t},
         phase := Aborting(t, s.active[t].undo, |s.log|, false))
    case DoUndo =>
      var e := s.phase.undo[|s.phase.undo| - 1];
      SetTree(s, Apply(s.tree, e.key, Compensation(e.op, e.prior))).(phase := s.phase.(applied := true))
    case DoLogUndo =>
      var e := s.phase.undo[|s.phase.undo| - 1];
      s.(log := s.log + [Clr(s.phase.txn, s.phase.last, Compensation(e.op, e.prior), e.key, e.undoNext)],
         phase := Aborting(s.phase.txn, Pop(s.phase.undo), |s.log|, false))
    case DoAbortEnd => s.(phase := Idle)
    case DoFlush(order) => s.(versions := [s.tree], phase := Flushed(order))
    case DoCheckpointBegin =>
      s.(log := s.log + [CheckpointBegin], phase := Listing(|s.log|, [], s.phase.order))
    case DoListActive =>
      var t := s.phase.todo[0];
      s.(log := s.log + [ActiveTxn(t, s.active[t].last)],
         phase := Listing(s.phase.begin, s.phase.done + [t], s.phase.todo[1..]))
    case DoCheckpointEnd => s.(log := s.log + [CheckpointEnd], phase := Listed(s.phase.begin))
    case DoPoint => s.(checkpoint := s.phase.begin, phase := Idle)
    case DoCrash(disk) => State(s.log, disk, [disk], s.checkpoint, map[], 0, Booting)
    case DoAnalyze =>
      if s.log == [] then s.(phase := Idle)
      else
        var start := ReadCheckpoint(s.log, s.checkpoint);
        s.(phase := Redoing(start.redoFrom, Losers(s.log, start)))
    case DoRedo =>
      var r := s.log[s.phase.at];
      (if Redoable(r) then SetTree(s, Apply(s.tree, r.key, r.op)) else s).(phase := s.phase.(at := s.phase.at + 1))
    case DoRedoEnd => s.(phase := Undoing(s.phase.losers))
    case DoPick(t) => s.(phase := Walking(t, s.phase.losers[t], s.phase.losers - {t}))
    case DoWalk => s.(phase := Walking(s.phase.txn, NextUndo(s.log[s.phase.lsn]), s.phase.losers))
    case DoCompensate =>
      var r := s.log[s.phase.lsn];
      SetTree(s, Apply(s.tree, r.key, Compensation(r.op, r.prior)))
        .(phase := Compensated(s.phase.txn, s.phase.lsn, s.phase.losers))
    case DoLogCompensation =>
      var r := s.log[s.phase.lsn];
      s.(log := s.log + [Clr(s.phase.txn, -1, Compensation(r.op, r.prior), r.key, r.prev)],
         phase := Walking(s.phase.txn, r.prev, s.phase.losers))
    case DoWalkEnd => s.(phase := Undoing(s.phase.losers))
    case DoRecovered => s.(phase := Idle)
  }

  /** The state a sequence of actions leads to, if all of them are possible. */
  ghost function ExecFrom(s: State, acts: seq<Action>): Option<State> {
    if acts == [] then Some(s)
    else
      var before := ExecFrom(s, acts[..|acts| - 1]);
      if before.Some? && Enabled(before.value, acts[|acts| - 1])
      then Some(Do(before.value, acts[|acts| - 1]))
      else None
  }

  ghost function Exec(acts: seq<Action>): Option<State> {
    ExecFrom(Initial, acts)
  }

  /** Writing `key` would overwrite another active transaction's uncommitted write. */
  ghost predicate DirtyWrite(s: State, a: Action) {
    a.DoLogWrite? && exists u :: u in s.active && u != a.txn && Dirty(s.active[u].undo, a.key)
  }

  /** No action of the run is a dirty write. */
  ghost predicate DisciplinedFrom(s: State, acts: seq<Action>) {
    if acts == [] then true
    else
      && DisciplinedFrom(s, acts[..|acts| - 1])
      && var before := ExecFrom(s, acts[..|acts| - 1]);
         (before.Some? ==> !DirtyWrite(before.value, acts[|acts| - 1]))
  }

  ghost predicate Disciplined(acts: seq<Action>) {
    DisciplinedFrom(Initial, acts)
  }

  /** Runs compose. */
  lemma {:induction false} ExecAppend(s: State, a: seq<Action>, b: seq<Action>)
    requires ExecFrom(s, a).Some?
    ensures ExecFrom(s, a + b) == ExecFrom(ExecFrom(s, a).value, b)
    ensures DisciplinedFrom(s, a + b) <==> DisciplinedFrom(s, a) && DisciplinedFrom(ExecFrom(s, a).value, b)
  {
    if b == [] {
      assert a + b == a;
    } else {
      assert (a + b)[..|a + b| - 1] == a + b[..|b| - 1];
      ExecAppend(s, a, b[..|b| - 1]);
    }
  }

  lemma ExecPrefix(s: State, a: seq<Action>, b: seq<Action>)
    requires ExecFrom(s, a + b).Some?
    ensures ExecFrom(s, a).Some?
    decreases |b|
  {
    if b == [] {
      assert a + b == a;
    } else {
      assert (a + b)[..|a + b| - 1] == a + b[..|b| - 1];
      ExecPrefix(s, a, b[..|b| - 1]);
    }
  }
}

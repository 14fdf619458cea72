/**
 The WAL engine itself: fields updated in place, loops over undo entries, log
 records and losers. Every effect of every method is an action of the state
 machine, recorded in the ghost field `history`, so whatever holds of all runs
 holds of the engine, at each point where the process may die.
 */
module WalEngine {
  import opened Common
  import opened WalLog
  import opened WalAccounts
  import opened WalMachine
  import opened WalRecovery
  import opened WalTheorems
  import opened WalUndo

  const MAX_VALUE_SIZE := 64

  datatype Outcome = Done | ValueTooLong | UnknownTransaction

  lemma ExecSnoc(h: seq<Action>, s: State, a: Action)
    requires Exec(h) == Some(s) && Enabled(s, a)
    ensures Exec(h + [a]) == Some(Do(s, a))
    ensures !DirtyWrite(s, a) && Disciplined(h) ==> Disciplined(h + [a])
  {
    DropLast(h, a);
  }

  /** Enumerates a set in some order, as iterating over a hash map does. */
  method Enumerate(txns: set<TxnId>) returns (order: seq<TxnId>)
    ensures Lists(order, txns)
  {
    order := [];
    var rest := txns;
    while rest != {}
      invariant forall t :: t in txns <==> t in order || t in rest
    {
      ghost var some := Member(rest);
      var t :| t in rest;
      order := order + [t];
      rest := rest - {t};
    }
  }

  /** One record redone: the tree and its versions change if it is an UPDATE or a CLR. */
  lemma RedoDoes(s: State, a: Action)
    requires Enabled(s, a) && a.DoRedo?
    ensures var r := s.log[s.phase.at];
            var tree := if r.Update? || r.Clr? then Apply(s.tree, r.key, r.op) else s.tree;
            Do(s, a) == State(s.log, tree, if r.Update? || r.Clr? then s.versions + [tree] else s.versions,
                              s.checkpoint, s.active, s.next, Redoing(s.phase.at + 1, s.phase.losers))
  {
  }

  class Engine {
    var log: seq<Record>
    var tree: Table
    var checkpoint: int
    var active: map<TxnId, TxnState>
    var next: TxnId
    var sinceCheckpoint: int
    const interval: int
    ghost var versions: seq<Table>
    ghost var phase: Phase
    ghost var history: seq<Action>

    ghost function Abs(): State
      reads this
    {
      State(log, tree, versions, checkpoint, active, next, phase)
    }

    /** The fields are where the recorded actions lead. */
    ghost predicate Valid()
      reads this
    {
      Exec(history) == Some(Abs())
    }

    ghost predicate Ready()
      reads this
    {
      Valid() && phase.Idle?
    }

    lemma Invariant()
      requires Valid()
      ensures Sound(Abs())
      ensures Disciplined(history) ==> Valued(Abs())
    {
      SoundInitial();
      RunSound(Initial, history);
      if Disciplined(history) {
        ValuedInitial();
        RunValued(Initial, history);
      }
    }

    /** `h` extends `base` by actions none of which commits or writes. */
    static ghost predicate Quietly(base: seq<Action>, h: seq<Action>) {
      base <= h && forall i {:trigger QuietAt(h, i)} | |base| <= i < |h| :: QuietAt(h, i)
    }

    static ghost predicate QuietAt(h: seq<Action>, i: nat)
      requires i < |h|
    {
      Quiet(h[i])
    }

    static ghost predicate Quiet(a: Action) {
      !a.DoCommit? && !a.DoLogWrite?
    }

    static lemma QuietlyThen(base: seq<Action>, mid: seq<Action>, h: seq<Action>)
      requires Quietly(base, mid) && Quietly(mid, h)
      ensures Quietly(base, h)
    {
      forall i | |base| <= i < |h| ensures QuietAt(h, i) {
        if i < |mid| { assert QuietAt(mid, i); }
      }
    }

    static lemma QuietlyNext(base: seq<Action>, h: seq<Action>, a: Action)
      requires Quietly(base, h) && Quiet(a)
      ensures Quietly(base, h + [a])
    {
      forall i | |base| <= i < |h + [a]| ensures QuietAt(h + [a], i) {
        if i < |h| { assert QuietAt(h, i); }
      }
    }

    /** Records that the effects since state `s` were those of action `a`. */
    ghost method Record(s: State, a: Action)
      requires Exec(history) == Some(s) && Enabled(s, a) && Abs() == Do(s, a)
      modifies this`history
      ensures Valid() && history == old(history) + [a]
      ensures !a.DoCommit? ==> Committed(log) == Committed(s.log)
      ensures Quiet(a) ==> Quietly(old(history), history)
    {
      ExecSnoc(history, s, a);
      CommitIsAtomic(s, a);
      if Quiet(a) { QuietlyNext(history, history, a); }
      history := history + [a];
    }

    method Begin() returns (t: TxnId)
      requires Ready()
      modifies this
      ensures Ready() && history == old(history) + [DoBegin]
      ensures t == old(next) && t !in old(active)
      ensures tree == old(tree) && active == old(active)[t := TxnState(|old(log)|, [])]
    {
      Invariant();
      ghost var s, a := Abs(), DoBegin;
      assert next in active ==> RunningOk(log, active, next, next);
      t := next;
      next := next + 1;
      active := active[t := TxnState(|log|, [])];
      log := log + [WalLog.Begin(t)];
      Record(s, a);
    }

    /** The UPDATE is logged before the tree changes. */
    method LogWrite(t: TxnId, key: Key, op: Op)
      requires Ready() && t in active && (op.Delete? ==> key in tree)
      modifies this
      ensures Ready() && history == old(history) + [DoLogWrite(t, key, op)] + [DoApplyWrite]
      ensures tree == Apply(old(tree), key, op)
      ensures active.Keys == old(active).Keys && next == old(next)
    {
      LogUpdate(t, key, op);
      ApplyUpdate(key, op);
    }

    method LogUpdate(t: TxnId, key: Key, op: Op)
      requires Ready() && t in active && (op.Delete? ==> key in tree)
      modifies this`log, this`active, this`phase, this`history
      ensures Valid() && phase == Writing(key, op) && history == old(history) + [DoLogWrite(t, key, op)]
      ensures active.Keys == old(active).Keys
    {
      ghost var s, a := Abs(), DoLogWrite(t, key, op);
      var entry := UndoEntry(op, key, if key in tree then Some(tree[key]) else None, active[t].last);
      var r := Update(t, active[t].last, op, key, entry.prior);
      active := active[t := TxnState(|log|, active[t].undo + [entry])];
      log := log + [r];
      phase := Writing(key, op);
      Record(s, a);
    }

    method ApplyUpdate(key: Key, op: Op)
      requires Valid() && phase == Writing(key, op)
      modifies this`tree, this`versions, this`phase, this`history
      ensures Ready() && history == old(history) + [DoApplyWrite] && tree == Apply(old(tree), key, op)
    {
      ghost var s, a := Abs(), DoApplyWrite;
      tree := Apply(tree, key, op);
      versions := versions + [tree];
      phase := Idle;
      Record(s, a);
    }

    method Put(t: TxnId, key: Key, value: Value) returns (r: Outcome)
      requires Ready()
      modifies this
      ensures Ready()
      ensures r == if |value| > MAX_VALUE_SIZE then ValueTooLong
                   else if t !in old(active) then UnknownTransaction else Done
      ensures r == Done ==> tree == old(tree)[key := value]
                            && history == old(history) + [DoLogWrite(t, key, WalLog.Put(value))] + [DoApplyWrite]
      ensures r != Done ==> Abs() == old(Abs()) && history == old(history)
    {
      if |value| > MAX_VALUE_SIZE {
        return ValueTooLong;
      }
      if t !in active {
        return UnknownTransaction;
      }
      LogWrite(t, key, WalLog.Put(value));
      r := Done;
    }

    /** Deleting an absent key logs nothing. */
    method Delete(t: TxnId, key: Key) returns (r: Outcome, existed: bool)
      requires Ready()
      modifies this
      ensures Ready()
      ensures r == if t in old(active) then Done else UnknownTransaction
      ensures existed <==> t in old(active) && key in old(tree)
      ensures tree == if existed then old(tree) - {key} else old(tree)
      ensures history == if existed then old(history) + [DoLogWrite(t, key, WalLog.Delete)] + [DoApplyWrite]
                         else old(history)
    {
      if t !in active {
        return UnknownTransaction, false;
      }
      if key !in tree {
        return Done, false;
      }
      LogWrite(t, key, WalLog.Delete);
      return Done, true;
    }

    method Lookup(t: TxnId, key: Key) returns (r: Outcome, value: Option<Value>)
      requires Ready()
      ensures r == if t in active then Done else UnknownTransaction
      ensures r == Done ==> value == Common.Get(tree, key)
      ensures r == Done && Disciplined(history) && (forall u | u in active :: !Dirty(active[u].undo, key)) ==>
                value == Common.Get(Committed(log), key)
    {
      if t !in active {
        return UnknownTransaction, None;
      }
      value := Common.Get(tree, key);
      r := Done;
      if Disciplined(history) {
        TreeShows(history, key);
      }
    }

    /** Every `interval` transactions. */
    method MaybeCheckpoint()
      requires Ready()
      modifies this
      ensures Ready() && Quietly(old(history), history)
      ensures if old(sinceCheckpoint) + 1 >= interval then sinceCheckpoint == 0 && checkpoint == |old(log)|
              else sinceCheckpoint == old(sinceCheckpoint) + 1 && log == old(log)
      ensures tree == old(tree) && active == old(active) && Committed(log) == old(Committed(log))
    {
      sinceCheckpoint := sinceCheckpoint + 1;
      if sinceCheckpoint >= interval {
        DoCheckpoint();
        sinceCheckpoint := 0;
      }
    }

    method Commit(t: TxnId) returns (r: Outcome)
      requires Ready()
      modifies this
      ensures Ready()
      ensures r == if t in old(active) then Done else UnknownTransaction
      ensures r == Done ==>
                && Quietly(old(history) + [DoCommit(t)], history)
                && tree == old(tree) && active == old(active) - {t}
                && Committed(log) == ApplyAll(old(Committed(log)), old(OpenOf(Ledger(log), t)))
      ensures r != Done ==> Abs() == old(Abs()) && history == old(history)
    {
      if t !in active {
        return UnknownTransaction;
      }
      ghost var s, a := Abs(), DoCommit(t);
      log := log + [WalLog.Commit(t, active[t].last)];
      active := active - {t};
      CommitIsAtomic(s, a);
      Record(s, a);
      MaybeCheckpoint();
      r := Done;
    }

    /** Aborting compensates the transaction's updates, newest first. */
    method Abort(t: TxnId) returns (r: Outcome)
      requires Ready()
      modifies this
      ensures Ready() && Quietly(old(history), history)
      ensures r == if t in old(active) then Done else UnknownTransaction
      ensures r == Done ==>
                && tree == Rolled(old(tree), old(active)[t].undo) && active == old(active) - {t}
                && Committed(log) == old(Committed(log))
      ensures r != Done ==> Abs() == old(Abs()) && history == old(history)
    {
      if t !in active {
        return UnknownTransaction;
      }
      var entries, last := StartAbort(t);
      while entries != []
        invariant Valid() && phase == Aborting(t, entries, last, false)
        invariant Quietly(old(history), history)
        invariant Rolled(tree, entries) == Rolled(old(tree), old(active)[t].undo)
        invariant active == old(active) - {t} && Committed(log) == old(Committed(log))
        decreases |entries|
      {
        ghost var h := history;
        last := UndoOne(t, entries, last);
        QuietlyThen(old(history), h, history);
        entries := entries[..|entries| - 1];
      }
      ghost var h := history;
      EndAbort();
      ghost var h1 := history;
      MaybeCheckpoint();
      QuietlyThen(h, h1, history);
      QuietlyThen(old(history), h, history);
      r := Done;
    }

    method StartAbort(t: TxnId) returns (entries: seq<UndoEntry>, last: int)
      requires Ready() && t in active
      modifies this
      ensures Valid() && phase == Aborting(t, entries, last, false) && Quietly(old(history), history)
      ensures entries == old(active)[t].undo && active == old(active) - {t}
      ensures tree == old(tree) && Committed(log) == old(Committed(log))
    {
      ghost var s, a := Abs(), DoAbort(t);
      entries := active[t].undo;
      last := |log|;
      log := log + [WalLog.Abort(t, active[t].last)];
      active := active - {t};
      phase := Aborting(t, entries, last, false);
      Record(s, a);
    }

    ghost method EndAbort()
      requires Valid() && phase.Aborting? && phase.undo == []
      modifies this`phase, this`history
      ensures Ready() && Quietly(old(history), history)
    {
      var s, a := Abs(), DoAbortEnd;
      phase := Idle;
      Record(s, a);
    }

    /** The tree changes before the CLR is logged. */
    method UndoOne(t: TxnId, entries: seq<UndoEntry>, last: int) returns (last': int)
      requires Valid() && phase == Aborting(t, entries, last, false) && entries != []
      modifies this
      ensures Valid() && phase == Aborting(t, Pop(entries), last', false)
      ensures Quietly(old(history), history)
      ensures Rolled(tree, Pop(entries)) == Rolled(old(tree), entries)
      ensures active == old(active) && Committed(log) == old(Committed(log)) && sinceCheckpoint == old(sinceCheckpoint)
    {
      UndoInTree(t, entries, last);
      ghost var h := history;
      last' := LogUndo(t, entries, last);
      QuietlyThen(old(history), h, history);
    }

    method UndoInTree(t: TxnId, entries: seq<UndoEntry>, last: int)
      requires Valid() && phase == Aborting(t, entries, last, false) && entries != []
      modifies this`tree, this`versions, this`phase, this`history
      ensures Valid() && phase == Aborting(t, entries, last, true) && Quietly(old(history), history)
      ensures Rolled(tree, Pop(entries)) == Rolled(old(tree), entries)
    {
      ghost var s, a := Abs(), DoUndo;
      var e := entries[|entries| - 1];
      tree := Apply(tree, e.key, Compensation(e.op, e.prior));
      versions := versions + [tree];
      phase := Aborting(t, entries, last, true);
      Record(s, a);
    }

    method LogUndo(t: TxnId, entries: seq<UndoEntry>, last: int) returns (last': int)
      requires Valid() && phase == Aborting(t, entries, last, true) && entries != []
      modifies this`log, this`phase, this`history
      ensures Valid() && phase == Aborting(t, Pop(entries), last', false) && Quietly(old(history), history)
      ensures Committed(log) == old(Committed(log))
    {
      ghost var s, a := Abs(), DoLogUndo;
      var e := entries[|entries| - 1];
      last' := |log|;
      log := log + [Clr(t, last, Compensation(e.op, e.prior), e.key, e.undoNext)];
      phase := Aborting(t, Pop(entries), last', false);
      Record(s, a);
    }

    /** Sharp checkpoint: flush, list the running transactions, then point the
        meta page at the bracket. */
    method DoCheckpoint()
      requires Ready()
      modifies this
      ensures Ready() && Quietly(old(history), history)
      ensures tree == old(tree) && active == old(active) && Committed(log) == old(Committed(log))
      ensures checkpoint == |old(log)| && versions == [tree] && old(log) < log
      ensures ReadCheckpoint(log, checkpoint).seeds == map t | t in active :: active[t].last
    {
      var order := Enumerate(active.Keys);
      FlushTree(order);
      ghost var h := history;
      var begin := OpenBracket(order);
      QuietlyThen(old(history), h, history);
      ListActive(begin, order, old(history));
      h := history;
      CloseBracket(begin, order);
      QuietlyThen(old(history), h, history);
      h := history;
      BracketIsRead(begin);
      PointAt(begin);
      QuietlyThen(old(history), h, history);
    }

    /** A bracket, once closed, reads back as the running transactions. */
    lemma BracketIsRead(begin: int)
      requires Valid() && phase == Listed(begin)
      ensures ReadCheckpoint(log, begin).seeds == map t | t in active :: active[t].last
    {
      Invariant();
      ListedReads(Abs());
    }

    method ListActive(ghost begin: int, order: seq<TxnId>, ghost base: seq<Action>)
      requires Valid() && phase == Listing(begin, [], order) && Lists(order, active.Keys) && Quietly(base, history)
      modifies this`log, this`phase, this`history
      ensures Valid() && phase == Listing(begin, order, []) && old(log) <= log
      ensures Quietly(base, history) && Committed(log) == old(Committed(log))
    {
      var i := 0;
      while i < |order|
        invariant 0 <= i <= |order|
        invariant Valid() && phase == Listing(begin, order[..i], order[i..]) && old(log) <= log
        invariant Quietly(base, history) && Committed(log) == old(Committed(log))
      {
        ghost var h := history;
        var t := order[i];
        assert t in order;
        ListOne(begin, order, i);
        QuietlyThen(base, h, history);
        i := i + 1;
      }
    }

    /** The tree's pages go to disk before the bracket opens. */
    method FlushTree(ghost order: seq<TxnId>)
      requires Ready() && Lists(order, active.Keys)
      modifies this`versions, this`phase, this`history
      ensures Valid() && phase == Flushed(order) && versions == [tree] && Quietly(old(history), history)
    {
      ghost var s, a := Abs(), DoFlush(order);
      versions := [tree];
      phase := Flushed(order);
      Record(s, a);
    }

    method OpenBracket(ghost order: seq<TxnId>) returns (begin: int)
      requires Valid() && phase == Flushed(order)
      modifies this`log, this`phase, this`history
      ensures Valid() && phase == Listing(begin, [], order) && begin == |old(log)| && log == old(log) + [CheckpointBegin]
      ensures Quietly(old(history), history) && Committed(log) == old(Committed(log))
    {
      ghost var s, a := Abs(), DoCheckpointBegin;
      begin := |log|;
      log := log + [CheckpointBegin];
      phase := Listing(begin, [], order);
      Record(s, a);
    }

    method CloseBracket(ghost begin: int, ghost done: seq<TxnId>)
      requires Valid() && phase == Listing(begin, done, [])
      modifies this`log, this`phase, this`history
      ensures Valid() && phase == Listed(begin) && log == old(log) + [CheckpointEnd]
      ensures Quietly(old(history), history) && Committed(log) == old(Committed(log))
    {
      ghost var s, a := Abs(), DoCheckpointEnd;
      log := log + [CheckpointEnd];
      phase := Listed(begin);
      Record(s, a);
    }

    method PointAt(begin: int)
      requires Valid() && phase == Listed(begin)
      modifies this`checkpoint, this`phase, this`history
      ensures Ready() && checkpoint == begin && Quietly(old(history), history)
    {
      ghost var s, a := Abs(), DoPoint;
      checkpoint := begin;
      phase := Idle;
      Record(s, a);
    }

    method ListOne(ghost begin: int, order: seq<TxnId>, i: nat)
      requires Valid() && i < |order| && order[i] in active && phase == Listing(begin, order[..i], order[i..])
      modifies this`log, this`phase, this`history
      ensures Valid() && phase == Listing(begin, order[..i + 1], order[i + 1..])
      ensures log == old(log) + [ActiveTxn(order[i], active[order[i]].last)]
      ensures Quietly(old(history), history) && Committed(log) == old(Committed(log))
    {
      ghost var s, a := Abs(), DoListActive;
      assert order[i..][1..] == order[i + 1..] && order[..i] + [order[i]] == order[..i + 1];
      log := log + [ActiveTxn(order[i], active[order[i]].last)];
      phase := Listing(begin, order[..i + 1], order[i + 1..]);
      Record(s, a);
    }

    // -------------------------------------------------------------------
    // Recovery
    // -------------------------------------------------------------------

    /** Opens a database from what a previous process left: its log, its meta page
        and a disk image. `prior` is everything that process did; it may have died
        anywhere. A new database is one left by a process that did nothing. */
    constructor (log0: seq<Record>, disk: Table, checkpoint0: int, interval0: int, ghost prior: seq<Action>)
      requires Exec(prior).Some?
      requires var p := Exec(prior).value;
               p.log == log0 && p.checkpoint == checkpoint0 && OnDisk(disk, p.versions)
      ensures Ready() && active == map[] && Quietly(prior, history)
      ensures Disciplined(prior) ==> tree == Committed(log0) && Committed(log) == Committed(log0)
    {
      log, tree, checkpoint, active, next := log0, disk, checkpoint0, map[], 0;
      sinceCheckpoint, interval := 0, interval0;
      versions, phase, history := [disk], Booting, prior + [DoCrash(disk)];
      new;
      ExecSnoc(prior, Exec(prior).value, DoCrash(disk));
      RecoverOnStartup();
      QuietDisciplined(prior, history);
      if Disciplined(prior) {
        assert history == prior + history[|prior|..];
        forall i | 0 <= i < |history| - |prior| ensures Quiet(history[|prior|..][i]) {
          assert QuietAt(history, |prior| + i);
        }
        CrashKeepsExactlyTheCommitted(prior, history[|prior|..]);
        IdleTreeIsCommitted(history);
      }
    }

    static lemma {:induction false} QuietDisciplined(base: seq<Action>, h: seq<Action>)
      requires Quietly(base, h)
      ensures Disciplined(base) ==> Disciplined(h)
      decreases |h|
    {
      if |base| == |h| {
        assert base == h;
      } else {
        var g := h[..|h| - 1];
        forall i | |base| <= i < |g| ensures QuietAt(g, i) { assert QuietAt(h, i); }
        assert QuietAt(h, |h| - 1);
        QuietDisciplined(base, g);
      }
    }

    method RecoverOnStartup()
      requires Valid() && phase.Booting? && active == map[]
      modifies this
      ensures Ready() && Quietly(old(history), history)
      ensures active == map[]
    {
      if |log| == 0 {
        NothingToRecover();
        return;
      }
      var from, seeds := FindStart();
      var losers := AnalyzeFrom(from, seeds);
      StartRedo(from, losers);
      RedoAll(from, losers, old(history));
      StartUndo(losers, old(history));
      UndoAll(losers, old(history));
    }

    ghost method NothingToRecover()
      requires Valid() && phase.Booting? && log == []
      modifies this`phase, this`history
      ensures Ready() && Quietly(old(history), history)
    {
      var s, a := Abs(), DoAnalyze;
      phase := Idle;
      Record(s, a);
    }

    ghost method StartRedo(from: nat, losers: LastLsn)
      requires Valid() && phase.Booting? && log != []
      requires var start := ReadCheckpoint(log, checkpoint); from == start.redoFrom && losers == Losers(log, start)
      modifies this`phase, this`history
      ensures Valid() && phase == Redoing(from, losers) && Quietly(old(history), history)
    {
      var s, a := Abs(), DoAnalyze;
      phase := Redoing(from, losers);
      Record(s, a);
    }

    ghost method StartUndo(losers: LastLsn, base: seq<Action>)
      requires Valid() && phase == Redoing(|log|, losers) && Quietly(base, history)
      modifies this`phase, this`history
      ensures Valid() && phase == Undoing(losers) && Quietly(base, history)
    {
      var s, a, h := Abs(), DoRedoEnd, history;
      phase := Undoing(losers);
      Record(s, a);
      QuietlyThen(base, h, history);
    }

    /** Follows the meta page's pointer to the checkpoint bracket, if it is whole. */
    method FindStart() returns (from: nat, seeds: LastLsn)
      ensures Start(from, seeds) == ReadCheckpoint(log, checkpoint)
    {
      from, seeds := 0, map[];
      if 0 <= checkpoint < |log| && log[checkpoint].CheckpointBegin? {
        var found: Pairs := [];
        var lsn := checkpoint + 1;
        while lsn < |log| && log[lsn].ActiveTxn?
          invariant checkpoint < lsn <= |log|
          invariant ScanBracket(log, lsn, found) == ScanBracket(log, checkpoint + 1, [])
        {
          found := found + [(log[lsn].activeTxn, log[lsn].activeLast)];
          lsn := lsn + 1;
        }
        if lsn < |log| && log[lsn].CheckpointEnd? {
          from := checkpoint;
          var i := 0;
          while i < |found|
            invariant 0 <= i <= |found|
            invariant from == MinLast(checkpoint, found[..i]) && seeds == SeedMap(found[..i])
          {
            assert found[..i + 1][..i] == found[..i];
            var (t, last) := found[i];
            if 0 <= last < from {
              from := last;
            }
            seeds := seeds[t := last];
            i := i + 1;
          }
          assert found[..i] == found;
        }
      }
    }

    method AnalyzeFrom(from: nat, seeds: LastLsn) returns (losers: LastLsn)
      requires from <= |log|
      ensures losers == Losers(log, Start(from, seeds))
    {
      losers := seeds;
      var lsn := from;
      while lsn < |log|
        invariant from <= lsn <= |log|
        invariant losers == Analyze(log[..lsn], from, seeds)
      {
        assert log[..lsn + 1][..lsn] == log[..lsn];
        match log[lsn] {
          case Begin(t) => losers := losers[t := lsn];
          case Update(t, _, _, _, _) => losers := losers[t := lsn];
          case Clr(t, _, _, _, _) => losers := losers[t := lsn];
          case Commit(t, _) => losers := losers - {t};
          case _ =>
        }
        lsn := lsn + 1;
      }
      assert log[..lsn] == log;
    }

    /** Replays every UPDATE and CLR, whoever wrote it. */
    method RedoAll(from: nat, ghost losers: LastLsn, ghost base: seq<Action>)
      requires Valid() && from <= |log| && phase == Redoing(from, losers) && Quietly(base, history)
      modifies this`tree, this`versions, this`phase, this`history
      ensures Valid() && phase == Redoing(|log|, losers) && Quietly(base, history)
    {
      var at := from;
      while at < |log|
        invariant from <= at <= |log|
        invariant Valid() && phase == Redoing(at, losers) && Quietly(base, history)
      {
        ghost var h := history;
        RedoOne(at, losers);
        QuietlyThen(base, h, history);
        at := at + 1;
      }
    }

    method RedoOne(at: nat, ghost losers: LastLsn)
      requires Valid() && at < |log| && phase == Redoing(at, losers)
      modifies this`tree, this`versions, this`phase, this`history
      ensures Valid() && phase == Redoing(at + 1, losers) && Quietly(old(history), history)
    {
      ghost var s, a := Abs(), DoRedo;
      RedoDoes(s, a);
      var r := log[at];
      phase := Redoing(at + 1, losers);
      if r.Update? || r.Clr? {
        tree := Apply(tree, r.key, r.op);
        versions := versions + [tree];
      }
      Record(s, a);
    }

    method UndoAll(losers0: LastLsn, ghost base: seq<Action>)
      requires Valid() && phase == Undoing(losers0) && Quietly(base, history)
      modifies this`log, this`tree, this`versions, this`phase, this`history
      ensures Ready() && Quietly(base, history)
    {
      var losers := losers0;
      while losers != map[]
        invariant Valid() && phase == Undoing(losers) && Quietly(base, history)
        decreases |losers|
      {
        ghost var some := MemberKey(losers);
        var t :| t in losers;
        var lsn, rest := losers[t], losers - {t};
        assert rest.Keys == losers.Keys - {t};
        PickLoser(t, losers, base);
        UndoTransactionFromLog(t, lsn, rest, base);
        losers := rest;
      }
      EndRecovery(base);
    }

    ghost method PickLoser(t: TxnId, losers: LastLsn, base: seq<Action>)
      requires Valid() && phase == Undoing(losers) && t in losers && Quietly(base, history)
      modifies this`phase, this`history
      ensures Valid() && phase == Walking(t, losers[t], losers - {t}) && Quietly(base, history)
    {
      var s, a, h := Abs(), DoPick(t), history;
      phase := Walking(t, losers[t], losers - {t});
      Record(s, a);
      QuietlyThen(base, h, history);
    }

    ghost method EndRecovery(base: seq<Action>)
      requires Valid() && phase == Undoing(map[]) && Quietly(base, history)
      modifies this`phase, this`history
      ensures Ready() && Quietly(base, history)
    {
      var s, a, h := Abs(), DoRecovered, history;
      phase := Idle;
      Record(s, a);
      QuietlyThen(base, h, history);
    }

    /** Walks one loser's chain backwards; a CLR skips what is already undone. */
    method UndoTransactionFromLog(t: TxnId, start: int, ghost losers: LastLsn, ghost base: seq<Action>)
      requires Valid() && phase == Walking(t, start, losers) && Quietly(base, history)
      modifies this`log, this`tree, this`versions, this`phase, this`history
      ensures Valid() && phase == Undoing(losers) && Quietly(base, history)
    {
      var lsn := start;
      WalkInLog(t, lsn, losers);
      while lsn != -1
        invariant Valid() && phase == Walking(t, lsn, losers) && Quietly(base, history)
        invariant -1 <= lsn < |log|
        decreases lsn
      {
        WalkInLog(t, lsn, losers);
        var r := log[lsn];
        if r.Begin? {
          break;
        }
        if r.Update? {
          CompensateOne(t, lsn, losers, base);
        } else {
          WalkOver(t, lsn, losers, base);
        }
        lsn := if r.Clr? then r.undoNext else Prev(r);
        WalkInLog(t, lsn, losers);
      }
      EndWalk(t, lsn, losers, base);
    }

    /** A walk is always at a record of the log, and goes down from there. */
    lemma WalkInLog(t: TxnId, lsn: int, losers: LastLsn)
      requires Valid() && phase == Walking(t, lsn, losers)
      ensures -1 <= lsn < |log|
      ensures lsn >= 0 ==> -1 <= NextUndo(log[lsn]) < lsn
    {
      Invariant();
    }

    ghost method WalkOver(t: TxnId, lsn: int, losers: LastLsn, base: seq<Action>)
      requires Valid() && phase == Walking(t, lsn, losers) && Quietly(base, history)
      requires 0 <= lsn < |log| && !log[lsn].Begin? && !log[lsn].Update?
      modifies this`phase, this`history
      ensures Valid() && phase == Walking(t, NextUndo(log[lsn]), losers) && Quietly(base, history)
    {
      var s, a, h := Abs(), DoWalk, history;
      phase := Walking(t, NextUndo(log[lsn]), losers);
      Record(s, a);
      QuietlyThen(base, h, history);
    }

    ghost method EndWalk(t: TxnId, lsn: int, losers: LastLsn, base: seq<Action>)
      requires Valid() && phase == Walking(t, lsn, losers) && Quietly(base, history)
      requires lsn == -1 || (0 <= lsn < |log| && log[lsn].Begin?)
      modifies this`phase, this`history
      ensures Valid() && phase == Undoing(losers) && Quietly(base, history)
    {
      var s, a, h := Abs(), DoWalkEnd, history;
      phase := Undoing(losers);
      Record(s, a);
      QuietlyThen(base, h, history);
    }

    /** The tree changes before the CLR is logged. */
    method CompensateOne(t: TxnId, lsn: nat, ghost losers: LastLsn, ghost base: seq<Action>)
      requires Valid() && phase == Walking(t, lsn, losers) && lsn < |log| && log[lsn].Update? && Quietly(base, history)
      modifies this`log, this`tree, this`versions, this`phase, this`history
      ensures Valid() && phase == Walking(t, old(log)[lsn].prev, losers) && Quietly(base, history)
    {
      ghost var h := history;
      CompensateInTree(t, lsn, losers);
      QuietlyThen(base, h, history);
      h := history;
      LogCompensation(t, lsn, losers);
      QuietlyThen(base, h, history);
    }

    method CompensateInTree(t: TxnId, lsn: nat, ghost losers: LastLsn)
      requires Valid() && phase == Walking(t, lsn, losers) && lsn < |log| && log[lsn].Update?
      modifies this`tree, this`versions, this`phase, this`history
      ensures Valid() && phase == Compensated(t, lsn, losers) && Quietly(old(history), history)
    {
      ghost var s, a := Abs(), DoCompensate;
      var r := log[lsn];
      tree := Apply(tree, r.key, Compensation(r.op, r.prior));
      versions := versions + [tree];
      phase := Compensated(t, lsn, losers);
      Record(s, a);
    }

    method LogCompensation(t: TxnId, lsn: nat, ghost losers: LastLsn)
      requires Valid() && phase == Compensated(t, lsn, losers) && lsn < |log| && log[lsn].Update?
      modifies this`log, this`phase, this`history
      ensures Valid() && phase == Walking(t, old(log)[lsn].prev, losers) && Quietly(old(history), history)
    {
      ghost var s, a := Abs(), DoLogCompensation;
      var r := log[lsn];
      log := log + [Clr(t, -1, Compensation(r.op, r.prior), r.key, r.prev)];
      phase := Walking(t, r.prev, losers);
      Record(s, a);
    }
  }
}

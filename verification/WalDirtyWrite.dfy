/**
 The one obligation the WAL engine leaves to its callers, and why it is exact.

 The engine promises that every operation of a committed transaction survives.
 That fails when a transaction overwrites another one's uncommitted write: if the
 overwriting transaction commits and the other one then aborts, compensation
 takes the committed value away, or brings a deleted one back. The failing family
 is described by `ClaimedByOther`, something a caller can check before the write.
 */
module WalDirtyWrite {
  import opened Common
  import opened WalLog
  import opened WalAccounts
  import opened WalMachine
  import opened WalRecovery
  import opened WalTheorems
  import opened WalUndo

  /** Another running transaction has an uncommitted write of `k`. */
  ghost predicate ClaimedByOther(s: State, t: TxnId, k: Key) {
    exists u :: u in s.active && u != t && Dirty(s.active[u].undo, k)
  }

  /** The actions of a whole abort with `n` updates to undo. */
  function AbortActs(n: nat): seq<Action> {
    if n == 0 then [DoAbortEnd] else [DoUndo, DoLogUndo] + AbortActs(n - 1)
  }

  ghost predicate Aborted(s: State, s': State) {
    && s'.phase.Idle? && s'.active == s.active
    && s.phase.Aborting? && s'.tree == Rolled(s.tree, s.phase.undo)
    && Committed(s'.log) == Committed(s.log)
  }

  lemma ExecOne(s: State, a: Action)
    requires Enabled(s, a)
    ensures ExecFrom(s, [a]) == Some(Do(s, a))
    ensures !DirtyWrite(s, a) ==> DisciplinedFrom(s, [a])
  {
    assert [a][..0] == [];
    assert ExecFrom(s, [a][..0]) == Some(s);
  }

  /** Running `a` first and then `rest`. */
  lemma ExecThen(s: State, a: Action, rest: seq<Action>)
    requires Enabled(s, a)
    ensures ExecFrom(s, [a] + rest) == ExecFrom(Do(s, a), rest)
    ensures !DirtyWrite(s, a) && DisciplinedFrom(Do(s, a), rest) ==> DisciplinedFrom(s, [a] + rest)
  {
    ExecOne(s, a);
    ExecAppend(s, [a], rest);
  }

  lemma ThreeThen(s: State, a: Action, b: Action, c: Action, rest: seq<Action>)
    requires Enabled(s, a) && Enabled(Do(s, a), b) && Enabled(Do(Do(s, a), b), c)
    requires !a.DoLogWrite? && !b.DoLogWrite? && !c.DoLogWrite?
    ensures ExecFrom(s, [a] + ([b] + ([c] + rest))) == ExecFrom(Do(Do(Do(s, a), b), c), rest)
    ensures DisciplinedFrom(Do(Do(Do(s, a), b), c), rest) ==> DisciplinedFrom(s, [a] + ([b] + ([c] + rest)))
  {
    ExecThen(Do(Do(s, a), b), c, rest);
    ExecThen(Do(s, a), b, [c] + rest);
    ExecThen(s, a, [b] + ([c] + rest));
  }

  lemma ExecThree(s: State, a: Action, b: Action, c: Action)
    requires Enabled(s, a) && Enabled(Do(s, a), b) && Enabled(Do(Do(s, a), b), c)
    requires !a.DoLogWrite? && !b.DoLogWrite? && !c.DoLogWrite?
    ensures ExecFrom(s, [a] + ([b] + [c])) == Some(Do(Do(Do(s, a), b), c)) && DisciplinedFrom(s, [a] + ([b] + [c]))
  {
    ExecOne(Do(Do(s, a), b), c);
    ExecThen(Do(s, a), b, [c]);
    ExecThen(s, a, [b] + [c]);
  }

  /** Undoing one update of an abort and logging its CLR. */
  lemma AbortStep(s: State, a1: Action, a2: Action)
    requires s.phase.Aborting? && !s.phase.applied && s.phase.undo != [] && a1.DoUndo? && a2.DoLogUndo?
    ensures Enabled(s, a1) && Enabled(Do(s, a1), a2) && !DirtyWrite(s, a1) && !DirtyWrite(Do(s, a1), a2)
    ensures var s2 := Do(Do(s, a1), a2);
            && s2.phase.Aborting? && !s2.phase.applied && s2.active == s.active
            && |s2.phase.undo| == |s.phase.undo| - 1
            && Rolled(s2.tree, s2.phase.undo) == Rolled(s.tree, s.phase.undo)
            && Committed(s2.log) == Committed(s.log)
  {
    var s1 := Do(s, a1);
    CommitIsAtomic(s, a1);
    CommitIsAtomic(s1, a2);
  }

  /** An abort, once begun, runs to its end and rolls the tree back. */
  lemma {:induction false} AbortRuns(s: State)
    requires s.phase.Aborting? && !s.phase.applied
    ensures var acts := AbortActs(|s.phase.undo|);
            ExecFrom(s, acts).Some? && Aborted(s, ExecFrom(s, acts).value) && DisciplinedFrom(s, acts)
    decreases |s.phase.undo|
  {
    var undo := s.phase.undo;
    if undo == [] {
      ExecOne(s, DoAbortEnd);
    } else {
      var a1, a2, rest := DoUndo, DoLogUndo, AbortActs(|undo| - 1);
      var s1 := Do(s, a1);
      var s2 := Do(s1, a2);
      AbortStep(s, a1, a2);
      AbortRuns(s2);
      ExecThen(s1, a2, rest);
      ExecThen(s, a1, [a2] + rest);
      assert [a1] + ([a2] + rest) == AbortActs(|undo|);
    }
  }

  /** What happens after the dirty write: it commits, then the other one aborts. */
  function LosingActs(t: TxnId, u: TxnId, n: nat): seq<Action> {
    [DoApplyWrite] + ([DoCommit(t)] + ([DoAbort(u)] + AbortActs(n)))
  }

  /** What a committed transaction wrote is undone once the transaction it overwrote
      has aborted: the key is back at what was committed before. */
  lemma DirtyWriteIsLost(s: State, t: TxnId, u: TxnId, k: Key, op: Op)
    requires Sound(s) && Valued(s) && s.phase.Idle? && (op.Delete? ==> k in s.tree)
    requires t in s.active && u in s.active && u != t && Dirty(s.active[u].undo, k)
    ensures var s1 := Do(s, DoLogWrite(t, k, op));
            var rest := LosingActs(t, u, |s.active[u].undo|);
            && ExecFrom(s1, rest).Some? && DisciplinedFrom(s1, rest)
            && var end := ExecFrom(s1, rest).value;
               && end.phase.Idle? && end.active == s.active - {t, u}
               && Get(Committed(end.log), k) == After(op)
               && Get(end.tree, k) == Get(Committed(s.log), k)
  {
    var w, a1, a2, a3 := DoLogWrite(t, k, op), DoApplyWrite, DoCommit(t), DoAbort(u);
    var undo := s.active[u].undo;
    var s1 := Do(s, w);
    var s2 := Do(s1, a1);
    var s3 := Do(s2, a2);
    var s4 := Do(s3, a3);
    AbortRuns(s4);
    ThreeThen(s1, a1, a2, a3, AbortActs(|undo|));
    assert s4.active == s.active - {t, u};
    CommittedWrite(s, w, t, k, op);
    CommitIsAtomic(s1, a1);
    CommitIsAtomic(s2, a2);
    CommitIsAtomic(s3, a3);
    assert RunningOk(s.log, s.active, s.next, u);
    assert PriorsOk(Stacks(s.log)[u], Committed(s.log));
    RolledKey(s4.tree, undo, Committed(s.log), k);
  }

  lemma CommittedWrite(s: State, w: Action, t: TxnId, k: Key, op: Op)
    requires Enabled(s, w) && w == DoLogWrite(t, k, op)
    ensures Get(ApplyAll(Committed(Do(s, w).log), OpenOf(Ledger(Do(s, w).log), t)), k) == After(op)
  {
    var r := UpdateRecord(s, t, k, op);
    Appended(s.log, r);
    DropLast(OpenOf(Ledger(s.log), t), Write(k, op));
  }

  /** The dirty write commits, and then the transaction it overwrote commits too. */
  function OverlappingActs(t: TxnId, u: TxnId): seq<Action> {
    [DoApplyWrite] + ([DoCommit(t)] + [DoCommit(u)])
  }

  /** The value the later commit made durable is not there: the earlier one deleted it. */
  lemma DirtyDeleteOverlaps(s: State, t: TxnId, u: TxnId, k: Key)
    requires Sound(s) && Valued(s) && s.phase.Idle? && k in s.tree
    requires t in s.active && u in s.active && u != t && Dirty(s.active[u].undo, k)
    ensures var s1 := Do(s, DoLogWrite(t, k, Delete));
            var rest := OverlappingActs(t, u);
            && ExecFrom(s1, rest).Some? && DisciplinedFrom(s1, rest)
            && var end := ExecFrom(s1, rest).value;
               && end.phase.Idle? && end.active == s.active - {t, u}
               && Get(Committed(end.log), k) == Get(s.tree, k) && Get(end.tree, k) == None
  {
    var w, a1, a2, a3 := DoLogWrite(t, k, Delete), DoApplyWrite, DoCommit(t), DoCommit(u);
    var s1 := Do(s, w);
    var s2 := Do(s1, a1);
    var s3 := Do(s2, a2);
    var s4 := Do(s3, a3);
    ExecThree(s1, a1, a2, a3);
    assert s4.active == s.active - {t, u};
    CommitIsAtomic(s3, a3);
    StillOpen(s, w, a2, u);
    assert RunningOk(s.log, s.active, s.next, u) && Booked(s.log, u);
    assert KeyOk(Stacks(s.log), Committed(s.log), Replay(s.log), k);
    ApplyWrites(Committed(s3.log), s.active[u].undo, k);
    TopDirty(s.active[u].undo, k, Get(Committed(s3.log), k), Get(Committed(s.log), k));
  }

  /** What `u` has written is still pending after another one's write and commit. */
  lemma StillOpen(s: State, w: Action, c: Action, u: TxnId)
    requires Enabled(s, w) && w.DoLogWrite? && c == DoCommit(w.txn) && u != w.txn
    ensures var s1 := Do(s, w);
            OpenOf(Ledger(s1.log + [Commit(w.txn, s1.active[w.txn].last)]), u) == OpenOf(Ledger(s.log), u)
  {
    var s1 := Do(s, w);
    Appended(s.log, UpdateRecord(s, w.txn, w.key, w.op));
    Appended(s1.log, Commit(w.txn, s1.active[w.txn].last));
  }

  /** The run `acts`, the write `w`, then `rest`: if it ends idle with nobody
      holding an uncommitted write of `k`, the tree agrees with the ledger on `k`. */
  ghost predicate Agrees(acts: seq<Action>, w: Action, rest: seq<Action>, k: Key) {
    var run := Exec(acts + [w] + rest);
    && Exec(acts + [w]).Some?
    && (run.Some? && DisciplinedFrom(Exec(acts + [w]).value, rest) && run.value.phase.Idle?
        && (forall t | t in run.value.active :: !Dirty(run.value.active[t].undo, k))
        ==> Get(run.value.tree, k) == Get(Committed(run.value.log), k))
  }

  /** A write of `k` is safe, however the run goes on, exactly when no other running
      transaction has an uncommitted write of `k`: putting any value, and deleting it. */
  lemma WriteIsSafeIffUnclaimed(acts: seq<Action>, t: TxnId, k: Key)
    requires Exec(acts).Some? && Disciplined(acts)
    requires Exec(acts).value.phase.Idle? && t in Exec(acts).value.active
    ensures !ClaimedByOther(Exec(acts).value, t, k) <==>
            forall v, rest :: Agrees(acts, DoLogWrite(t, k, Put(v)), rest, k)
    ensures k in Exec(acts).value.tree ==>
              (!ClaimedByOther(Exec(acts).value, t, k) <==>
               forall rest :: Agrees(acts, DoLogWrite(t, k, Delete), rest, k))
  {
    var s := Exec(acts).value;
    SoundInitial();
    ValuedInitial();
    RunSound(Initial, acts);
    RunValued(Initial, acts);
    if !ClaimedByOther(s, t, k) {
      forall v, rest ensures Agrees(acts, DoLogWrite(t, k, Put(v)), rest, k) {
        UnclaimedAgrees(acts, DoLogWrite(t, k, Put(v)), rest, k);
      }
      forall rest ensures k in s.tree ==> Agrees(acts, DoLogWrite(t, k, Delete), rest, k) {
        if k in s.tree { UnclaimedAgrees(acts, DoLogWrite(t, k, Delete), rest, k); }
      }
    } else {
      var u :| u in s.active && u != t && Dirty(s.active[u].undo, k);
      var v := if Get(Committed(s.log), k) == Some("") then "x" else "";
      WriteOver(acts, t, u, k, Put(v));
      if k in Committed(s.log) && k in s.tree {
        WriteOver(acts, t, u, k, Delete);
      } else if k in s.tree {
        DeleteOver(acts, t, u, k);
      }
    }
  }

  lemma WriteOver(acts: seq<Action>, t: TxnId, u: TxnId, k: Key, op: Op)
    requires Exec(acts).Some? && Exec(acts).value.phase.Idle? && Sound(Exec(acts).value) && Valued(Exec(acts).value)
    requires var s := Exec(acts).value;
             && t in s.active && u in s.active && u != t && Dirty(s.active[u].undo, k)
             && (op.Delete? ==> k in s.tree) && After(op) != Get(Committed(s.log), k)
    ensures exists rest :: !Agrees(acts, DoLogWrite(t, k, op), rest, k)
  {
    var s := Exec(acts).value;
    var w, rest := DoLogWrite(t, k, op), LosingActs(t, u, |s.active[u].undo|);
    DirtyWriteIsLost(s, t, u, k, op);
    ExecOne(s, w);
    ExecAppend(Initial, acts, [w]);
    ExecAppend(Initial, acts + [w], rest);
    OthersUnclaimed(s, u, k);
    assert !Agrees(acts, w, rest, k);
  }

  lemma DeleteOver(acts: seq<Action>, t: TxnId, u: TxnId, k: Key)
    requires Exec(acts).Some? && Exec(acts).value.phase.Idle? && Sound(Exec(acts).value) && Valued(Exec(acts).value)
    requires var s := Exec(acts).value;
             t in s.active && u in s.active && u != t && Dirty(s.active[u].undo, k) && k in s.tree
    ensures exists rest :: !Agrees(acts, DoLogWrite(t, k, Delete), rest, k)
  {
    var s := Exec(acts).value;
    var w, rest := DoLogWrite(t, k, Delete), OverlappingActs(t, u);
    DirtyDeleteOverlaps(s, t, u, k);
    ExecOne(s, w);
    ExecAppend(Initial, acts, [w]);
    ExecAppend(Initial, acts + [w], rest);
    OthersUnclaimed(s, u, k);
    assert !Agrees(acts, w, rest, k);
  }

  /** Four steps from the beginning a key is claimed. */
  lemma ClaimsHappen(k: Key)
    ensures var acts := [DoBegin, DoBegin, DoLogWrite(0, k, Put("a")), DoApplyWrite];
            && Exec(acts).Some? && Disciplined(acts)
            && var s := Exec(acts).value;
               s.phase.Idle? && 1 in s.active && k in s.tree && ClaimedByOther(s, 1, k)
  {
    var b, w, a := DoBegin, DoLogWrite(0, k, Put("a")), DoApplyWrite;
    var s1 := Do(Initial, b);
    var s2 := Do(s1, b);
    var s3 := Do(s2, w);
    ExecOne(s3, a);
    ExecThen(s2, w, [a]);
    ExecThen(s1, b, [w] + [a]);
    ExecThen(Initial, b, [b] + ([w] + [a]));
    assert [b] + ([b] + ([w] + [a])) == [b, b, w, a];
    var s4 := Do(s3, a);
    assert s4.active[0].undo[0].key == k;
    assert Dirty(s4.active[0].undo, k);
  }

  lemma UnclaimedAgrees(acts: seq<Action>, w: Action, rest: seq<Action>, k: Key)
    requires Exec(acts).Some? && Disciplined(acts) && Exec(acts).value.phase.Idle?
    requires w.DoLogWrite? && w.key == k && Enabled(Exec(acts).value, w)
    requires !ClaimedByOther(Exec(acts).value, w.txn, k)
    ensures Agrees(acts, w, rest, k)
  {
    var s := Exec(acts).value;
    ExecOne(s, w);
    ExecAppend(Initial, acts, [w]);
    ExecAppend(Initial, acts + [w], rest);
    if Exec(acts + [w] + rest).Some? && DisciplinedFrom(Exec(acts + [w]).value, rest)
       && Exec(acts + [w] + rest).value.phase.Idle? {
      TreeShows(acts + [w] + rest, k);
    }
  }

  /** At most one running transaction has an uncommitted write of a key. */
  lemma OthersUnclaimed(s: State, u: TxnId, k: Key)
    requires Sound(s) && Valued(s) && u in s.active && Dirty(s.active[u].undo, k)
    ensures forall t | t in s.active && t != u :: !Dirty(s.active[t].undo, k)
  {
    assert KeyOk(Stacks(s.log), Committed(s.log), Replay(s.log), k);
    assert RunningOk(s.log, s.active, s.next, u);
    forall t | t in s.active && t != u ensures !Dirty(s.active[t].undo, k) {
      assert RunningOk(s.log, s.active, s.next, t);
    }
  }
}

/**
 Further guarantees of the WAL engine: recovery's outcome depends neither on
 where it starts nor on the order of the losers, no update is ever compensated
 twice, and the one obligation it puts on its callers is exact.
 */
module WalUndo {
  import opened Common
  import opened WalLog
  import opened WalAccounts
  import opened WalMachine
  import opened WalRecovery
  import opened WalTheorems

  // ---------------------------------------------------------------------
  // Recovery as a function of the log and the disk
  // ---------------------------------------------------------------------

  /** The table after compensating a stack, newest entry first. */
  function Rolled(m: Table, stack: seq<UndoEntry>): Table
    decreases |stack|
  {
    if stack == [] then m
    else
      var e := stack[|stack| - 1];
      Rolled(Apply(m, e.key, Compensation(e.op, e.prior)), Pop(stack))
  }

  /** The table after undoing the losers named in `order`, one after another. */
  ghost function RollLosers(log: seq<Record>, losers: LastLsn, order: seq<TxnId>, m: Table): Table
    requires Linked(log) && LosersOk(log, losers) && forall t | t in order :: t in losers
  {
    if order == [] then m
    else
      var t := order[0];
      assert t in order;
      assert LoserOk(log, losers[t], t);
      RollLosers(log, losers, order[1..], Rolled(m, Chain(log, losers[t])))
  }

  /** Rolling a transaction back restores the committed value of each key it wrote. */
  lemma {:induction false} RolledKey(m: Table, stack: seq<UndoEntry>, base: Table, k: Key)
    requires PriorsOk(stack, base)
    ensures Get(Rolled(m, stack), k) == if Dirty(stack, k) then Get(base, k) else Get(m, k)
    decreases |stack|
  {
    if stack != [] {
      var e, rest := stack[|stack| - 1], Pop(stack);
      assert stack == rest + [e];
      DirtyPush(rest, e, k);
      PriorsPop(stack, base);
      CompensationShows(stack, base);
      RolledKey(Apply(m, e.key, Compensation(e.op, e.prior)), rest, base, k);
      if !Dirty(rest, e.key) { TopClean(rest, e.key, Get(base, e.key)); }
    }
  }

  ghost predicate DirtyIn(s: map<TxnId, seq<UndoEntry>>, txns: seq<TxnId>, k: Key) {
    exists t :: t in txns && Dirty(StackOf(s, t), k)
  }

  lemma {:induction false} RollLosersKey(log: seq<Record>, losers: LastLsn, order: seq<TxnId>, m: Table, k: Key)
    requires Structured(log) && Accounted(log) && LosersOk(log, losers) && forall t | t in order :: t in losers
    ensures Get(RollLosers(log, losers, order, m), k) ==
            if DirtyIn(Stacks(log), order, k) then Get(Committed(log), k) else Get(m, k)
  {
    if order != [] {
      var t, rest, base := order[0], order[1..], Committed(log);
      var stack := StackOf(Stacks(log), t);
      assert LoserOk(log, losers[t], t);
      assert t in Stacks(log) ==> PriorsOk(Stacks(log)[t], base);
      RolledKey(m, stack, base, k);
      RollLosersKey(log, losers, rest, Rolled(m, stack), k);
      assert order == [t] + rest;
      assert DirtyIn(Stacks(log), order, k) <==> Dirty(stack, k) || DirtyIn(Stacks(log), rest, k);
    }
  }

  /** Recovery is canonical. Whatever a crash left on disk, redo and undo end in
      the committed map, whether they start at the last checkpoint with its listed
      transactions or at LSN 0 with none, and in whatever order losers are undone. */
  lemma RecoveryIsCanonical(acts: seq<Action>, disk: Table, start: Start, order: seq<TxnId>)
    requires Exec(acts).Some? && Disciplined(acts) && OnDisk(disk, Exec(acts).value.versions)
    requires var s := Exec(acts).value;
             start == ReadCheckpoint(s.log, s.checkpoint) || start == Start(0, map[])
    requires Lists(order, Losers(Exec(acts).value.log, start).Keys)
    ensures var log := Exec(acts).value.log;
            && Linked(log) && LosersOk(log, Losers(log, start))
            && RollLosers(log, Losers(log, start), order, Redo(log, start.redoFrom, disk)) == Committed(log)
  {
    SoundInitial();
    ValuedInitial();
    RunSound(Initial, acts);
    RunValued(Initial, acts);
    var s := Exec(acts).value;
    var log, losers := s.log, Losers(s.log, start);
    LosersFound(s, start);
    var m := Redo(log, start.redoFrom, disk);
    var r := RollLosers(log, losers, order, m);
    forall k ensures Get(r, k) == Get(Committed(log), k) {
      RollLosersKey(log, losers, order, m, k);
      RedoneKey(s, disk, start, k);
      RestIsSettled(s, losers, order, k);
    }
    GetEqual(r, Committed(log));
  }

  /** Analysis finds the right chain of every loser, from either starting point. */
  lemma LosersFound(s: State, start: Start)
    requires Sound(s)
    requires start == ReadCheckpoint(s.log, s.checkpoint) || start == Start(0, map[])
    ensures LosersOk(s.log, Losers(s.log, start))
    ensures Settled(s.log, Losers(s.log, start).Keys)
  {
    var losers := Losers(s.log, start);
    forall t | t in losers ensures LoserOk(s.log, losers[t], t) {
      assert LoserAgrees(s.log, ReadCheckpoint(s.log, s.checkpoint), t);
      assert TxnOk(s.log, t);
    }
    forall t | t !in losers.Keys ensures Spent(s.log, t) {
      assert LoserAgrees(s.log, ReadCheckpoint(s.log, s.checkpoint), t);
      assert TxnOk(s.log, t);
    }
  }

  lemma TouchedFromEarlier(log: seq<Record>, a: int, b: int, k: Key)
    requires 0 <= a <= b && Touched(log, b, k)
    ensures Touched(log, a, k)
  {
    var j :| b <= j < |log| && Redoable(log[j]) && log[j].key == k;
  }

  /** After redo, a key is current or some transaction has yet to undo it. */
  lemma RedoneKey(s: State, disk: Table, start: Start, k: Key)
    requires Sound(s) && OnDisk(disk, s.versions)
    requires start == ReadCheckpoint(s.log, s.checkpoint) || start == Start(0, map[])
    ensures TreeKeyOk(s.log, Redo(s.log, start.redoFrom, disk), k)
  {
    RedoKey(s.log, start.redoFrom, disk, k);
    var i :| 0 <= i < |s.versions| && Get(disk, k) == Get(s.versions[i], k);
    assert DiskKeyOk(s.log, RedoFrom(s), s.active.Keys, s.versions[i], k);
    if Orphaned(Stacks(s.log), s.active.Keys, k) {
      var t :| t in Stacks(s.log) && t !in s.active.Keys && Dirty(Stacks(s.log)[t], k);
      assert t !in {};
    }
    if Touched(s.log, RedoFrom(s), k) {
      TouchedFromEarlier(s.log, start.redoFrom, RedoFrom(s), k);
    }
  }

  /** Keys no loser wrote are settled: replay shows their committed value. */
  lemma RestIsSettled(s: State, losers: LastLsn, order: seq<TxnId>, k: Key)
    requires Accounted(s.log) && Settled(s.log, losers.Keys) && Lists(order, losers.Keys)
    ensures Orphaned(Stacks(s.log), {}, k) ==> DirtyIn(Stacks(s.log), order, k)
    ensures !DirtyIn(Stacks(s.log), order, k) ==> Get(Replay(s.log), k) == Get(Committed(s.log), k)
  {
    var stacks := Stacks(s.log);
    forall t | t in stacks && Dirty(stacks[t], k) ensures DirtyIn(stacks, order, k) {
      assert t !in losers.Keys ==> Spent(s.log, t);
      assert t in order && Dirty(StackOf(stacks, t), k);
    }
    assert KeyOk(stacks, Committed(s.log), Replay(s.log), k);
  }

  // ---------------------------------------------------------------------
  // One CLR per UPDATE
  // ---------------------------------------------------------------------

  /** `open`: per transaction, the LSNs of its uncompensated updates.
      `undone`: for each CLR, the LSN of the update it compensates. */
  datatype Matching = Matching(open: map<TxnId, seq<int>>, undone: map<int, int>)

  function LsnsOf(m: Matching, t: TxnId): seq<int> {
    if t in m.open then m.open[t] else []
  }

  function MatchStep(m: Matching, r: Record, lsn: int): Matching {
    match r
    case Begin(t) => m.(open := m.open[t := []])
    case Update(t, _, _, _, _) => m.(open := m.open[t := LsnsOf(m, t) + [lsn]])
    case Clr(t, _, _, _, _) =>
      var l := LsnsOf(m, t);
      if l == [] then m
      else Matching(m.open[t := l[..|l| - 1]], m.undone[lsn := l[|l| - 1]])
    case Commit(t, _) => m.(open := m.open - {t})
    case _ => m
  }

  function Match(log: seq<Record>): Matching {
    if log == [] then Matching(map[], map[])
    else MatchStep(Match(log[..|log| - 1]), log[|log| - 1], |log| - 1)
  }

  /** CLR `c` undoes UPDATE `u`: same transaction and key, the inverse operation,
      resuming where the update's own link leads. */
  ghost predicate Undoes(log: seq<Record>, c: int, u: int) {
    && 0 <= u < c < |log| && log[c].Clr? && log[u].Update?
    && log[c].txn == log[u].txn && log[c].key == log[u].key
    && log[c].op == Compensation(log[u].op, log[u].prior)
    && log[c].undoNext == log[u].prev
  }

  /** `u` is an uncompensated update of `t` whose stack entry is `e`. */
  ghost predicate OpenAt(log: seq<Record>, t: TxnId, u: int, e: UndoEntry) {
    && 0 <= u < |log| && log[u].Update? && log[u].txn == t && EntryOf(log[u]) == e
    && forall c | c in Match(log).undone :: Match(log).undone[c] != u
  }

  ghost predicate LsnsOk(log: seq<Record>, t: TxnId) {
    var l, s := LsnsOf(Match(log), t), StackOf(Stacks(log), t);
    && |l| == |s|
    && (forall i | 0 <= i < |l| :: OpenAt(log, t, l[i], s[i]))
    && (forall i, j | 0 <= i < j < |l| :: l[i] < l[j])
  }

  ghost predicate ClrsOk(log: seq<Record>) {
    var undone := Match(log).undone;
    && (forall c | c in undone :: Undoes(log, c, undone[c]))
    && (forall c | 0 <= c < |log| && log[c].Clr? :: c in undone)
    && (forall c, d | c in undone && d in undone && c != d :: undone[c] != undone[d])
  }

  ghost predicate MatchOk(log: seq<Record>) {
    && ClrsOk(log)
    && forall t {:trigger LsnsOk(log, t)} :: LsnsOk(log, t)
  }

  /** The CLR undoes the newest uncompensated update of its transaction. */
  ghost predicate UndoesTop(log: seq<Record>, r: Record) {
    r.Clr? ==>
      var s := StackOf(Stacks(log), r.txn);
      && s != []
      && var e := s[|s| - 1];
         r.key == e.key && r.op == Compensation(e.op, e.prior) && r.undoNext == e.undoNext
  }

  /** An open update stays open unless the CLR just appended undoes it. */
  lemma StaysOpen(log: seq<Record>, r: Record, t: TxnId, u: int, e: UndoEntry)
    requires OpenAt(log, t, u, e)
    requires r.Clr? ==> var l := LsnsOf(Match(log), r.txn); l == [] || l[|l| - 1] != u
    ensures OpenAt(log + [r], t, u, e)
  {
    DropLast(log, r);
    assert (log + [r])[u] == log[u];
  }

  lemma LsnsStep(log: seq<Record>, r: Record, t: TxnId)
    requires MatchOk(log) && UndoesTop(log, r)
    ensures LsnsOk(log + [r], t)
  {
    if r.Update? && r.txn == t {
      LsnsPush(log, r, t);
    } else {
      LsnsKept(log, r, t);
    }
  }

  /** The new update is open, and above the others. */
  lemma LsnsPush(log: seq<Record>, r: Record, t: TxnId)
    requires MatchOk(log) && r.Update? && r.txn == t
    ensures LsnsOk(log + [r], t)
  {
    var log' := log + [r];
    DropLast(log, r);
    Appended(log, r);
    var m, m' := Match(log), Match(log');
    var l, s, l', s' := LsnsOf(m, t), StackOf(Stacks(log), t), LsnsOf(m', t), StackOf(Stacks(log'), t);
    assert LsnsOk(log, t);
    forall i | 0 <= i < |l'| ensures OpenAt(log', t, l'[i], s'[i]) && (i < |l| ==> l'[i] < |log|) {
      if i < |l| {
        assert OpenAt(log, t, l[i], s[i]);
        StaysOpen(log, r, t, l[i], s[i]);
      } else {
        forall c | c in m'.undone ensures m'.undone[c] != l'[i] {
          assert Undoes(log, c, m.undone[c]);
        }
      }
    }
  }

  /** Any other record leaves the open updates alone, or takes the last one away. */
  lemma LsnsKept(log: seq<Record>, r: Record, t: TxnId)
    requires MatchOk(log) && UndoesTop(log, r) && !(r.Update? && r.txn == t)
    ensures LsnsOk(log + [r], t)
  {
    var log' := log + [r];
    DropLast(log, r);
    Appended(log, r);
    var m, m' := Match(log), Match(log');
    var l, s, l', s' := LsnsOf(m, t), StackOf(Stacks(log), t), LsnsOf(m', t), StackOf(Stacks(log'), t);
    assert LsnsOk(log, t);
    if r.Clr? {
      assert LsnsOk(log, r.txn);
      var lr := LsnsOf(m, r.txn);
      assert OpenAt(log, r.txn, lr[|lr| - 1], StackOf(Stacks(log), r.txn)[|lr| - 1]);
    }
    forall i | 0 <= i < |l'| ensures OpenAt(log', t, l'[i], s'[i]) {
      assert l'[i] == l[i] && s'[i] == s[i];
      assert OpenAt(log, t, l[i], s[i]);
      StaysOpen(log, r, t, l[i], s[i]);
    }
  }

  lemma ClrsStep(log: seq<Record>, r: Record)
    requires MatchOk(log) && UndoesTop(log, r)
    ensures ClrsOk(log + [r])
  {
    var log' := log + [r];
    DropLast(log, r);
    var m, m' := Match(log), Match(log');
    if r.Clr? {
      var l, s := LsnsOf(m, r.txn), StackOf(Stacks(log), r.txn);
      assert LsnsOk(log, r.txn);
      assert OpenAt(log, r.txn, l[|l| - 1], s[|s| - 1]);
      assert log'[l[|l| - 1]] == log[l[|l| - 1]] && log'[|log|] == r;
    }
    forall c | c in m'.undone ensures Undoes(log', c, m'.undone[c]) {
      if c in m.undone && m'.undone[c] == m.undone[c] {
        assert Undoes(log, c, m.undone[c]);
        assert log'[c] == log[c] && log'[m.undone[c]] == log[m.undone[c]];
      }
    }
    forall c | c in m.undone ensures c < |log| && m'.undone[c] == m.undone[c] {
      assert Undoes(log, c, m.undone[c]);
    }
    forall c | 0 <= c < |log'| && log'[c].Clr? ensures c in m'.undone {
      if c < |log| { assert log'[c] == log[c]; }
    }
  }

  lemma AppendsUndoTop(s: State, a: Action)
    requires Sound(s) && Enabled(s, a) && Appends(s, a).Some?
    ensures UndoesTop(s.log, Appends(s, a).value)
  {
    if a.DoLogCompensation? {
      var u := s.log[s.phase.lsn];
      assert StackOf(Stacks(s.log), s.phase.txn) == Chain(s.log, u.prev) + [EntryOf(u)];
    }
  }

  lemma {:induction false} RunMatched(acts: seq<Action>)
    requires Exec(acts).Some?
    ensures MatchOk(Exec(acts).value.log)
    decreases |acts|
  {
    if acts != [] {
      var s, a := Exec(acts[..|acts| - 1]).value, acts[|acts| - 1];
      RunMatched(acts[..|acts| - 1]);
      SoundInitial();
      RunSound(Initial, acts[..|acts| - 1]);
      LogOf(s, a);
      if Appends(s, a).Some? {
        var r := Appends(s, a).value;
        AppendsUndoTop(s, a);
        ClrsStep(s.log, r);
        forall t ensures LsnsOk(s.log + [r], t) {
          LsnsStep(s.log, r, t);
        }
      }
    }
  }

  /** In every run, with or without the discipline and however often aborts and
      recoveries were interrupted: each CLR undoes an earlier UPDATE, and no two
      CLRs undo the same one. */
  lemma OneClrPerUpdate(acts: seq<Action>)
    requires Exec(acts).Some?
    ensures var log := Exec(acts).value.log;
            var undone := Match(log).undone;
            && (forall c | 0 <= c < |log| && log[c].Clr? :: c in undone && Undoes(log, c, undone[c]))
            && (forall c, d | c in undone && d in undone && undone[c] == undone[d] :: c == d)
  {
    RunMatched(acts);
  }
}

/**
 What every log the WAL engine writes satisfies.

 `Structured` concerns links: analysis from LSN 0 finds, for each transaction,
 a chain that walks over exactly the updates it has not compensated. It holds
 of every log, whatever the transactions write.

 `Accounted` concerns values: what replay produces is the committed map with the
 uncommitted writes laid over it, and every prior value recorded in the log is
 the one to go back to. It needs that no transaction overwrites another active
 transaction's uncommitted write.
 */
module WalAccounts {
  import opened Common
  import opened WalLog

  /** Analysis over the whole log. */
  function Full(log: seq<Record>): LastLsn {
    Analyze(log, 0, map[])
  }

  /** Analysis finds transaction `t` with the chain of its uncompensated updates. */
  ghost predicate TxnOk(log: seq<Record>, t: TxnId)
    requires Linked(log)
  {
    && (t in Full(log) <==> t in Stacks(log))
    && (t in Full(log) ==> ChainOk(log, Full(log)[t], Stacks(log)[t]))
  }

  ghost predicate Structured(log: seq<Record>) {
    && Linked(log)
    && forall t {:trigger TxnOk(log, t)} :: TxnOk(log, t)
  }

  /** The link discipline each appended record has to follow. */
  ghost predicate Lawful(log: seq<Record>, r: Record) {
    match r
    case Update(t, prev, _, _, _) => t in Full(log) && prev == Full(log)[t]
    case Clr(t, _, _, _, undoNext) =>
      var s := StackOf(Stacks(log), t);
      s != [] && undoNext == s[|s| - 1].undoNext
    case Commit(_, prev) => -1 <= prev < |log|
    case Abort(_, prev) => -1 <= prev < |log|
    case _ => true
  }

  lemma LinkedStep(log: seq<Record>, r: Record)
    requires Structured(log) && Lawful(log, r)
    ensures Linked(log + [r])
  {
    var log' := log + [r];
    if r.Update? || r.Clr? {
      assert TxnOk(log, r.txn);
    }
    if r.Clr? {
      var s := Stacks(log)[r.txn];
      assert EntryResumes(log, s, |s| - 1);
    }
    forall i | 0 <= i < |log'| ensures -1 <= NextUndo(log'[i]) < i {
      assert i < |log| ==> log'[i] == log[i];
    }
  }

  lemma TxnStep(log: seq<Record>, r: Record, t: TxnId)
    requires Linked(log) && Linked(log + [r]) && TxnOk(log, t) && Lawful(log, r)
    ensures TxnOk(log + [r], t)
  {
    Appended(log, r);
    assert (log + [r])[|log|] == r;
    if t in Full(log) {
      ChainGrows(log, r, Full(log)[t], Stacks(log)[t]);
      if r.Update? && r.txn == t {
        ChainPush(log, r, Full(log)[t], Stacks(log)[t]);
      } else if r.Clr? && r.txn == t {
        ChainPop(log, r, Stacks(log)[t]);
      }
    }
  }

  lemma StructuredStep(log: seq<Record>, r: Record)
    requires Structured(log) && Lawful(log, r)
    ensures Structured(log + [r])
  {
    LinkedStep(log, r);
    forall t ensures TxnOk(log + [r], t) {
      assert TxnOk(log, t);
      TxnStep(log, r, t);
    }
  }

  // ---------------------------------------------------------------------
  // Values
  // ---------------------------------------------------------------------

  predicate Dirty(stack: seq<UndoEntry>, k: Key) {
    exists i :: 0 <= i < |stack| && stack[i].key == k
  }

  /** What a reader of `k` sees through a stack of writes over `base`. */
  function Top(stack: seq<UndoEntry>, k: Key, base: Option<Value>): Option<Value> {
    if stack == [] then base
    else if stack[|stack| - 1].key == k then After(stack[|stack| - 1].op)
    else Top(stack[..|stack| - 1], k, base)
  }

  lemma {:induction false} TopClean(stack: seq<UndoEntry>, k: Key, base: Option<Value>)
    requires !Dirty(stack, k)
    ensures Top(stack, k, base) == base
  {
    if stack != [] {
      var rest := stack[..|stack| - 1];
      assert stack[|stack| - 1].key != k;
      assert forall i | 0 <= i < |rest| :: rest[i] == stack[i];
      TopClean(rest, k, base);
    }
  }

  lemma {:induction false} TopDirty(stack: seq<UndoEntry>, k: Key, a: Option<Value>, b: Option<Value>)
    requires Dirty(stack, k)
    ensures Top(stack, k, a) == Top(stack, k, b)
  {
    if stack[|stack| - 1].key != k {
      var rest := stack[..|stack| - 1];
      var i :| 0 <= i < |stack| && stack[i].key == k;
      assert rest[i].key == k;
      TopDirty(rest, k, a, b);
    }
  }

  /** Each entry's prior value is what the entries below it leave visible. */
  ghost predicate PriorsOk(stack: seq<UndoEntry>, base: Table) {
    forall i | 0 <= i < |stack| ::
      && stack[i].prior == Top(stack[..i], stack[i].key, Get(base, stack[i].key))
      && (stack[i].op.Delete? ==> stack[i].prior.Some?)
  }

  /** One key's books: at most one transaction has uncommitted writes to it, and
      then the table shows that transaction's last one; otherwise it shows the
      committed value. */
  ghost predicate KeyOk(s: map<TxnId, seq<UndoEntry>>, base: Table, m: Table, k: Key) {
    && (forall t, u | t in s && u in s && t != u && Dirty(s[t], k) :: !Dirty(s[u], k))
    && (forall t | t in s && Dirty(s[t], k) :: Get(m, k) == Top(s[t], k, Get(base, k)))
    && ((forall t | t in s :: !Dirty(s[t], k)) ==> Get(m, k) == Get(base, k))
  }

  ghost predicate Explained(s: map<TxnId, seq<UndoEntry>>, base: Table, m: Table) {
    && (forall t {:trigger PriorsOk(s[t], base)} | t in s :: PriorsOk(s[t], base))
    && (forall k {:trigger KeyOk(s, base, m, k)} :: KeyOk(s, base, m, k))
  }

  ghost predicate Accounted(log: seq<Record>) {
    Explained(Stacks(log), Committed(log), Replay(log))
  }

  function Writes(stack: seq<UndoEntry>): seq<Write> {
    if stack == [] then []
    else Writes(stack[..|stack| - 1]) + [Write(stack[|stack| - 1].key, stack[|stack| - 1].op)]
  }

  /** The value discipline each appended record has to follow. */
  ghost predicate Honest(log: seq<Record>, r: Record) {
    var s := Stacks(log);
    match r
    case Begin(t) => StackOf(s, t) == []
    case Update(t, _, op, key, prior) =>
      && t in s
      && prior == Get(Replay(log), key)
      && (op.Delete? ==> prior.Some?)
      && forall u | u in s && u != t :: !Dirty(s[u], key)
    case Clr(t, _, op, key, _) =>
      && StackOf(s, t) != []
      && var e := s[t][|s[t]| - 1];
         key == e.key && op == Compensation(e.op, e.prior)
    case Commit(t, _) => t in s && OpenOf(Ledger(log), t) == Writes(s[t])
    case _ => true
  }

  lemma KeyBegin(s: map<TxnId, seq<UndoEntry>>, base: Table, m: Table, t: TxnId, k: Key)
    requires KeyOk(s, base, m, k) && StackOf(s, t) == []
    ensures KeyOk(s[t := []], base, m, k)
  {
    var s' := s[t := []];
    if forall u | u in s' :: !Dirty(s'[u], k) {
      forall u | u in s ensures !Dirty(s[u], k) {
        assert u in s';
      }
    }
  }

  lemma DirtyPush(stack: seq<UndoEntry>, e: UndoEntry, k: Key)
    ensures Dirty(stack + [e], k) <==> k == e.key || Dirty(stack, k)
  {
    var stack' := stack + [e];
    if k == e.key { assert stack'[|stack|].key == k; }
    if Dirty(stack, k) {
      var i :| 0 <= i < |stack| && stack[i].key == k;
      assert stack'[i].key == k;
    }
  }

  lemma PriorsPush(stack: seq<UndoEntry>, e: UndoEntry, base: Table)
    requires PriorsOk(stack, base)
    requires e.prior == Top(stack, e.key, Get(base, e.key)) && (e.op.Delete? ==> e.prior.Some?)
    ensures PriorsOk(stack + [e], base)
  {
    var stack' := stack + [e];
    forall i | 0 <= i < |stack'|
      ensures stack'[i].prior == Top(stack'[..i], stack'[i].key, Get(base, stack'[i].key))
      ensures stack'[i].op.Delete? ==> stack'[i].prior.Some?
    {
      assert stack'[..i] == if i < |stack| then stack[..i] else stack;
    }
  }

  lemma PriorsPop(stack: seq<UndoEntry>, base: Table)
    requires stack != [] && PriorsOk(stack, base)
    ensures PriorsOk(Pop(stack), base)
  {
    var rest := Pop(stack);
    forall i | 0 <= i < |rest|
      ensures rest[i].prior == Top(rest[..i], rest[i].key, Get(base, rest[i].key))
      ensures rest[i].op.Delete? ==> rest[i].prior.Some?
    {
      assert rest[..i] == stack[..i] && rest[i] == stack[i];
    }
  }

  /** The value on record before a write is the one the writer's stack shows. */
  lemma PriorIsTop(s: map<TxnId, seq<UndoEntry>>, base: Table, m: Table, t: TxnId, k: Key)
    requires KeyOk(s, base, m, k) && t in s
    requires forall u | u in s && u != t :: !Dirty(s[u], k)
    ensures Get(m, k) == Top(s[t], k, Get(base, k))
  {
    if !Dirty(s[t], k) {
      TopClean(s[t], k, Get(base, k));
    }
  }

  lemma KeyUpdate(s: map<TxnId, seq<UndoEntry>>, base: Table, m: Table, t: TxnId, e: UndoEntry, k: Key)
    requires KeyOk(s, base, m, k) && t in s
    requires forall u | u in s && u != t :: !Dirty(s[u], e.key)
    ensures KeyOk(s[t := s[t] + [e]], base, Apply(m, e.key, e.op), k)
  {
    var s' := s[t := s[t] + [e]];
    DirtyPush(s[t], e, k);
    DropLast(s[t], e);
    forall u | u in s' && u != t ensures s'[u] == s[u] {
    }
    if forall u | u in s' :: !Dirty(s'[u], k) {
      assert t in s' && !Dirty(s'[t], k);
      forall u | u in s ensures !Dirty(s[u], k) {
        assert u in s';
      }
    }
  }

  /** Compensating the top entry shows what lay beneath it. */
  lemma CompensationShows(stack: seq<UndoEntry>, base: Table)
    requires stack != [] && PriorsOk(stack, base)
    ensures var e := stack[|stack| - 1];
            After(Compensation(e.op, e.prior)) == Top(Pop(stack), e.key, Get(base, e.key))
  {
    assert stack[..|stack| - 1] == Pop(stack);
    var e := stack[|stack| - 1];
    assert e.prior == Top(stack[..|stack| - 1], e.key, Get(base, e.key));
  }

  lemma KeyClr(s: map<TxnId, seq<UndoEntry>>, base: Table, m: Table, t: TxnId, rest: seq<UndoEntry>, e: UndoEntry,
               op: Op, k: Key)
    requires KeyOk(s, base, m, k) && t in s && s[t] == rest + [e]
    requires After(op) == Top(rest, e.key, Get(base, e.key))
    ensures KeyOk(s[t := rest], base, Apply(m, e.key, op), k)
  {
    var s' := s[t := rest];
    DirtyPush(rest, e, k);
    DropLast(rest, e);
    if k == e.key {
      assert forall u | u in s && u != t :: !Dirty(s[u], k);
      if !Dirty(rest, k) { TopClean(rest, k, Get(base, k)); }
    } else {
      assert Dirty(rest, k) <==> Dirty(s[t], k);
      if forall u | u in s' :: !Dirty(s'[u], k) {
        assert t in s' && !Dirty(s'[t], k);
        forall u | u in s ensures !Dirty(s[u], k) {
          assert u in s';
        }
      }
    }
  }

  /** Committing a transaction moves the values it left visible into the base. */
  lemma {:induction false} ApplyWrites(base: Table, stack: seq<UndoEntry>, k: Key)
    ensures Get(ApplyAll(base, Writes(stack)), k) == Top(stack, k, Get(base, k))
  {
    if stack != [] {
      ApplyWrites(base, stack[..|stack| - 1], k);
      DropLast(Writes(stack[..|stack| - 1]), Write(stack[|stack| - 1].key, stack[|stack| - 1].op));
    }
  }

  lemma KeyCommit(s: map<TxnId, seq<UndoEntry>>, base: Table, m: Table, t: TxnId, k: Key)
    requires KeyOk(s, base, m, k) && t in s
    ensures KeyOk(s - {t}, ApplyAll(base, Writes(s[t])), m, k)
  {
    var s', base' := s - {t}, ApplyAll(base, Writes(s[t]));
    ApplyWrites(base, s[t], k);
    if !Dirty(s[t], k) {
      TopClean(s[t], k, Get(base, k));
      if forall u | u in s' :: !Dirty(s'[u], k) {
        forall u | u in s ensures !Dirty(s[u], k) {
          assert u != t ==> u in s';
        }
      }
    } else {
      forall u | u in s' ensures !Dirty(s'[u], k) {
        assert u in s;
      }
    }
  }

  lemma PriorsCommit(s: map<TxnId, seq<UndoEntry>>, base: Table, m: Table, t: TxnId, u: TxnId)
    requires Explained(s, base, m) && t in s && u in s && u != t
    ensures PriorsOk(s[u], ApplyAll(base, Writes(s[t])))
  {
    assert PriorsOk(s[u], base);
    forall i | 0 <= i < |s[u]|
      ensures Get(ApplyAll(base, Writes(s[t])), s[u][i].key) == Get(base, s[u][i].key)
    {
      var k := s[u][i].key;
      assert KeyOk(s, base, m, k) && Dirty(s[u], k);
      ApplyWrites(base, s[t], k);
      TopClean(s[t], k, Get(base, k));
    }
  }

  lemma ExplainedUpdate(s: map<TxnId, seq<UndoEntry>>, base: Table, m: Table, t: TxnId, e: UndoEntry)
    requires Explained(s, base, m) && t in s
    requires e.prior == Get(m, e.key) && (e.op.Delete? ==> e.prior.Some?)
    requires forall u | u in s && u != t :: !Dirty(s[u], e.key)
    ensures Explained(s[t := s[t] + [e]], base, Apply(m, e.key, e.op))
  {
    var s' := s[t := s[t] + [e]];
    assert KeyOk(s, base, m, e.key);
    PriorIsTop(s, base, m, t, e.key);
    forall u | u in s' ensures PriorsOk(s'[u], base) {
      assert PriorsOk(s[u], base);
      if u == t { PriorsPush(s[t], e, base); }
    }
    forall k ensures KeyOk(s', base, Apply(m, e.key, e.op), k) {
      assert KeyOk(s, base, m, k);
      KeyUpdate(s, base, m, t, e, k);
    }
  }

  lemma ExplainedClr(s: map<TxnId, seq<UndoEntry>>, base: Table, m: Table, t: TxnId)
    requires Explained(s, base, m) && t in s && s[t] != []
    ensures var e := s[t][|s[t]| - 1];
            Explained(s[t := Pop(s[t])], base, Apply(m, e.key, Compensation(e.op, e.prior)))
  {
    var e, rest := s[t][|s[t]| - 1], Pop(s[t]);
    var s', op := s[t := rest], Compensation(e.op, e.prior);
    assert PriorsOk(s[t], base);
    CompensationShows(s[t], base);
    forall u | u in s' ensures PriorsOk(s'[u], base) {
      assert PriorsOk(s[u], base);
      if u == t { PriorsPop(s[t], base); }
    }
    forall k ensures KeyOk(s', base, Apply(m, e.key, op), k) {
      assert KeyOk(s, base, m, k);
      KeyClr(s, base, m, t, rest, e, op, k);
    }
  }

  lemma ExplainedCommit(s: map<TxnId, seq<UndoEntry>>, base: Table, m: Table, t: TxnId)
    requires Explained(s, base, m) && t in s
    ensures Explained(s - {t}, ApplyAll(base, Writes(s[t])), m)
  {
    var s', base' := s - {t}, ApplyAll(base, Writes(s[t]));
    forall u | u in s' ensures PriorsOk(s'[u], base') {
      PriorsCommit(s, base, m, t, u);
    }
    forall k ensures KeyOk(s', base', m, k) {
      assert KeyOk(s, base, m, k);
      KeyCommit(s, base, m, t, k);
    }
  }

  lemma ExplainedBegin(s: map<TxnId, seq<UndoEntry>>, base: Table, m: Table, t: TxnId)
    requires Explained(s, base, m) && StackOf(s, t) == []
    ensures Explained(s[t := []], base, m)
  {
    var s' := s[t := []];
    forall u | u in s' ensures PriorsOk(s'[u], base) {
      assert u in s ==> PriorsOk(s[u], base);
    }
    forall k ensures KeyOk(s', base, m, k) {
      assert KeyOk(s, base, m, k);
      KeyBegin(s, base, m, t, k);
    }
  }

  lemma AccountedStep(log: seq<Record>, r: Record)
    requires Accounted(log) && Honest(log, r)
    ensures Accounted(log + [r])
  {
    Appended(log, r);
    var s, base, m := Stacks(log), Committed(log), Replay(log);
    match r {
      case Begin(t) => ExplainedBegin(s, base, m, t);
      case Update(t, _, _, _, _) => ExplainedUpdate(s, base, m, t, EntryOf(r));
      case Clr(t, _, _, _, _) => ExplainedClr(s, base, m, t);
      case Commit(t, _) => ExplainedCommit(s, base, m, t);
      case _ =>
    }
  }
}

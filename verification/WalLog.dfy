/**
 The write-ahead log of the WAL engine, and what a log means.

 A log is a sequence of records; a record's LSN is its index. Four readings of
 a log are defined here, each by a left-to-right fold:

   Replay    the key/value map that redoing every UPDATE and CLR produces;
   Analyze   the active-transaction table that recovery's analysis builds;
   Stacks    for each transaction, the updates not compensated so far;
   Ledger    the map produced by the committed transactions alone. It knows
             nothing of undo, CLRs, previous-LSN links or checkpoints, and it is
             the reference the engine is measured against.
 */
module WalLog {
  import opened Common

  type Key = int
  type Value = string
  type TxnId = int
  type Table = map<Key, Value>

  datatype Op = Put(value: Value) | Delete

  datatype Record =
    | Begin(txn: TxnId)
    | Update(txn: TxnId, prev: int, op: Op, key: Key, prior: Option<Value>)
    | Commit(txn: TxnId, prev: int)
    | Abort(txn: TxnId, prev: int)
    | Clr(txn: TxnId, prev: int, op: Op, key: Key, undoNext: int)
    | CheckpointBegin
    | ActiveTxn(activeTxn: TxnId, activeLast: int)
    | CheckpointEnd

  datatype UndoEntry = UndoEntry(op: Op, key: Key, prior: Option<Value>, undoNext: int)

  // ---------------------------------------------------------------------
  // Operations
  // ---------------------------------------------------------------------

  function Apply(m: Table, key: Key, op: Op): Table {
    match op
    case Put(v) => m[key := v]
    case Delete => m - {key}
  }

  /** The value an operation leaves behind, if any. */
  function After(op: Op): Option<Value> {
    match op
    case Put(v) => Some(v)
    case Delete => None
  }

  /** The inverse of a logged operation. A DELETE is only ever logged for a key
      that had a value; without one the source would restore the empty string. */
  function Compensation(op: Op, prior: Option<Value>): Op {
    match op
    case Put(_) => if prior.Some? then Put(prior.value) else Delete
    case Delete => Put(if prior.Some? then prior.value else "")
  }

  function EntryOf(r: Record): UndoEntry
    requires r.Update?
  {
    UndoEntry(r.op, r.key, r.prior, r.prev)
  }

  // ---------------------------------------------------------------------
  // Folds
  // ---------------------------------------------------------------------

  predicate Redoable(r: Record) {
    r.Update? || r.Clr?
  }

  function ReplayStep(m: Table, r: Record): Table {
    if Redoable(r) then Apply(m, r.key, r.op) else m
  }

  function Replay(log: seq<Record>): Table {
    if log == [] then map[] else ReplayStep(Replay(log[..|log| - 1]), log[|log| - 1])
  }

  /** Redo from position `from`, starting at a given table. */
  function Redo(log: seq<Record>, from: nat, start: Table): Table
    requires from <= |log|
  {
    if |log| == from then start
    else ReplayStep(Redo(log[..|log| - 1], from, start), log[|log| - 1])
  }

  type LastLsn = map<TxnId, int>

  function AnalyzeStep(active: LastLsn, r: Record, lsn: int): LastLsn {
    match r
    case Begin(t) => active[t := lsn]
    case Update(t, _, _, _, _) => active[t := lsn]
    case Clr(t, _, _, _, _) => active[t := lsn]
    case Commit(t, _) => active - {t}
    case _ => active
  }

  /** Recovery's analysis pass over log[from..], seeded with a table. */
  function Analyze(log: seq<Record>, from: nat, seeds: LastLsn): LastLsn
    requires from <= |log|
  {
    if |log| == from then seeds
    else AnalyzeStep(Analyze(log[..|log| - 1], from, seeds), log[|log| - 1], |log| - 1)
  }

  function StackOf(s: map<TxnId, seq<UndoEntry>>, t: TxnId): seq<UndoEntry> {
    if t in s then s[t] else []
  }

  function Pop(s: seq<UndoEntry>): seq<UndoEntry> {
    if s == [] then [] else s[..|s| - 1]
  }

  function StackStep(s: map<TxnId, seq<UndoEntry>>, r: Record): map<TxnId, seq<UndoEntry>> {
    match r
    case Begin(t) => s[t := []]
    case Update(t, _, _, _, _) => s[t := StackOf(s, t) + [EntryOf(r)]]
    case Clr(t, _, _, _, _) => s[t := Pop(StackOf(s, t))]
    case Commit(t, _) => s - {t}
    case _ => s
  }

  /** The updates each transaction still has to answer for, oldest first. */
  function Stacks(log: seq<Record>): map<TxnId, seq<UndoEntry>> {
    if log == [] then map[] else StackStep(Stacks(log[..|log| - 1]), log[|log| - 1])
  }

  datatype Write = Write(key: Key, op: Op)

  /** `base` is the committed map; `open` holds the writes of transactions that
      have begun but not committed. Writes reach `base` only at COMMIT. */
  datatype LedgerState = LedgerState(base: Table, open: map<TxnId, seq<Write>>)

  function ApplyAll(m: Table, ws: seq<Write>): Table {
    if ws == [] then m else Apply(ApplyAll(m, ws[..|ws| - 1]), ws[|ws| - 1].key, ws[|ws| - 1].op)
  }

  function OpenOf(l: LedgerState, t: TxnId): seq<Write> {
    if t in l.open then l.open[t] else []
  }

  function LedgerStep(l: LedgerState, r: Record): LedgerState {
    match r
    case Begin(t) => l.(open := l.open[t := []])
    case Update(t, _, op, key, _) => l.(open := l.open[t := OpenOf(l, t) + [Write(key, op)]])
    case Commit(t, _) => LedgerState(ApplyAll(l.base, OpenOf(l, t)), l.open - {t})
    case _ => l
  }

  function Ledger(log: seq<Record>): LedgerState {
    if log == [] then LedgerState(map[], map[]) else LedgerStep(Ledger(log[..|log| - 1]), log[|log| - 1])
  }

  /** The map produced by the transactions whose COMMIT record is in the log. */
  function Committed(log: seq<Record>): Table {
    Ledger(log).base
  }

  /** Every fold advances by one step when a record is appended. */
  lemma Appended(log: seq<Record>, r: Record)
    ensures Replay(log + [r]) == ReplayStep(Replay(log), r)
    ensures Stacks(log + [r]) == StackStep(Stacks(log), r)
    ensures Ledger(log + [r]) == LedgerStep(Ledger(log), r)
    ensures forall from: nat, seeds: LastLsn | from <= |log| ::
              Analyze(log + [r], from, seeds) == AnalyzeStep(Analyze(log, from, seeds), r, |log|)
    ensures forall from: nat, start: Table | from <= |log| ::
              Redo(log + [r], from, start) == ReplayStep(Redo(log, from, start), r)
  {
    DropLast(log, r);
  }

  // ---------------------------------------------------------------------
  // The undo chain
  // ---------------------------------------------------------------------

  function Prev(r: Record): int {
    match r
    case Update(_, prev, _, _, _) => prev
    case Commit(_, prev) => prev
    case Abort(_, prev) => prev
    case Clr(_, prev, _, _, _) => prev
    case _ => -1
  }

  /** Where the undo walk goes from a record that is not a BEGIN. */
  function NextUndo(r: Record): int {
    if r.Clr? then r.undoNext else Prev(r)
  }

  /** Links point strictly backwards, so every undo walk terminates. */
  predicate Linked(log: seq<Record>) {
    forall i {:trigger log[i]} | 0 <= i < |log| :: -1 <= NextUndo(log[i]) < i
  }

  /** The updates an undo walk starting at `lsn` compensates, oldest first. */
  function Chain(log: seq<Record>, lsn: int): seq<UndoEntry>
    requires Linked(log) && -1 <= lsn < |log|
    decreases lsn
  {
    if lsn == -1 || log[lsn].Begin? then []
    else if log[lsn].Update? then Chain(log, NextUndo(log[lsn])) + [EntryOf(log[lsn])]
    else Chain(log, NextUndo(log[lsn]))
  }

  /** Appending leaves existing chains alone. */
  lemma {:induction false} ChainStable(log: seq<Record>, r: Record, lsn: int)
    requires Linked(log) && Linked(log + [r]) && -1 <= lsn < |log|
    ensures Chain(log + [r], lsn) == Chain(log, lsn)
    decreases lsn
  {
    if lsn != -1 && !log[lsn].Begin? {
      assert (log + [r])[lsn] == log[lsn];
      ChainStable(log, r, NextUndo(log[lsn]));
    }
  }

  /** `last` is where a transaction's chain starts and `stack` what it holds;
      every entry's resume point leads to exactly the entries below it. */
  ghost predicate ChainOk(log: seq<Record>, last: int, stack: seq<UndoEntry>)
    requires Linked(log)
  {
    && 0 <= last < |log|
    && Chain(log, last) == stack
    && ResumeOk(log, stack)
  }

  ghost predicate EntryResumes(log: seq<Record>, stack: seq<UndoEntry>, i: nat)
    requires Linked(log) && i < |stack|
  {
    -1 <= stack[i].undoNext < |log| && Chain(log, stack[i].undoNext) == stack[..i]
  }

  ghost predicate ResumeOk(log: seq<Record>, stack: seq<UndoEntry>)
    requires Linked(log)
  {
    forall i {:trigger EntryResumes(log, stack, i)} | 0 <= i < |stack| :: EntryResumes(log, stack, i)
  }

  lemma ResumeGrows(log: seq<Record>, r: Record, stack: seq<UndoEntry>)
    requires Linked(log) && Linked(log + [r]) && ResumeOk(log, stack)
    ensures ResumeOk(log + [r], stack)
  {
    forall i | 0 <= i < |stack| ensures EntryResumes(log + [r], stack, i) {
      assert EntryResumes(log, stack, i);
      ChainStable(log, r, stack[i].undoNext);
    }
  }

  lemma ChainGrows(log: seq<Record>, r: Record, last: int, stack: seq<UndoEntry>)
    requires Linked(log) && Linked(log + [r]) && ChainOk(log, last, stack)
    ensures ChainOk(log + [r], last, stack)
  {
    ChainStable(log, r, last);
    ResumeGrows(log, r, stack);
  }

  /** An UPDATE linked to the chain's head pushes its entry. */
  lemma ChainPush(log: seq<Record>, r: Record, last: int, stack: seq<UndoEntry>)
    requires Linked(log) && Linked(log + [r]) && ChainOk(log, last, stack)
    requires r.Update? && r.prev == last
    ensures ChainOk(log + [r], |log|, stack + [EntryOf(r)])
  {
    var log', stack' := log + [r], stack + [EntryOf(r)];
    assert log'[|log|] == r;
    ChainGrows(log, r, last, stack);
    forall i | 0 <= i < |stack'| ensures EntryResumes(log', stack', i) {
      if i < |stack| {
        assert EntryResumes(log', stack, i);
        assert stack'[..i] == stack[..i];
      } else {
        assert stack'[..i] == stack;
      }
    }
  }

  /** A CLR resuming at the top entry's link pops that entry. */
  lemma ChainPop(log: seq<Record>, r: Record, stack: seq<UndoEntry>)
    requires Linked(log) && Linked(log + [r]) && ResumeOk(log, stack) && stack != []
    requires r.Clr? && r.undoNext == stack[|stack| - 1].undoNext
    ensures ChainOk(log + [r], |log|, Pop(stack))
  {
    var log', stack' := log + [r], Pop(stack);
    assert log'[|log|] == r;
    ResumeGrows(log, r, stack);
    assert EntryResumes(log', stack, |stack| - 1);
    forall i | 0 <= i < |stack'| ensures EntryResumes(log', stack', i) {
      assert EntryResumes(log', stack, i);
      assert stack'[..i] == stack[..i];
    }
  }
}

/**
 The ideal store the MVCC store is measured against: it remembers every committed
 transaction in commit order and every running one, and nothing is ever
 collected. Version chains, write records and garbage collection do not occur.
 */
module MvccIdeal {
  import opened Common
  import opened MvccModel

  /** A write and the moment it was made. */
  datatype Stamped = Stamped(stamp: int, content: Option<Value>)

  /** What a transaction's caller asked and was told. */
  datatype Event =
    | ReadOf(key: Key, value: Option<Value>)
    | WriteOf(key: Key, content: Option<Value>)
    | DeleteOf(key: Key, existed: bool)

  datatype Session = Session(
    level: Isolation,
    start: int,
    seen: set<Key>,
    writes: map<Key, Stamped>,
    events: seq<Event>)

  datatype Entry = Entry(txn: TxnId, session: Session, commit: int)

  datatype Ideal = Ideal(ts: int, next: TxnId, history: seq<Entry>, open: map<TxnId, Session>)

  const Fresh := Ideal(0, 0, [], map[])

  /** Position just past the last transaction that committed a write of `k` at or
      before `bound`; 0 if there is none. */
  function LastWriter(history: seq<Entry>, k: Key, bound: int): (n: nat)
    ensures n <= |history|
    ensures n > 0 ==> k in history[n - 1].session.writes && history[n - 1].commit <= bound
    ensures forall m | n <= m < |history| && k in history[m].session.writes :: history[m].commit > bound
  {
    if history == [] then 0
    else
      var h := history[|history| - 1];
      if k in h.session.writes && h.commit <= bound then |history|
      else
        var n := LastWriter(history[..|history| - 1], k, bound);
        assert forall m | 0 <= m < |history| - 1 :: history[m] == history[..|history| - 1][m];
        n
  }

  /** The value of `k` as of `bound`. */
  function AsOf(history: seq<Entry>, k: Key, bound: int): Option<Value> {
    var n := LastWriter(history, k, bound);
    if n == 0 then None else history[n - 1].session.writes[k].content
  }

  /** A surviving write of `k`, committed or pending. */
  ghost predicate Candidate(i: Ideal, k: Key, w: Stamped) {
    || (exists n :: 0 <= n < |i.history| && k in i.history[n].session.writes && i.history[n].session.writes[k] == w)
    || (exists t :: t in i.open && k in i.open[t].writes && i.open[t].writes[k] == w)
  }

  ghost predicate IsLatest(i: Ideal, k: Key, w: Stamped) {
    Candidate(i, k, w) && forall w' | Candidate(i, k, w') :: w'.stamp <= w.stamp
  }

  /** What reading uncommitted sees: the most recent surviving write. */
  ghost function LatestWrite(i: Ideal, k: Key): Option<Value> {
    if exists w :: IsLatest(i, k, w) then
      var w :| IsLatest(i, k, w);
      w.content
    else None
  }

  ghost function Sees(i: Ideal, t: TxnId, k: Key): Option<Value>
    requires t in i.open
  {
    var se := i.open[t];
    if k in se.writes then se.writes[k].content
    else match se.level
      case ReadUncommitted => LatestWrite(i, k)
      case ReadCommitted => AsOf(i.history, k, i.ts)
      case Snapshot => AsOf(i.history, k, se.start)
      case Serializable => AsOf(i.history, k, se.start)
  }

  function Checked(se: Session): set<Key> {
    if se.level.Serializable? then se.writes.Keys + se.seen else se.writes.Keys
  }

  /** Somebody committed a write to a checked key after the transaction started. */
  ghost predicate Overtaken(i: Ideal, t: TxnId)
    requires t in i.open
  {
    exists n, k :: && 0 <= n < |i.history| && k in Checked(i.open[t]) && k in i.history[n].session.writes
                   && i.history[n].commit > i.open[t].start
  }

  ghost function Wrote(i: Ideal, t: TxnId, k: Key, content: Option<Value>, e: Event): Ideal
    requires t in i.open
  {
    var se := i.open[t];
    i.(ts := i.ts + 1,
       open := i.open[t := se.(writes := se.writes[k := Stamped(i.ts, content)], events := se.events + [e])])
  }

  ghost function IdealStep(i: Ideal, c: Call): (Ideal, Reply) {
    match c
    case Begin(level) =>
      (i.(ts := i.ts + 1, next := i.next + 1, open := i.open[i.next := Session(level, i.ts, {}, map[], [])]),
       Began(i.next))
    case Read(t, k) =>
      if t !in i.open then (i, NoSuchTxn)
      else
        var v, se := Sees(i, t, k), i.open[t];
        (i.(open := i.open[t := se.(seen := se.seen + {k}, events := se.events + [ReadOf(k, v)])]), Found(v))
    case Write(t, k, v) =>
      if t !in i.open then (i, NoSuchTxn)
      else (Wrote(i, t, k, Some(v), WriteOf(k, Some(v))), Written)
    case Delete(t, k) =>
      if t !in i.open then (i, NoSuchTxn)
      else
        var existed, se := Sees(i, t, k).Some?, i.open[t];
        var noted := i.(open := i.open[t := se.(seen := se.seen + {k})]);
        (Wrote(noted, t, k, None, DeleteOf(k, existed)), Deleted(existed))
    case Commit(t) =>
      if t !in i.open then (i, NoSuchTxn)
      else if Overtaken(i, t) then (i.(open := i.open - {t}), Decided(false))
      else
        (Ideal(i.ts + 1, i.next, i.history + [Entry(t, i.open[t], i.ts)], i.open - {t}), Decided(true))
    case Abort(t) =>
      if t !in i.open then (i, Closed) else (i.(open := i.open - {t}), Closed)
    case Collect => (i, Collected)
  }

  ghost function IdealRun(calls: seq<Call>): Ideal {
    if calls == [] then Fresh else IdealStep(IdealRun(calls[..|calls| - 1]), calls[|calls| - 1]).0
  }

  ghost function IdealReplies(calls: seq<Call>): (r: seq<Reply>)
    ensures |r| == |calls|
  {
    if calls == [] then []
    else IdealReplies(calls[..|calls| - 1]) + [IdealStep(IdealRun(calls[..|calls| - 1]), calls[|calls| - 1]).1]
  }

  // ---------------------------------------------------------------------
  // Invariants
  // ---------------------------------------------------------------------

  /** A session's writes were made after its start and before `limit`. */
  ghost predicate SessionOk(se: Session, limit: int) {
    && 0 <= se.start < limit
    && forall k | k in se.writes :: se.start < se.writes[k].stamp < limit
  }

  /** First committer wins: two transactions that committed writes of the same key
      did not overlap in time. */
  ghost predicate Disjoint(history: seq<Entry>) {
    forall m, n, k | 0 <= m < n < |history| && k in history[m].session.writes && k in history[n].session.writes ::
      history[m].commit < history[n].session.start
  }

  ghost predicate Ordered(history: seq<Entry>) {
    forall m, n | 0 <= m < n < |history| :: history[m].commit < history[n].commit
  }

  ghost predicate EntryOk(i: Ideal, n: nat)
    requires n < |i.history|
  {
    && i.history[n].commit < i.ts && 0 <= i.history[n].txn < i.next
    && SessionOk(i.history[n].session, i.history[n].commit)
  }

  ghost predicate OpenOk(i: Ideal, t: TxnId)
    requires t in i.open
  {
    && 0 <= t < i.next && SessionOk(i.open[t], i.ts)
    && forall n | 0 <= n < |i.history| :: i.history[n].txn != t && i.history[n].commit != i.open[t].start
  }

  ghost predicate IdealOk(i: Ideal) {
    && 0 <= i.ts && 0 <= i.next
    && (forall n {:trigger EntryOk(i, n)} | 0 <= n < |i.history| :: EntryOk(i, n))
    && (forall t {:trigger OpenOk(i, t)} | t in i.open :: OpenOk(i, t))
    && Ordered(i.history)
    && Disjoint(i.history)
  }

  lemma IdealOkCommit(i: Ideal, t: TxnId)
    requires IdealOk(i) && t in i.open && !Overtaken(i, t)
    ensures IdealOk(Ideal(i.ts + 1, i.next, i.history + [Entry(t, i.open[t], i.ts)], i.open - {t}))
  {
    var se, h := i.open[t], i.history + [Entry(t, i.open[t], i.ts)];
    var i' := Ideal(i.ts + 1, i.next, h, i.open - {t});
    assert OpenOk(i, t);
    forall n | 0 <= n < |h| ensures EntryOk(i', n) {
      if n < |i.history| { assert EntryOk(i, n); }
    }
    forall u | u in i'.open ensures OpenOk(i', u) {
      assert OpenOk(i, u);
    }
    forall m, n | 0 <= m < n < |h| ensures h[m].commit < h[n].commit {
      assert EntryOk(i, m);
    }
    forall m, n, k | 0 <= m < n < |h| && k in h[m].session.writes && k in h[n].session.writes
      ensures h[m].commit < h[n].session.start
    {
      if n == |i.history| {
        assert k in Checked(se) && k in i.history[m].session.writes;
      }
    }
  }

  lemma IdealOkStep(i: Ideal, c: Call)
    requires IdealOk(i)
    ensures IdealOk(IdealStep(i, c).0)
  {
    var i' := IdealStep(i, c).0;
    if c.Commit? && c.txn in i.open && !Overtaken(i, c.txn) {
      IdealOkCommit(i, c.txn);
    } else {
      forall n | 0 <= n < |i'.history| ensures EntryOk(i', n) {
        assert EntryOk(i, n);
      }
      forall t | t in i'.open ensures OpenOk(i', t) {
        if t in i.open {
          assert OpenOk(i, t);
        } else {
          forall n | 0 <= n < |i.history| ensures i.history[n].txn != t && i.history[n].commit != i.ts {
            assert EntryOk(i, n);
          }
        }
      }
    }
  }

  /** Surviving writes of a key are told apart by their stamps. */
  ghost predicate StampsUnique(i: Ideal) {
    forall k, w, w' | Candidate(i, k, w) && Candidate(i, k, w') && w.stamp == w'.stamp :: w == w'
  }

  lemma CandidateStamp(i: Ideal, k: Key, w: Stamped)
    requires IdealOk(i) && Candidate(i, k, w)
    ensures w.stamp < i.ts
  {
    if n :| 0 <= n < |i.history| && k in i.history[n].session.writes && i.history[n].session.writes[k] == w {
      assert EntryOk(i, n);
    } else {
      var t :| t in i.open && k in i.open[t].writes && i.open[t].writes[k] == w;
      assert OpenOk(i, t);
    }
  }

  /** A call adds at most one surviving write, stamped with the current time. */
  lemma CandidateStep(i: Ideal, c: Call, k: Key, w: Stamped)
    requires Candidate(IdealStep(i, c).0, k, w)
    ensures Candidate(i, k, w) || (w.stamp == i.ts && (c.Write? || c.Delete?) && c.key == k
                                   && w.content == if c.Write? then Some(c.value) else None)
  {
    var i' := IdealStep(i, c).0;
    if n :| 0 <= n < |i'.history| && k in i'.history[n].session.writes && i'.history[n].session.writes[k] == w {
      if n < |i.history| {
        assert i'.history[n] == i.history[n];
      } else {
        assert c.txn in i.open && k in i.open[c.txn].writes && i.open[c.txn].writes[k] == w;
      }
    } else {
      var t :| t in i'.open && k in i'.open[t].writes && i'.open[t].writes[k] == w;
      if t in i.open && k in i.open[t].writes && i.open[t].writes[k] == w {
        assert Candidate(i, k, w);
      }
    }
  }

  lemma StampsUniqueStep(i: Ideal, c: Call)
    requires IdealOk(i) && StampsUnique(i)
    ensures StampsUnique(IdealStep(i, c).0)
  {
    var i' := IdealStep(i, c).0;
    forall k, w, w' | Candidate(i', k, w) && Candidate(i', k, w') && w.stamp == w'.stamp ensures w == w' {
      CandidateStep(i, c, k, w);
      CandidateStep(i, c, k, w');
      if Candidate(i, k, w) { CandidateStamp(i, k, w); }
      if Candidate(i, k, w') { CandidateStamp(i, k, w'); }
    }
  }
}

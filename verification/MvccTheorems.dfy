/** What the MVCC store guarantees, stated over the replies to every run of calls. */
module MvccTheorems {
  import opened Common
  import opened MvccModel
  import opened MvccIdeal
  import opened MvccRefine

  // ---------------------------------------------------------------------
  // Garbage collection
  // ---------------------------------------------------------------------

  /** The run with every garbage collection taken out. */
  function WithoutGc(calls: seq<Call>): seq<Call> {
    if calls == [] then []
    else if calls[|calls| - 1].Collect? then WithoutGc(calls[..|calls| - 1])
    else WithoutGc(calls[..|calls| - 1]) + [calls[|calls| - 1]]
  }

  /** The replies to everything but garbage collections. */
  function ClientReplies(calls: seq<Call>, replies: seq<Reply>): seq<Reply>
    requires |calls| == |replies|
  {
    if calls == [] then []
    else
      var rest := ClientReplies(calls[..|calls| - 1], replies[..|calls| - 1]);
      if calls[|calls| - 1].Collect? then rest else rest + [replies[|calls| - 1]]
  }

  lemma {:induction false} IdealIgnoresGc(calls: seq<Call>)
    ensures IdealRun(calls) == IdealRun(WithoutGc(calls))
    ensures ClientReplies(calls, IdealReplies(calls)) == IdealReplies(WithoutGc(calls))
  {
    if calls != [] {
      var rest, c := calls[..|calls| - 1], calls[|calls| - 1];
      IdealIgnoresGc(rest);
      DropLast(IdealReplies(rest), IdealStep(IdealRun(rest), c).1);
      if !c.Collect? {
        DropLast(WithoutGc(rest), c);
      }
    }
  }

  /** Garbage collection is unobservable: running it anywhere, any number of times,
      changes no reply to any Begin, Read, Write, Delete, Commit or Abort, at any
      isolation level, then or later. */
  lemma GcIsUnobservable(calls: seq<Call>)
    ensures ClientReplies(calls, Replies(calls)) == Replies(WithoutGc(calls))
  {
    RunRefines(calls);
    RunRefines(WithoutGc(calls));
    IdealIgnoresGc(calls);
  }

  /** A reader with snapshot `start` is given version `v` of the chain. */
  predicate ReadBy(chain: seq<Version>, start: int, v: Version) {
    Newest(chain, Snapshot, start) == Some(v)
  }

  lemma {:induction false} SomethingFollows(chain: seq<Version>, v: Version, n: nat) returns (w: Version)
    requires n < |chain| && chain[n].committed && v.commitTs < chain[n].commitTs
    ensures Follows(chain, v, w)
    decreases chain[n].commitTs - v.commitTs
  {
    w := chain[n];
    if m :| 0 <= m < |chain| && chain[m].committed && v.commitTs < chain[m].commitTs < w.commitTs {
      w := SomethingFollows(chain, v, m);
    }
  }

  lemma ReadIsAlive(chain: seq<Version>, starts: set<int>, now: int, v: Version, s: int)
    requires forall u | u in chain && u.committed :: u.commitTs < now
    requires (s == now || s in starts) && ReadBy(chain, s, v)
    ensures v in chain && v.committed && !Dead(chain, starts, v)
  {
    NewestIsMax(chain, Snapshot, s);
    forall w | Follows(chain, v, w) ensures s < w.commitTs {
      assert IsVisible(w, Snapshot, s) ==> w.commitTs <= v.commitTs;
    }
  }

  lemma AliveIsRead(chain: seq<Version>, starts: set<int>, now: int, v: Version) returns (s: int)
    requires Unrivalled(chain) && forall u | u in chain && u.committed :: u.commitTs < now
    requires v in chain && v.committed && !Dead(chain, starts, v)
    ensures (s == now || s in starts) && ReadBy(chain, s, v)
  {
    s := now;
    if n :| 0 <= n < |chain| && chain[n].committed && v.commitTs < chain[n].commitTs {
      var w := SomethingFollows(chain, v, n);
      s :| s in starts && v.commitTs <= s < w.commitTs;
    }
    NewestIsMax(chain, Snapshot, s);
    assert Rivals(v, Newest(chain, Snapshot, s).value);
  }

  lemma CollectedChain(calls: seq<Call>, k: Key)
    ensures ChainOf(Run(calls + [Collect]).chains, k)
         == Sweep(ChainOf(Run(calls).chains, k), ChainOf(Run(calls).chains, k), Starts(Run(calls).txns))
  {
    DropLast(calls, Collect);
  }

  /** Garbage collection keeps what it must and no more: a committed version stays if and
      only if the snapshot of some running transaction, or of one that began now, would
      be answered with it. */
  lemma CollectKeepsExactlyTheReadable(calls: seq<Call>, k: Key, v: Version)
    requires v in ChainOf(Run(calls).chains, k) && v.committed
    ensures v in ChainOf(Run(calls + [Collect]).chains, k)
            <==> exists s :: (s == Run(calls).ts || s in Starts(Run(calls).txns)) && ReadBy(ChainOf(Run(calls).chains, k), s, v)
  {
    RunRefines(calls);
    var st, i := Run(calls), IdealRun(calls);
    var chain, starts := ChainOf(st.chains, k), Starts(st.txns);
    assert KeyMatches(st, i, k);
    forall u | u in chain && u.committed ensures u.commitTs < st.ts { CommittedBeforeNow(i, k, u); }
    CollectedChain(calls, k);
    SweepFacts(chain, chain, starts);
    if s :| (s == st.ts || s in starts) && ReadBy(chain, s, v) {
      ReadIsAlive(chain, starts, st.ts, v, s);
    } else if !Dead(chain, starts, v) {
      var s := AliveIsRead(chain, starts, st.ts, v);
    }
  }

  /** Garbage collection touches no pending version. */
  lemma CollectKeepsThePending(calls: seq<Call>, k: Key, v: Version)
    requires v in ChainOf(Run(calls).chains, k) && !v.committed
    ensures v in ChainOf(Run(calls + [Collect]).chains, k)
  {
    CollectedChain(calls, k);
    var chain := ChainOf(Run(calls).chains, k);
    SweepFacts(chain, chain, Starts(Run(calls).txns));
  }

  /** A write record always points at exactly one list node, which holds a pending
      version of its own transaction. */
  lemma WriteRecordsNeverDangle(calls: seq<Call>, t: TxnId, r: WriteRecord)
    requires t in Run(calls).txns && r in Run(calls).txns[t].records
    ensures var chain := ChainOf(Run(calls).chains, r.key);
            exists j :: && 0 <= j < |chain| && chain[j].node == r.node && PendingOf(chain[j], t)
                        && forall l | 0 <= l < |chain| && chain[l].node == r.node :: l == j
  {
    RunRefines(calls);
    var s, i := Run(calls), IdealRun(calls);
    assert TxnMatches(s, i, t) && KeyMatches(s, i, r.key);
    var chain := ChainOf(s.chains, r.key);
    var v :| v in chain && PendingOf(v, t) && v.node == r.node;
    var j :| 0 <= j < |chain| && chain[j] == v;
  }

  // ---------------------------------------------------------------------
  // First committer wins
  // ---------------------------------------------------------------------

  /** The periods [start, commit] of any two transactions that committed a write of
      the same key are disjoint. */
  lemma FirstCommitterWins(calls: seq<Call>, k: Key, m: nat, n: nat)
    requires m < n < |IdealRun(calls).history|
    requires k in IdealRun(calls).history[m].session.writes && k in IdealRun(calls).history[n].session.writes
    ensures var h := IdealRun(calls).history;
            h[m].session.start < h[m].commit < h[n].session.start < h[n].commit
  {
    RunRefines(calls);
    var i := IdealRun(calls);
    assert EntryOk(i, m) && EntryOk(i, n);
  }

  /** In the chains themselves, collected or not, commit order is write order. */
  lemma CommitOrderIsWriteOrder(calls: seq<Call>, k: Key, v: Version, w: Version)
    requires v in ChainOf(Run(calls).chains, k) && w in ChainOf(Run(calls).chains, k)
    requires v.committed && w.committed
    ensures v.commitTs < w.commitTs <==> v.stamp < w.stamp
  {
    RunRefines(calls);
    var s, i := Run(calls), IdealRun(calls);
    assert KeyMatches(s, i, k) && VersionOk(i, k, v) && VersionOk(i, k, w);
    VersionsInOrder(i, k, v, w);
  }

  lemma VersionsInOrder(i: Ideal, k: Key, v: Version, w: Version)
    requires IdealOk(i) && VersionOk(i, k, v) && VersionOk(i, k, w) && v.committed && w.committed
    ensures v.commitTs < w.commitTs <==> v.stamp < w.stamp
  {
    var m :| 0 <= m < |i.history| && Matches(i, k, v, m);
    var n :| 0 <= n < |i.history| && Matches(i, k, w, n);
    if m < n {
      StampsFollowCommits(i, k, m, n);
    } else if n < m {
      StampsFollowCommits(i, k, n, m);
    }
  }

  // ---------------------------------------------------------------------
  // Serial execution
  // ---------------------------------------------------------------------

  type Table = map<Key, Value>

  function SetTo(m: Table, k: Key, content: Option<Value>): Table {
    if content.Some? then m[k := content.value] else m - {k}
  }

  /** The table after executing a transaction's requests on `m`. */
  function Execute(m: Table, events: seq<Event>): Table {
    if events == [] then m
    else
      var before, e := Execute(m, events[..|events| - 1]), events[|events| - 1];
      match e
      case ReadOf(_, _) => before
      case WriteOf(k, content) => SetTo(before, k, content)
      case DeleteOf(k, _) => before - {k}
  }

  /** Executing a transaction's requests on `m` gives the answers it was given. */
  predicate Replays(m: Table, events: seq<Event>) {
    if events == [] then true
    else
      var before, e := Execute(m, events[..|events| - 1]), events[|events| - 1];
      && Replays(m, events[..|events| - 1])
      && match e
         case ReadOf(k, value) => Get(before, k) == value
         case WriteOf(_, _) => true
         case DeleteOf(k, existed) => existed == (k in before)
  }

  /** What the caller of transaction `t` asked and was told in the run. */
  ghost function Told(calls: seq<Call>, t: TxnId): seq<Event> {
    if calls == [] then []
    else
      var before, c, r := Told(calls[..|calls| - 1], t), calls[|calls| - 1], Replies(calls)[|calls| - 1];
      match EventOf(c, r, t)
      case Some(e) => before + [e]
      case None => before
  }

  function EventOf(c: Call, r: Reply, t: TxnId): Option<Event> {
    match (c, r)
    case (Read(u, k), Found(v)) => if u == t then Some(ReadOf(k, v)) else None
    case (Write(u, k, v), Written) => if u == t then Some(WriteOf(k, Some(v))) else None
    case (Delete(u, k), Deleted(existed)) => if u == t then Some(DeleteOf(k, existed)) else None
    case _ => None
  }

  /** The transactions whose Commit was answered with success, in that order. */
  ghost function CommitOrder(calls: seq<Call>): seq<TxnId> {
    if calls == [] then []
    else
      var before, c, r := CommitOrder(calls[..|calls| - 1]), calls[|calls| - 1], Replies(calls)[|calls| - 1];
      if c.Commit? && r == Decided(true) then before + [c.txn] else before
  }

  /** The table after executing the named transactions one after another. */
  ghost function SerialTable(calls: seq<Call>, order: seq<TxnId>): Table {
    if order == [] then map[]
    else Execute(SerialTable(calls, order[..|order| - 1]), Told(calls, order[|order| - 1]))
  }

  /** Transaction `t` was begun at the given level by the `b`-th call. */
  ghost predicate BegunAt(calls: seq<Call>, b: nat, t: TxnId, level: Isolation) {
    b < |calls| && calls[b] == Begin(level) && Replies(calls)[b] == Began(t)
  }

  // On the ideal store

  ghost function Serial(history: seq<Entry>): Table {
    if history == [] then map[]
    else Execute(Serial(history[..|history| - 1]), history[|history| - 1].session.events)
  }

  /** A session's recorded writes are the net effect of its events. */
  ghost predicate NetEffect(se: Session, m: Table, k: Key) {
    Get(Execute(m, se.events), k) == if k in se.writes then se.writes[k].content else Get(m, k)
  }

  /** Every key a session's answers depend on is in the set of keys it has read. */
  ghost predicate ReadsSeen(se: Session) {
    forall j | 0 <= j < |se.events| && !se.events[j].WriteOf? :: se.events[j].key in se.seen
  }

  ghost predicate Faithful(se: Session) {
    ReadsSeen(se) && forall m, k {:trigger NetEffect(se, m, k)} :: NetEffect(se, m, k)
  }

  /** The transactions that had committed by `bound`. */
  function Upto(history: seq<Entry>, bound: int): (n: nat)
    ensures n <= |history|
  {
    if history == [] then 0
    else if history[|history| - 1].commit <= bound then |history|
    else Upto(history[..|history| - 1], bound)
  }

  predicate TakesSnapshot(level: Isolation) {
    level.Snapshot? || level.Serializable?
  }

  /** All answers of a snapshot transaction are those of its snapshot. */
  ghost predicate SnapshotOk(history: seq<Entry>, se: Session) {
    TakesSnapshot(se.level) ==> Replays(Serial(history[..Upto(history, se.start)]), se.events)
  }

  ghost predicate EntrySerial(history: seq<Entry>, n: nat)
    requires n < |history|
  {
    var se := history[n].session;
    Faithful(se) && (se.level.Serializable? ==> Replays(Serial(history[..n]), se.events))
  }

  ghost predicate OpenFaithful(i: Ideal, t: TxnId)
    requires t in i.open
  {
    Faithful(i.open[t]) && SnapshotOk(i.history, i.open[t])
  }

  ghost predicate SerialOk(i: Ideal) {
    && (forall n {:trigger EntrySerial(i.history, n)} | 0 <= n < |i.history| :: EntrySerial(i.history, n))
    && (forall t {:trigger OpenFaithful(i, t)} | t in i.open :: OpenFaithful(i, t))
  }

  lemma {:induction false} SerialIsAsOf(history: seq<Entry>, k: Key, bound: int)
    requires forall n | 0 <= n < |history| :: history[n].commit <= bound && Faithful(history[n].session)
    ensures Get(Serial(history), k) == AsOf(history, k, bound)
  {
    if history != [] {
      var rest, h := history[..|history| - 1], history[|history| - 1];
      SerialIsAsOf(rest, k, bound);
      assert NetEffect(h.session, Serial(rest), k);
    }
  }

  /** The state as of `bound` is the serial table of those committed by then. */
  lemma {:induction false} UptoIsAsOf(history: seq<Entry>, k: Key, bound: int)
    requires Ordered(history) && forall n | 0 <= n < |history| :: Faithful(history[n].session)
    ensures Get(Serial(history[..Upto(history, bound)]), k) == AsOf(history, k, bound)
    ensures forall n | 0 <= n < Upto(history, bound) :: history[n].commit <= bound
  {
    var n := Upto(history, bound);
    if history != [] {
      var rest, h := history[..|history| - 1], history[|history| - 1];
      if h.commit <= bound {
        assert history[..n] == history;
        SerialIsAsOf(history, k, bound);
      } else {
        assert rest[..n] == history[..n];
        UptoIsAsOf(rest, k, bound);
      }
    }
  }

  lemma UptoAppend(history: seq<Entry>, e: Entry, bound: int)
    requires e.commit > bound
    ensures Upto(history + [e], bound) == Upto(history, bound)
    ensures (history + [e])[..Upto(history, bound)] == history[..Upto(history, bound)]
  {
    DropLast(history, e);
  }

  lemma UptoAll(i: Ideal)
    requires IdealOk(i)
    ensures Upto(i.history, i.ts) == |i.history|
  {
    if i.history != [] { assert EntryOk(i, |i.history| - 1); }
  }

  /** Recording an event that says what the session saw keeps it faithful. */
  lemma FaithfulRead(se: Session, k: Key, e: Event, writes: map<Key, Stamped>, stamp: int)
    requires Faithful(se) && e.key == k
    requires match e
             case ReadOf(_, _) => writes == se.writes
             case WriteOf(_, content) => writes == se.writes[k := Stamped(stamp, content)]
             case DeleteOf(_, _) => writes == se.writes[k := Stamped(stamp, None)]
    ensures Faithful(se.(seen := se.seen + {k}, writes := writes, events := se.events + [e]))
    ensures e.WriteOf? ==> Faithful(se.(writes := writes, events := se.events + [e]))
  {
    var se1, se2 := se.(seen := se.seen + {k}, writes := writes, events := se.events + [e]),
                    se.(writes := writes, events := se.events + [e]);
    DropLast(se.events, e);
    forall m, q ensures NetEffect(se1, m, q) && NetEffect(se2, m, q) {
      assert NetEffect(se, m, q);
    }
  }

  /** What a snapshot transaction sees is what its snapshot plus its own writes hold. */
  lemma SeesSnapshot(i: Ideal, t: TxnId, k: Key)
    requires IdealOk(i) && SerialOk(i) && t in i.open && TakesSnapshot(i.open[t].level)
    ensures Sees(i, t, k) == Get(Execute(Serial(i.history[..Upto(i.history, i.open[t].start)]), i.open[t].events), k)
  {
    var se := i.open[t];
    assert OpenFaithful(i, t);
    forall n | 0 <= n < |i.history| ensures Faithful(i.history[n].session) {
      assert EntrySerial(i.history, n);
    }
    UptoIsAsOf(i.history, k, se.start);
    assert NetEffect(se, Serial(i.history[..Upto(i.history, se.start)]), k);
  }

  // Validation at commit

  ghost predicate AgreeOn(keys: set<Key>, a: Table, b: Table) {
    forall k | k in keys :: Get(a, k) == Get(b, k)
  }

  /** The answers depend only on the keys read. */
  lemma {:induction false} ReplaysElsewhere(keys: set<Key>, a: Table, b: Table, events: seq<Event>)
    requires AgreeOn(keys, a, b) && Replays(a, events)
    requires forall j | 0 <= j < |events| && !events[j].WriteOf? :: events[j].key in keys
    ensures Replays(b, events) && AgreeOn(keys, Execute(a, events), Execute(b, events))
  {
    if events != [] {
      ReplaysElsewhere(keys, a, b, events[..|events| - 1]);
    }
  }

  /** If nobody overtook a serializable transaction, its snapshot still shows the
      current value of everything it read. */
  lemma ValidatedIsCurrent(i: Ideal, t: TxnId)
    requires IdealOk(i) && SerialOk(i) && t in i.open && i.open[t].level.Serializable? && !Overtaken(i, t)
    ensures Replays(Serial(i.history), i.open[t].events)
  {
    var se, h := i.open[t], i.history;
    var snap := Serial(h[..Upto(h, se.start)]);
    assert OpenFaithful(i, t) && OpenOk(i, t);
    forall n | 0 <= n < |h| ensures Faithful(h[n].session) && h[n].commit <= i.ts {
      assert EntrySerial(h, n) && EntryOk(i, n);
    }
    forall k | k in se.seen ensures Get(snap, k) == Get(Serial(h), k) {
      UptoIsAsOf(h, k, se.start);
      SerialIsAsOf(h, k, i.ts);
      forall n | 0 <= n < |h| && k in h[n].session.writes ensures h[n].commit <= se.start {
        assert k in Checked(se);
      }
      LastWriterSame(h, k, se.start, i.ts);
    }
    ReplaysElsewhere(se.seen, snap, Serial(h), se.events);
  }

  lemma SerialOkCommit(i: Ideal, t: TxnId)
    requires IdealOk(i) && SerialOk(i) && t in i.open && !Overtaken(i, t)
    ensures SerialOk(Committed(i, t))
  {
    var i', e := Committed(i, t), Entry(t, i.open[t], i.ts);
    DropLast(i.history, e);
    assert OpenFaithful(i, t);
    if i.open[t].level.Serializable? { ValidatedIsCurrent(i, t); }
    forall n | 0 <= n < |i'.history| ensures EntrySerial(i'.history, n) {
      if n < |i.history| {
        assert EntrySerial(i.history, n);
        assert i'.history[..n] == i.history[..n];
      } else {
        assert i'.history[..n] == i.history;
      }
    }
    forall u | u in i'.open ensures OpenFaithful(i', u) {
      assert OpenFaithful(i, u) && OpenOk(i, u);
      UptoAppend(i.history, e, i.open[u].start);
    }
  }

  lemma SerialOkStep(i: Ideal, c: Call)
    requires IdealOk(i) && SerialOk(i)
    ensures SerialOk(IdealStep(i, c).0)
  {
    var i' := IdealStep(i, c).0;
    if c.Commit? && c.txn in i.open && !Overtaken(i, c.txn) {
      SerialOkCommit(i, c.txn);
    } else {
      assert i'.history == i.history;
      forall t | t in i'.open ensures OpenFaithful(i', t) {
        if t in i.open {
          assert OpenFaithful(i, t);
          if (c.Read? || c.Write? || c.Delete?) && c.txn == t { SerialOkAsk(i, c); }
        }
      }
    }
  }

  lemma SerialOkAsk(i: Ideal, c: Call)
    requires IdealOk(i) && SerialOk(i) && (c.Read? || c.Write? || c.Delete?) && c.txn in i.open
    ensures OpenFaithful(IdealStep(i, c).0, c.txn)
  {
    var t, k := c.txn, c.key;
    var se, se' := i.open[t], IdealStep(i, c).0.open[t];
    assert OpenFaithful(i, t);
    var e := if c.Read? then ReadOf(k, Sees(i, t, k))
             else if c.Write? then WriteOf(k, Some(c.value))
             else DeleteOf(k, Sees(i, t, k).Some?);
    FaithfulRead(se, k, e, se'.writes, i.ts);
    DropLast(se.events, e);
    if TakesSnapshot(se.level) { SeesSnapshot(i, t, k); }
  }

  lemma {:induction false} RunSerialOk(calls: seq<Call>)
    ensures IdealOk(IdealRun(calls)) && SerialOk(IdealRun(calls))
  {
    RunRefines(calls);
    if calls != [] {
      var rest := calls[..|calls| - 1];
      RunSerialOk(rest);
      SerialOkStep(IdealRun(rest), calls[|calls| - 1]);
    }
  }
}

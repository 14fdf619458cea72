/** The MVCC store, garbage collection included, gives the ideal store's replies. */
module MvccRefine {
  import opened Common
  import opened MvccModel
  import opened MvccIdeal

  // ---------------------------------------------------------------------
  // The relation
  // ---------------------------------------------------------------------

  /** Committed version `v` is what the `n`-th committed transaction wrote to `k`. */
  ghost predicate Matches(i: Ideal, k: Key, v: Version, n: nat)
    requires n < |i.history|
  {
    var h := i.history[n];
    && k in h.session.writes && h.commit == v.commitTs && h.txn == v.txn
    && h.session.writes[k] == Stamped(v.stamp, v.content)
  }

  ghost predicate FromHistory(i: Ideal, k: Key, v: Version) {
    exists n :: 0 <= n < |i.history| && Matches(i, k, v, n)
  }

  ghost predicate FromOpen(i: Ideal, k: Key, v: Version) {
    && v.txn in i.open && k in i.open[v.txn].writes
    && i.open[v.txn].writes[k] == Stamped(v.stamp, v.content)
  }

  ghost predicate VersionOk(i: Ideal, k: Key, v: Version) {
    if v.committed then FromHistory(i, k, v) else FromOpen(i, k, v)
  }

  ghost predicate HasPending(chain: seq<Version>, t: TxnId) {
    exists v :: v in chain && PendingOf(v, t)
  }

  ghost predicate HasCommitted(chain: seq<Version>, commitTs: int) {
    exists v :: v in chain && v.committed && v.commitTs == commitTs
  }

  /** Some reader, present or future, may ask for the state as of `bound`. */
  ghost predicate Observable(i: Ideal, bound: int) {
    bound == i.ts || exists t :: t in i.open && i.open[t].start == bound
  }

  /** The version seen as of `bound` is still in the chain. */
  ghost predicate Retained(i: Ideal, chain: seq<Version>, k: Key, bound: int) {
    var n := LastWriter(i.history, k, bound);
    n > 0 ==> HasCommitted(chain, i.history[n - 1].commit)
  }

  ghost predicate NodesDistinct(chain: seq<Version>) {
    forall a, b | 0 <= a < b < |chain| :: chain[a].node != chain[b].node
  }

  /** Two versions that must not both be in a chain: pending ones of one
      transaction, or committed ones of one commit. */
  predicate Rivals(v: Version, w: Version) {
    if v.committed then w.committed && v.commitTs == w.commitTs else !w.committed && v.txn == w.txn
  }

  ghost predicate Unrivalled(chain: seq<Version>) {
    forall v, w {:trigger Rivals(v, w)} | v in chain && w in chain && Rivals(v, w) :: v == w
  }

  ghost predicate ChainMatches(i: Ideal, chain: seq<Version>, k: Key, nextNode: int) {
    && NodesDistinct(chain)
    && Unrivalled(chain)
    && (forall v {:trigger VersionOk(i, k, v)} | v in chain :: VersionOk(i, k, v) && v.node < nextNode)
    && (forall t {:trigger HasPending(chain, t)} | t in i.open && k in i.open[t].writes :: HasPending(chain, t))
    && (forall b {:trigger Retained(i, chain, k, b)} | Observable(i, b) :: Retained(i, chain, k, b))
  }

  ghost predicate KeyMatches(s: Store, i: Ideal, k: Key) {
    ChainMatches(i, ChainOf(s.chains, k), k, s.nextNode)
  }

  /** A write record points at its transaction's pending version. */
  ghost predicate PointsAt(chain: seq<Version>, t: TxnId, node: int) {
    exists v :: v in chain && PendingOf(v, t) && v.node == node
  }

  ghost predicate KeysDistinct(records: seq<WriteRecord>) {
    forall a, b | 0 <= a < b < |records| :: records[a].key != records[b].key
  }

  ghost predicate RecordsMatch(chains: map<Key, seq<Version>>, t: TxnId, records: seq<WriteRecord>, keys: set<Key>) {
    && KeysDistinct(records)
    && (forall r | r in records :: r.key in keys && PointsAt(ChainOf(chains, r.key), t, r.node))
    && (forall k | k in keys :: exists r :: r in records && r.key == k)
  }

  ghost predicate TxnMatches(s: Store, i: Ideal, t: TxnId) {
    && t in s.txns && t in i.open
    && s.txns[t].isolation == i.open[t].level && s.txns[t].start == i.open[t].start
    && s.txns[t].readSet == i.open[t].seen && s.txns[t].writeSet == i.open[t].writes.Keys
    && RecordsMatch(s.chains, t, s.txns[t].records, s.txns[t].writeSet)
  }

  ghost predicate Refines(s: Store, i: Ideal) {
    && s.ts == i.ts && s.next == i.next && s.txns.Keys == i.open.Keys
    && IdealOk(i) && StampsUnique(i)
    && (forall t {:trigger TxnMatches(s, i, t)} | t in i.open :: TxnMatches(s, i, t))
    && (forall k {:trigger KeyMatches(s, i, k)} :: KeyMatches(s, i, k))
  }

  // ---------------------------------------------------------------------
  // Reading
  // ---------------------------------------------------------------------

  lemma {:induction false} NewestIsMax(chain: seq<Version>, level: Isolation, start: int)
    ensures var best := Newest(chain, level, start);
            && (best.Some? ==> best.value in chain && best.value.committed && IsVisible(best.value, level, start))
            && forall v | v in chain && v.committed && IsVisible(v, level, start) ::
                 best.Some? && v.commitTs <= best.value.commitTs
  {
    if chain != [] {
      var rest, last := chain[..|chain| - 1], chain[|chain| - 1];
      assert chain == rest + [last];
      NewestIsMax(rest, level, start);
    }
  }

  lemma {:induction false} LatestIsMax(chain: seq<Version>)
    ensures var best := Latest(chain);
            && (best.Some? ==> best.value in chain)
            && forall v | v in chain :: best.Some? && v.stamp <= best.value.stamp
  {
    if chain != [] {
      var rest, last := chain[..|chain| - 1], chain[|chain| - 1];
      assert chain == rest + [last];
      LatestIsMax(rest);
    }
  }

  /** The newest version in the chain that is visible as of `bound` is the one the
      history calls for, although older ones may have been collected. */
  lemma NewestIsAsOf(i: Ideal, chain: seq<Version>, k: Key, nextNode: int, level: Isolation, start: int, bound: int)
    requires IdealOk(i) && ChainMatches(i, chain, k, nextNode) && Observable(i, bound)
    requires forall v | v in chain && v.committed :: IsVisible(v, level, start) <==> v.commitTs <= bound
    ensures Content(Newest(chain, level, start)) == AsOf(i.history, k, bound)
  {
    NewestIsMax(chain, level, start);
    var n, best := LastWriter(i.history, k, bound), Newest(chain, level, start);
    assert Retained(i, chain, k, bound);
    if best.Some? {
      assert VersionOk(i, k, best.value);
      var m :| 0 <= m < |i.history| && Matches(i, k, best.value, m);
      assert m < n;
      assert m == n - 1;
    }
  }

  lemma CommittedBeforeNow(i: Ideal, k: Key, v: Version)
    requires IdealOk(i) && v.committed && VersionOk(i, k, v)
    ensures v.commitTs < i.ts
  {
    var n :| 0 <= n < |i.history| && Matches(i, k, v, n);
    assert EntryOk(i, n);
  }

  /** Writes of the same key in the history are stamped in commit order. */
  lemma StampsFollowCommits(i: Ideal, k: Key, m: nat, n: nat)
    requires IdealOk(i) && m < n < |i.history|
    requires k in i.history[m].session.writes && k in i.history[n].session.writes
    ensures i.history[m].session.writes[k].stamp < i.history[n].session.writes[k].stamp
  {
    assert EntryOk(i, m) && EntryOk(i, n);
  }

  lemma CommittedInChain(i: Ideal, chain: seq<Version>, k: Key, nextNode: int, n: nat)
    requires IdealOk(i) && ChainMatches(i, chain, k, nextNode)
    requires n < |i.history| && k in i.history[n].session.writes
    ensures exists v :: v in chain && i.history[n].session.writes[k].stamp <= v.stamp
  {
    assert EntryOk(i, n);
    var last := LastWriter(i.history, k, i.ts);
    assert n < last;
    assert Retained(i, chain, k, i.ts);
    var v :| v in chain && v.committed && v.commitTs == i.history[last - 1].commit;
    assert VersionOk(i, k, v);
    var m :| 0 <= m < |i.history| && Matches(i, k, v, m);
    assert m == last - 1;
    if n < m { StampsFollowCommits(i, k, n, m); }
  }

  /** No surviving write is newer than the newest in the chain. */
  lemma CandidateInChain(i: Ideal, chain: seq<Version>, k: Key, nextNode: int, w: Stamped)
    requires IdealOk(i) && ChainMatches(i, chain, k, nextNode) && Candidate(i, k, w)
    ensures exists v :: v in chain && w.stamp <= v.stamp
  {
    if n :| 0 <= n < |i.history| && k in i.history[n].session.writes && i.history[n].session.writes[k] == w {
      CommittedInChain(i, chain, k, nextNode, n);
    } else {
      var t :| t in i.open && k in i.open[t].writes && i.open[t].writes[k] == w;
      assert HasPending(chain, t);
      var v :| v in chain && PendingOf(v, t);
      assert VersionOk(i, k, v);
    }
  }

  lemma VersionIsCandidate(i: Ideal, k: Key, v: Version)
    requires VersionOk(i, k, v)
    ensures Candidate(i, k, Stamped(v.stamp, v.content))
  {
    if v.committed {
      var n :| 0 <= n < |i.history| && Matches(i, k, v, n);
    }
  }

  lemma LatestIsLatest(i: Ideal, chain: seq<Version>, k: Key, nextNode: int)
    requires IdealOk(i) && StampsUnique(i) && ChainMatches(i, chain, k, nextNode)
    ensures Content(Latest(chain)) == LatestWrite(i, k)
  {
    LatestIsMax(chain);
    var best := Latest(chain);
    if best.Some? {
      var w := Stamped(best.value.stamp, best.value.content);
      assert VersionOk(i, k, best.value);
      VersionIsCandidate(i, k, best.value);
      forall w' | Candidate(i, k, w') ensures w'.stamp <= w.stamp {
        CandidateInChain(i, chain, k, nextNode, w');
      }
      assert IsLatest(i, k, w);
    } else {
      forall w | IsLatest(i, k, w) ensures false {
        CandidateInChain(i, chain, k, nextNode, w);
      }
    }
  }

  /** Reading from the chain gives what the ideal store sees. */
  lemma ReadAgrees(s: Store, i: Ideal, t: TxnId, k: Key)
    requires Refines(s, i) && t in i.open
    ensures ReadChain(ChainOf(s.chains, k), t, s.txns[t].isolation, s.txns[t].start) == Sees(i, t, k)
  {
    assert TxnMatches(s, i, t) && KeyMatches(s, i, k);
    var chain, se := ChainOf(s.chains, k), i.open[t];
    var own := PendingAt(chain, t);
    if own < |chain| {
      assert VersionOk(i, k, chain[own]);
    } else {
      assert k in se.writes ==> HasPending(chain, t);
      if se.level.ReadUncommitted? {
        LatestIsLatest(i, chain, k, s.nextNode);
      } else {
        var bound := if se.level.ReadCommitted? then i.ts else se.start;
        forall v | v in chain && v.committed ensures IsVisible(v, se.level, se.start) <==> v.commitTs <= bound {
          assert VersionOk(i, k, v);
          CommittedBeforeNow(i, k, v);
        }
        NewestIsAsOf(i, chain, k, s.nextNode, se.level, se.start, bound);
      }
    }
  }

  /** A committed write leaves itself or a later one in the chain. */
  lemma LaterCommitted(i: Ideal, chain: seq<Version>, k: Key, nextNode: int, n: nat)
    requires IdealOk(i) && ChainMatches(i, chain, k, nextNode)
    requires n < |i.history| && k in i.history[n].session.writes
    ensures exists v :: v in chain && v.committed && i.history[n].commit <= v.commitTs && VersionOk(i, k, v)
  {
    assert EntryOk(i, n);
    var last := LastWriter(i.history, k, i.ts);
    assert n < last;
    assert Retained(i, chain, k, i.ts);
    var v :| v in chain && v.committed && v.commitTs == i.history[last - 1].commit;
    assert VersionOk(i, k, v);
  }

  lemma ConflictIsOvertaken(s: Store, i: Ideal, t: TxnId)
    requires Refines(s, i) && t in i.open && Conflict(s, t)
    ensures Overtaken(i, t)
  {
    assert TxnMatches(s, i, t);
    var k, j :| && k in CheckKeys(s.txns[t]) && 0 <= j < |ChainOf(s.chains, k)|
                && ConflictsWith(ChainOf(s.chains, k)[j], t, s.txns[t].start);
    var v := ChainOf(s.chains, k)[j];
    assert KeyMatches(s, i, k) && VersionOk(i, k, v);
    var n :| 0 <= n < |i.history| && Matches(i, k, v, n);
    assert k in Checked(i.open[t]) && k in i.history[n].session.writes;
  }

  lemma OvertakenIsConflict(s: Store, i: Ideal, t: TxnId)
    requires Refines(s, i) && t in i.open && Overtaken(i, t)
    ensures Conflict(s, t)
  {
    assert TxnMatches(s, i, t) && OpenOk(i, t);
    var n, k :| && 0 <= n < |i.history| && k in Checked(i.open[t]) && k in i.history[n].session.writes
                && i.history[n].commit > i.open[t].start;
    var chain := ChainOf(s.chains, k);
    assert KeyMatches(s, i, k);
    LaterCommitted(i, chain, k, s.nextNode, n);
    var v :| v in chain && v.committed && i.history[n].commit <= v.commitTs && VersionOk(i, k, v);
    var m :| 0 <= m < |i.history| && Matches(i, k, v, m);
    assert i.history[m].txn != t;
    var j :| 0 <= j < |chain| && chain[j] == v;
    assert k in CheckKeys(s.txns[t]) && ConflictsWith(chain[j], t, s.txns[t].start);
  }

  /** The commit-time check finds a conflict exactly when there is one, although it
      only looks at the versions still in the chains. */
  lemma ConflictAgrees(s: Store, i: Ideal, t: TxnId)
    requires Refines(s, i) && t in i.open
    ensures Conflict(s, t) <==> Overtaken(i, t)
  {
    if Conflict(s, t) { ConflictIsOvertaken(s, i, t); }
    if Overtaken(i, t) { OvertakenIsConflict(s, i, t); }
  }

  // ---------------------------------------------------------------------
  // Each call keeps the relation
  // ---------------------------------------------------------------------

  /** Bounds with no commit of `k` between them see the same state. */
  lemma LastWriterSame(history: seq<Entry>, k: Key, a: int, b: int)
    requires forall n | 0 <= n < |history| && k in history[n].session.writes ::
               history[n].commit <= a <==> history[n].commit <= b
    ensures LastWriter(history, k, a) == LastWriter(history, k, b)
  {
    var m, n := LastWriter(history, k, a), LastWriter(history, k, b);
    if n > 0 { assert k in history[n - 1].session.writes; }
    if m > 0 { assert k in history[m - 1].session.writes; }
  }

  lemma NowIsNow(i: Ideal, k: Key, b: int)
    requires IdealOk(i) && b >= i.ts
    ensures LastWriter(i.history, k, b) == LastWriter(i.history, k, i.ts)
  {
    forall n | 0 <= n < |i.history| && k in i.history[n].session.writes
      ensures i.history[n].commit <= b && i.history[n].commit <= i.ts
    {
      assert EntryOk(i, n);
    }
    LastWriterSame(i.history, k, b, i.ts);
  }

  /** A chain still matches when history stands still and sessions agree on `k`. */
  lemma ChainKeeps(i: Ideal, i': Ideal, chain: seq<Version>, k: Key, node: int, node': int)
    requires IdealOk(i) && ChainMatches(i, chain, k, node) && node <= node'
    requires i'.history == i.history && i'.ts >= i.ts
    requires forall t | t in i.open && k in i.open[t].writes ::
               t in i'.open && k in i'.open[t].writes && i'.open[t].writes[k] == i.open[t].writes[k]
    requires forall t | t in i'.open && k in i'.open[t].writes :: t in i.open && k in i.open[t].writes
    requires forall t | t in i'.open ::
               i'.open[t].start >= i.ts || (t in i.open && i.open[t].start == i'.open[t].start)
    ensures ChainMatches(i', chain, k, node')
  {
    forall v | v in chain ensures VersionOk(i', k, v) && v.node < node' {
      assert VersionOk(i, k, v);
      VersionKeeps(i, i', k, v);
    }
    forall b | Observable(i', b) ensures Retained(i', chain, k, b) {
      if b >= i.ts {
        NowIsNow(i, k, b);
        assert Retained(i, chain, k, i.ts);
      } else {
        assert Retained(i, chain, k, b);
      }
    }
  }

  lemma VersionKeeps(i: Ideal, i': Ideal, k: Key, v: Version)
    requires VersionOk(i, k, v) && i'.history == i.history
    requires forall t | t in i.open && k in i.open[t].writes ::
               t in i'.open && k in i'.open[t].writes && i'.open[t].writes[k] == i.open[t].writes[k]
    ensures VersionOk(i', k, v)
  {
    if v.committed {
      var n :| 0 <= n < |i.history| && Matches(i, k, v, n);
      assert Matches(i', k, v, n);
    }
  }

  lemma RefineBegin(s: Store, i: Ideal, c: Call)
    requires Refines(s, i) && c.Begin?
    ensures Refines(Step(s, c).0, IdealStep(i, c).0)
  {
    var s', i' := Step(s, c).0, IdealStep(i, c).0;
    IdealOkStep(i, c);
    StampsUniqueStep(i, c);
    assert i.next in i.open ==> OpenOk(i, i.next);
    forall t | t in i'.open ensures TxnMatches(s', i', t) {
      if t in i.open { assert TxnMatches(s, i, t); }
    }
    forall k ensures KeyMatches(s', i', k) {
      assert KeyMatches(s, i, k);
      ChainKeeps(i, i', ChainOf(s.chains, k), k, s.nextNode, s.nextNode);
    }
  }

  /** The ideal store with `k` added to what transaction `t` has read. */
  ghost function Seen(i: Ideal, t: TxnId, k: Key, events: seq<Event>): Ideal
    requires t in i.open
  {
    i.(open := i.open[t := i.open[t].(seen := i.open[t].seen + {k}, events := events)])
  }

  lemma RefineNoted(s: Store, i: Ideal, t: TxnId, k: Key, events: seq<Event>)
    requires Refines(s, i) && t in i.open
    ensures t in s.txns && Refines(Noted(s, t, k), Seen(i, t, k, events))
  {
    assert TxnMatches(s, i, t);
    var s', i' := Noted(s, t, k), Seen(i, t, k, events);
    forall n | 0 <= n < |i.history| ensures EntryOk(i', n) {
      assert EntryOk(i, n);
    }
    forall u | u in i'.open ensures OpenOk(i', u) && TxnMatches(s', i', u) {
      assert OpenOk(i, u) && TxnMatches(s, i, u);
    }
    forall q, w | Candidate(i', q, w) ensures Candidate(i, q, w) {
      if u :| u in i'.open && q in i'.open[u].writes && i'.open[u].writes[q] == w {
        assert u in i.open && q in i.open[u].writes && i.open[u].writes[q] == w;
      }
    }
    forall q ensures KeyMatches(s', i', q) {
      assert KeyMatches(s, i, q);
      ChainKeeps(i, i', ChainOf(s.chains, q), q, s.nextNode, s.nextNode);
    }
  }

  // Writing

  lemma RecordsElsewhere(chains: map<Key, seq<Version>>, chains': map<Key, seq<Version>>, u: TxnId,
                         records: seq<WriteRecord>, keys: set<Key>, k: Key)
    requires RecordsMatch(chains, u, records, keys)
    requires forall q | q != k :: ChainOf(chains', q) == ChainOf(chains, q)
    requires forall v | v in ChainOf(chains, k) && PendingOf(v, u) :: PointsAt(ChainOf(chains', k), u, v.node)
    ensures RecordsMatch(chains', u, records, keys)
  {
    forall r | r in records ensures PointsAt(ChainOf(chains', r.key), u, r.node) {
      assert PointsAt(ChainOf(chains, r.key), u, r.node);
    }
  }

  /** Rewriting a pending version in place. */
  lemma ChainRewrite(i: Ideal, i': Ideal, chain: seq<Version>, k: Key, node: int, t: TxnId, own: nat, v': Version)
    requires IdealOk(i) && ChainMatches(i, chain, k, node)
    requires own < |chain| && PendingOf(chain[own], t) && PendingOf(v', t) && v'.node == chain[own].node
    requires t in i.open && i'.history == i.history && i'.ts == i.ts + 1 && i'.open.Keys == i.open.Keys
    requires forall u | u in i.open :: i'.open[u].start == i.open[u].start
    requires forall u | u in i.open && u != t :: i'.open[u] == i.open[u]
    requires k in i'.open[t].writes && i'.open[t].writes[k] == Stamped(v'.stamp, v'.content)
    ensures ChainMatches(i', chain[own := v'], k, node)
  {
    var chain' := chain[own := v'];
    forall v | v in chain' ensures v == v' || (v in chain && (v.committed || v.txn != t)) {
      var j :| 0 <= j < |chain'| && chain'[j] == v;
      if j != own {
        assert chain[j] == v && chain[j] != chain[own];
        var w := chain[own];
        assert PendingOf(v, t) ==> Rivals(v, w);
      }
    }
    forall v, w | v in chain' && w in chain' && Rivals(v, w) ensures v == w {
      if v != v' && w != v' { assert v in chain && w in chain; }
    }
    forall v | v in chain' ensures VersionOk(i', k, v) && v.node < node {
      if v == v' {
        assert VersionOk(i, k, chain[own]);
      } else {
        assert VersionOk(i, k, v);
        if v.committed {
          var n :| 0 <= n < |i.history| && Matches(i, k, v, n);
          assert Matches(i', k, v, n);
        }
      }
    }
    forall v | v in chain && (v.committed || v.txn != t) ensures v in chain' {
      var j :| 0 <= j < |chain| && chain[j] == v;
      assert chain'[j] == v;
    }
    forall u | u in i'.open && k in i'.open[u].writes ensures HasPending(chain', u) {
      if u == t {
        assert chain'[own] == v';
      } else {
        assert HasPending(chain, u);
      }
    }
    RetainedGrows(i, i', chain, chain', k, node);
  }

  lemma RetainedGrows(i: Ideal, i': Ideal, chain: seq<Version>, chain': seq<Version>, k: Key, node: int)
    requires IdealOk(i) && ChainMatches(i, chain, k, node)
    requires i'.history == i.history && i'.ts >= i.ts
    requires forall t | t in i'.open :: t in i.open && i'.open[t].start == i.open[t].start
    requires forall v | v in chain && v.committed :: v in chain'
    ensures forall b | Observable(i', b) :: Retained(i', chain', k, b)
  {
    forall b | Observable(i', b) ensures Retained(i', chain', k, b) {
      if b == i'.ts {
        NowIsNow(i, k, b);
        assert Retained(i, chain, k, i.ts);
      } else {
        assert Retained(i, chain, k, b);
      }
    }
  }

  /** Adding a pending version. */
  lemma ChainAdd(i: Ideal, i': Ideal, chain: seq<Version>, k: Key, t: TxnId, v': Version)
    requires IdealOk(i) && ChainMatches(i, chain, k, v'.node)
    requires (forall v | v in chain :: !PendingOf(v, t)) && PendingOf(v', t)
    requires t in i.open && i'.history == i.history && i'.ts == i.ts + 1 && i'.open.Keys == i.open.Keys
    requires forall u | u in i.open :: i'.open[u].start == i.open[u].start
    requires forall u | u in i.open && u != t :: i'.open[u] == i.open[u]
    requires k in i'.open[t].writes && i'.open[t].writes[k] == Stamped(v'.stamp, v'.content)
    ensures ChainMatches(i', chain + [v'], k, v'.node + 1)
  {
    var chain' := chain + [v'];
    forall v | v in chain' ensures VersionOk(i', k, v) && v.node < v'.node + 1 {
      if v in chain {
        assert VersionOk(i, k, v);
        if v.committed {
          var n :| 0 <= n < |i.history| && Matches(i, k, v, n);
          assert Matches(i', k, v, n);
        }
      }
    }
    forall a | 0 <= a < |chain| ensures chain[a].node < v'.node {
      assert VersionOk(i, k, chain[a]);
    }
    forall u | u in i'.open && k in i'.open[u].writes ensures HasPending(chain', u) {
      if u == t {
        assert v' in chain';
      } else {
        assert HasPending(chain, u);
        var v :| v in chain && PendingOf(v, u);
        assert v in chain';
      }
    }
    RetainedGrows(i, i', chain, chain', k, v'.node);
  }

  lemma WrittenChain(s: Store, i: Ideal, t: TxnId, k: Key, content: Option<Value>, e: Event)
    requires IdealOk(i) && KeyMatches(s, i, k) && s.ts == i.ts && t in i.open && t in s.txns
    ensures var s' := WriteInternal(s, t, k, content);
            KeyMatches(s', Wrote(i, t, k, content, e), k)
  {
    var i', chain := Wrote(i, t, k, content, e), ChainOf(s.chains, k);
    var own := PendingAt(chain, t);
    if own < |chain| {
      ChainRewrite(i, i', chain, k, s.nextNode, t, own, chain[own].(content := content, stamp := s.ts));
    } else {
      ChainAdd(i, i', chain, k, t, Version(s.nextNode, t, s.ts, -1, false, content));
    }
  }

  /** A transaction has a pending version of exactly the keys in its write set. */
  lemma PendingIffWritten(s: Store, i: Ideal, t: TxnId, k: Key)
    requires KeyMatches(s, i, k) && TxnMatches(s, i, t)
    ensures k in s.txns[t].writeSet <==> PendingAt(ChainOf(s.chains, k), t) < |ChainOf(s.chains, k)|
  {
    var chain := ChainOf(s.chains, k);
    var own := PendingAt(chain, t);
    if own < |chain| { assert VersionOk(i, k, chain[own]); }
    if k in s.txns[t].writeSet { assert HasPending(chain, t); }
  }

  lemma RefineWrite(s: Store, i: Ideal, t: TxnId, k: Key, content: Option<Value>, e: Event)
    requires Refines(s, i) && t in i.open
    requires IdealOk(Wrote(i, t, k, content, e)) && StampsUnique(Wrote(i, t, k, content, e))
    ensures t in s.txns && Refines(WriteInternal(s, t, k, content), Wrote(i, t, k, content, e))
  {
    assert TxnMatches(s, i, t) && KeyMatches(s, i, k);
    var s', i' := WriteInternal(s, t, k, content), Wrote(i, t, k, content, e);
    PendingIffWritten(s, i, t, k);
    WrittenChain(s, i, t, k, content, e);
    forall q ensures KeyMatches(s', i', q) {
      if q != k { OtherKeyWritten(s, i, t, k, content, e, q); }
    }
    forall u | u in i'.open ensures TxnMatches(s', i', u) {
      assert TxnMatches(s, i, u);
      WrittenRecords(s, t, k, content, u);
    }
  }

  lemma OtherKeyWritten(s: Store, i: Ideal, t: TxnId, k: Key, content: Option<Value>, e: Event, q: Key)
    requires Refines(s, i) && t in i.open && t in s.txns && q != k
    ensures KeyMatches(WriteInternal(s, t, k, content), Wrote(i, t, k, content, e), q)
  {
    var s', i' := WriteInternal(s, t, k, content), Wrote(i, t, k, content, e);
    assert KeyMatches(s, i, q);
    ChainKeeps(i, i', ChainOf(s.chains, q), q, s.nextNode, s'.nextNode);
  }

  /** Write records still point at their versions after a write. */
  lemma WrittenRecords(s: Store, t: TxnId, k: Key, content: Option<Value>, u: TxnId)
    requires t in s.txns && u in s.txns
    requires RecordsMatch(s.chains, u, s.txns[u].records, s.txns[u].writeSet)
    requires k in s.txns[t].writeSet <==> PendingAt(ChainOf(s.chains, k), t) < |ChainOf(s.chains, k)|
    ensures var s' := WriteInternal(s, t, k, content);
            RecordsMatch(s'.chains, u, s'.txns[u].records, s'.txns[u].writeSet)
  {
    var s', chain := WriteInternal(s, t, k, content), ChainOf(s.chains, k);
    var own, chain' := PendingAt(chain, t), ChainOf(s'.chains, k);
    forall v | v in chain && PendingOf(v, u) ensures PointsAt(chain', u, v.node) {
      var j :| 0 <= j < |chain| && chain[j] == v;
      assert chain'[j] in chain' && PendingOf(chain'[j], u) && chain'[j].node == v.node;
    }
    RecordsElsewhere(s.chains, s'.chains, u, s.txns[u].records, s.txns[u].writeSet, k);
    if u == t && own == |chain| {
      var records, records', r := s.txns[t].records, s'.txns[t].records, WriteRecord(k, s.nextNode);
      assert chain'[|chain|].node == s.nextNode && chain'[|chain|] in chain';
      assert PointsAt(chain', t, s.nextNode);
      assert forall a | 0 <= a < |records| :: records[a] in records;
      forall q | q in s'.txns[t].writeSet ensures exists r' :: r' in records' && r'.key == q {
        if q == k {
          assert r in records';
        } else {
          var r' :| r' in records && r'.key == q;
          assert r' in records';
        }
      }
    }
  }

  // Abort

  lemma {:induction false} EraseFacts(chain: seq<Version>, node: int)
    ensures forall v :: v in Erase(chain, node) <==> v in chain && v.node != node
    ensures NodesDistinct(chain) ==> NodesDistinct(Erase(chain, node))
  {
    if chain != [] {
      var rest, last := chain[..|chain| - 1], chain[|chain| - 1];
      assert chain == rest + [last];
      EraseFacts(rest, node);
      if NodesDistinct(chain) {
        forall a | 0 <= a < |Erase(rest, node)| ensures Erase(rest, node)[a].node != last.node {
          assert Erase(rest, node)[a] in rest;
        }
      }
    }
  }

  lemma {:induction false} EraseAllOther(chains: map<Key, seq<Version>>, records: seq<WriteRecord>, q: Key)
    requires forall r | r in records :: r.key != q
    ensures ChainOf(EraseAll(chains, records), q) == ChainOf(chains, q)
  {
    if records != [] {
      assert records[|records| - 1] in records;
      EraseAllOther(chains, records[..|records| - 1], q);
    }
  }

  lemma {:induction false} EraseAllAt(chains: map<Key, seq<Version>>, records: seq<WriteRecord>, r: WriteRecord)
    requires KeysDistinct(records) && r in records
    ensures ChainOf(EraseAll(chains, records), r.key) == Erase(ChainOf(chains, r.key), r.node)
  {
    var rest, last := records[..|records| - 1], records[|records| - 1];
    assert records == rest + [last];
    if r == last {
      EraseAllOther(chains, rest, r.key);
    } else {
      EraseAllAt(chains, rest, r);
    }
  }

  /** In a chain, only `t`'s pending version sits at the node its record points to. */
  lemma NodeIsPending(chain: seq<Version>, t: TxnId, node: int, j: nat)
    requires NodesDistinct(chain) && Unrivalled(chain) && PointsAt(chain, t, node) && j < |chain|
    ensures chain[j].node == node <==> PendingOf(chain[j], t)
  {
    var p :| p in chain && PendingOf(p, t) && p.node == node;
    var b :| 0 <= b < |chain| && chain[b] == p;
    if PendingOf(chain[j], t) { assert Rivals(chain[j], p); }
  }

  /** The chain of `k` after transaction `t`'s records are erased. */
  lemma ErasedChain(s: Store, i: Ideal, t: TxnId, k: Key)
    requires TxnMatches(s, i, t) && KeyMatches(s, i, k)
    ensures var chain, chain' := ChainOf(s.chains, k), ChainOf(EraseAll(s.chains, s.txns[t].records), k);
            && NodesDistinct(chain')
            && forall v :: v in chain' <==> v in chain && !PendingOf(v, t)
  {
    var chain, records := ChainOf(s.chains, k), s.txns[t].records;
    if k in s.txns[t].writeSet {
      var r :| r in records && r.key == k;
      EraseAllAt(s.chains, records, r);
      EraseFacts(chain, r.node);
      forall v | v in chain ensures v.node == r.node <==> PendingOf(v, t) {
        var j :| 0 <= j < |chain| && chain[j] == v;
        NodeIsPending(chain, t, r.node, j);
      }
    } else {
      EraseAllOther(s.chains, records, k);
      forall v | v in chain ensures !PendingOf(v, t) {
        assert VersionOk(i, k, v);
      }
    }
  }

  lemma ChainClosed(i: Ideal, i': Ideal, chain: seq<Version>, chain': seq<Version>, k: Key, node: int, t: TxnId)
    requires IdealOk(i) && ChainMatches(i, chain, k, node)
    requires i' == i.(open := i.open - {t})
    requires NodesDistinct(chain') && forall v :: v in chain' <==> v in chain && !PendingOf(v, t)
    ensures ChainMatches(i', chain', k, node)
  {
    forall v | v in chain' ensures VersionOk(i', k, v) && v.node < node {
      assert VersionOk(i, k, v);
      if v.committed {
        var n :| 0 <= n < |i.history| && Matches(i, k, v, n);
        assert Matches(i', k, v, n);
      }
    }
    forall u | u in i'.open && k in i'.open[u].writes ensures HasPending(chain', u) {
      assert HasPending(chain, u);
      var v :| v in chain && PendingOf(v, u);
      assert v in chain';
    }
    RetainedGrows(i, i', chain, chain', k, node);
  }

  lemma RefineClose(s: Store, i: Ideal, t: TxnId)
    requires Refines(s, i) && t in i.open
    requires IdealOk(i.(open := i.open - {t})) && StampsUnique(i.(open := i.open - {t}))
    ensures t in s.txns
    ensures Refines(s.(chains := EraseAll(s.chains, s.txns[t].records), txns := s.txns - {t}),
                    i.(open := i.open - {t}))
  {
    assert TxnMatches(s, i, t);
    var s' := s.(chains := EraseAll(s.chains, s.txns[t].records), txns := s.txns - {t});
    var i' := i.(open := i.open - {t});
    forall k ensures KeyMatches(s', i', k) {
      assert KeyMatches(s, i, k);
      ErasedChain(s, i, t, k);
      ChainClosed(i, i', ChainOf(s.chains, k), ChainOf(s'.chains, k), k, s.nextNode, t);
    }
    forall u | u in i'.open ensures TxnMatches(s', i', u) {
      assert TxnMatches(s, i, u);
      forall r | r in s.txns[u].records ensures PointsAt(ChainOf(s'.chains, r.key), u, r.node) {
        assert KeyMatches(s, i, r.key);
        ErasedChain(s, i, t, r.key);
        var v :| v in ChainOf(s.chains, r.key) && PendingOf(v, u) && v.node == r.node;
        assert v in ChainOf(s'.chains, r.key);
      }
    }
  }

  // Commit

  lemma {:induction false} MarkAllOther(chains: map<Key, seq<Version>>, records: seq<WriteRecord>, ts: int, q: Key)
    requires forall r | r in records :: r.key != q
    ensures ChainOf(MarkAll(chains, records, ts), q) == ChainOf(chains, q)
  {
    if records != [] {
      assert records[|records| - 1] in records;
      MarkAllOther(chains, records[..|records| - 1], ts, q);
    }
  }

  lemma {:induction false} MarkAllAt(chains: map<Key, seq<Version>>, records: seq<WriteRecord>, ts: int, r: WriteRecord)
    requires KeysDistinct(records) && r in records
    ensures ChainOf(MarkAll(chains, records, ts), r.key) == Mark(ChainOf(chains, r.key), r.node, ts)
  {
    var rest, last := records[..|records| - 1], records[|records| - 1];
    assert records == rest + [last];
    if r == last {
      MarkAllOther(chains, rest, ts, r.key);
    } else {
      MarkAllAt(chains, rest, ts, r);
    }
  }

  function Stamp(v: Version, t: TxnId, ts: int): Version {
    if PendingOf(v, t) then v.(committed := true, commitTs := ts) else v
  }

  /** Committing turns exactly the transaction's pending versions into committed ones. */
  lemma MarkedChain(s: Store, i: Ideal, t: TxnId, k: Key)
    requires TxnMatches(s, i, t) && KeyMatches(s, i, k)
    ensures var chain, chain' := ChainOf(s.chains, k), ChainOf(MarkAll(s.chains, s.txns[t].records, s.ts), k);
            |chain'| == |chain| && forall j | 0 <= j < |chain| :: chain'[j] == Stamp(chain[j], t, s.ts)
  {
    var chain, records := ChainOf(s.chains, k), s.txns[t].records;
    if k in s.txns[t].writeSet {
      var r :| r in records && r.key == k;
      MarkAllAt(s.chains, records, s.ts, r);
      forall j | 0 <= j < |chain| ensures chain[j].node == r.node <==> PendingOf(chain[j], t) {
        NodeIsPending(chain, t, r.node, j);
      }
    } else {
      MarkAllOther(s.chains, records, s.ts, k);
      forall j | 0 <= j < |chain| ensures !PendingOf(chain[j], t) {
        assert VersionOk(i, k, chain[j]);
      }
    }
  }

  ghost function Committed(i: Ideal, t: TxnId): Ideal
    requires t in i.open
  {
    Ideal(i.ts + 1, i.next, i.history + [Entry(t, i.open[t], i.ts)], i.open - {t})
  }

  lemma StampedVersion(i: Ideal, t: TxnId, k: Key, v: Version)
    requires IdealOk(i) && t in i.open && VersionOk(i, k, v)
    ensures VersionOk(Committed(i, t), k, Stamp(v, t, i.ts))
  {
    var i', v' := Committed(i, t), Stamp(v, t, i.ts);
    if PendingOf(v, t) {
      assert Matches(i', k, v', |i.history|);
    } else if v.committed {
      var n :| 0 <= n < |i.history| && Matches(i, k, v, n);
      assert Matches(i', k, v, n);
    }
  }

  lemma LastWriterAppend(history: seq<Entry>, e: Entry, k: Key, b: int)
    ensures LastWriter(history + [e], k, b) ==
            if k in e.session.writes && e.commit <= b then |history| + 1 else LastWriter(history, k, b)
  {
    DropLast(history, e);
  }

  lemma CommittedKept(chain: seq<Version>, chain': seq<Version>, t: TxnId, ts: int, commitTs: int)
    requires |chain'| == |chain| && forall j | 0 <= j < |chain| :: chain'[j] == Stamp(chain[j], t, ts)
    requires HasCommitted(chain, commitTs)
    ensures HasCommitted(chain', commitTs)
  {
    var v :| v in chain && v.committed && v.commitTs == commitTs;
    var j :| 0 <= j < |chain| && chain[j] == v;
    assert chain'[j] == v && v in chain';
  }

  lemma PendingCommitted(chain: seq<Version>, chain': seq<Version>, t: TxnId, ts: int)
    requires |chain'| == |chain| && forall j | 0 <= j < |chain| :: chain'[j] == Stamp(chain[j], t, ts)
    requires HasPending(chain, t)
    ensures HasCommitted(chain', ts)
  {
    var v :| v in chain && PendingOf(v, t);
    var j :| 0 <= j < |chain| && chain[j] == v;
    assert chain'[j] in chain' && chain'[j].committed && chain'[j].commitTs == ts;
  }

  lemma RetainedCommit(i: Ideal, chain: seq<Version>, chain': seq<Version>, k: Key, node: int, t: TxnId, b: int)
    requires IdealOk(i) && ChainMatches(i, chain, k, node) && t in i.open
    requires |chain'| == |chain| && forall j | 0 <= j < |chain| :: chain'[j] == Stamp(chain[j], t, i.ts)
    requires Observable(Committed(i, t), b)
    ensures Retained(Committed(i, t), chain', k, b)
  {
    var i' := Committed(i, t);
    LastWriterAppend(i.history, Entry(t, i.open[t], i.ts), k, b);
    if b == i'.ts && k in i.open[t].writes {
      assert HasPending(chain, t);
      PendingCommitted(chain, chain', t, i.ts);
    } else {
      if b != i'.ts {
        var u :| u in i'.open && i'.open[u].start == b;
        assert OpenOk(i, u) && Observable(i, b);
        RetainedStamped(i, chain, chain', k, t, b);
      } else {
        NowIsNow(i, k, b);
        assert Observable(i, i.ts);
        RetainedStamped(i, chain, chain', k, t, i.ts);
      }
    }
  }

  lemma RetainedStamped(i: Ideal, chain: seq<Version>, chain': seq<Version>, k: Key, t: TxnId, b: int)
    requires |chain'| == |chain| && forall j | 0 <= j < |chain| :: chain'[j] == Stamp(chain[j], t, i.ts)
    requires Retained(i, chain, k, b)
    ensures Retained(i, chain', k, b)
  {
    var n := LastWriter(i.history, k, b);
    if n > 0 { CommittedKept(chain, chain', t, i.ts, i.history[n - 1].commit); }
  }

  lemma ChainCommitted(i: Ideal, chain: seq<Version>, chain': seq<Version>, k: Key, node: int, t: TxnId)
    requires IdealOk(i) && ChainMatches(i, chain, k, node) && t in i.open
    requires |chain'| == |chain| && forall j | 0 <= j < |chain| :: chain'[j] == Stamp(chain[j], t, i.ts)
    ensures ChainMatches(Committed(i, t), chain', k, node)
  {
    var i' := Committed(i, t);
    forall v' | v' in chain'
      ensures VersionOk(i', k, v') && v'.node < node
      ensures exists v :: v in chain && v' == Stamp(v, t, i.ts) && (v.committed ==> v.commitTs < i.ts)
    {
      var j :| 0 <= j < |chain| && chain'[j] == v';
      assert VersionOk(i, k, chain[j]);
      StampedVersion(i, t, k, chain[j]);
      if chain[j].committed { CommittedBeforeNow(i, k, chain[j]); }
    }
    forall v', w' | v' in chain' && w' in chain' && Rivals(v', w') ensures v' == w' {
      var v :| v in chain && v' == Stamp(v, t, i.ts) && (v.committed ==> v.commitTs < i.ts);
      var w :| w in chain && w' == Stamp(w, t, i.ts) && (w.committed ==> w.commitTs < i.ts);
      assert Rivals(v, w);
    }
    forall u | u in i'.open && k in i'.open[u].writes ensures HasPending(chain', u) {
      assert HasPending(chain, u);
      var v :| v in chain && PendingOf(v, u);
      var j :| 0 <= j < |chain| && chain[j] == v;
      assert chain'[j] == v && v in chain';
    }
    forall b | Observable(i', b) ensures Retained(i', chain', k, b) {
      RetainedCommit(i, chain, chain', k, node, t, b);
    }
  }

  lemma RefineCommit(s: Store, i: Ideal, t: TxnId)
    requires Refines(s, i) && t in i.open
    requires IdealOk(Committed(i, t)) && StampsUnique(Committed(i, t))
    ensures t in s.txns
    ensures Refines(s.(ts := s.ts + 1, chains := MarkAll(s.chains, s.txns[t].records, s.ts), txns := s.txns - {t}),
                    Committed(i, t))
  {
    assert TxnMatches(s, i, t);
    var s' := s.(ts := s.ts + 1, chains := MarkAll(s.chains, s.txns[t].records, s.ts), txns := s.txns - {t});
    var i' := Committed(i, t);
    forall k ensures KeyMatches(s', i', k) {
      assert KeyMatches(s, i, k);
      MarkedChain(s, i, t, k);
      ChainCommitted(i, ChainOf(s.chains, k), ChainOf(s'.chains, k), k, s.nextNode, t);
    }
    forall u | u in i'.open ensures TxnMatches(s', i', u) {
      assert TxnMatches(s, i, u);
      forall r | r in s.txns[u].records ensures PointsAt(ChainOf(s'.chains, r.key), u, r.node) {
        assert KeyMatches(s, i, r.key);
        MarkedChain(s, i, t, r.key);
        var v :| v in ChainOf(s.chains, r.key) && PendingOf(v, u) && v.node == r.node;
        var j :| 0 <= j < |ChainOf(s.chains, r.key)| && ChainOf(s.chains, r.key)[j] == v;
        assert ChainOf(s'.chains, r.key)[j] == v;
      }
    }
  }

  // Garbage collection

  lemma {:induction false} SweepFacts(chain: seq<Version>, whole: seq<Version>, starts: set<int>)
    ensures forall v :: v in Sweep(chain, whole, starts) <==> v in chain && !Dead(whole, starts, v)
    ensures NodesDistinct(chain) ==> NodesDistinct(Sweep(chain, whole, starts))
  {
    if chain != [] {
      var rest, last := chain[..|chain| - 1], chain[|chain| - 1];
      assert chain == rest + [last];
      SweepFacts(rest, whole, starts);
      if NodesDistinct(chain) {
        var swept := Sweep(rest, whole, starts);
        forall a | 0 <= a < |swept| ensures swept[a].node != last.node {
          assert swept[a] in rest;
        }
      }
    }
  }

  /** A version some reader may still ask for is not collected. */
  lemma ObservableLives(i: Ideal, chain: seq<Version>, k: Key, node: int, b: int, v: Version, starts: set<int>)
    requires IdealOk(i) && ChainMatches(i, chain, k, node) && Observable(i, b)
    requires LastWriter(i.history, k, b) > 0 && v in chain && v.committed
    requires v.commitTs == i.history[LastWriter(i.history, k, b) - 1].commit
    requires forall t | t in i.open :: i.open[t].start in starts
    ensures !Dead(chain, starts, v)
  {
    if Dead(chain, starts, v) {
      var w :| Follows(chain, v, w) && forall s | s in starts :: !(v.commitTs <= s < w.commitTs);
      FollowerIsLater(i, chain, k, node, b, v, w);
    }
  }

  lemma FollowerIsLater(i: Ideal, chain: seq<Version>, k: Key, node: int, b: int, v: Version, w: Version)
    requires IdealOk(i) && ChainMatches(i, chain, k, node) && Follows(chain, v, w)
    requires LastWriter(i.history, k, b) > 0 && v.commitTs == i.history[LastWriter(i.history, k, b) - 1].commit
    ensures b < w.commitTs <= i.ts
  {
    assert VersionOk(i, k, w);
    var m :| 0 <= m < |i.history| && Matches(i, k, w, m);
    assert EntryOk(i, m);
  }

  lemma SweptRetained(i: Ideal, chain: seq<Version>, k: Key, node: int, starts: set<int>, b: int)
    requires IdealOk(i) && ChainMatches(i, chain, k, node) && Observable(i, b)
    requires forall t | t in i.open :: i.open[t].start in starts
    ensures Retained(i, Sweep(chain, chain, starts), k, b)
  {
    assert Retained(i, chain, k, b);
    var n := LastWriter(i.history, k, b);
    if n > 0 {
      var v :| v in chain && v.committed && v.commitTs == i.history[n - 1].commit;
      ObservableLives(i, chain, k, node, b, v, starts);
      SweepFacts(chain, chain, starts);
      assert v in Sweep(chain, chain, starts);
    }
  }

  lemma ChainSwept(i: Ideal, chain: seq<Version>, k: Key, node: int, starts: set<int>)
    requires IdealOk(i) && ChainMatches(i, chain, k, node)
    requires forall t | t in i.open :: i.open[t].start in starts
    ensures ChainMatches(i, Sweep(chain, chain, starts), k, node)
  {
    var chain' := Sweep(chain, chain, starts);
    SweepFacts(chain, chain, starts);
    forall t | t in i.open && k in i.open[t].writes ensures HasPending(chain', t) {
      assert HasPending(chain, t);
      var v :| v in chain && PendingOf(v, t);
      assert v in chain';
    }
    forall b | Observable(i, b) ensures Retained(i, chain', k, b) {
      SweptRetained(i, chain, k, node, starts, b);
    }
    forall v | v in chain' ensures VersionOk(i, k, v) && v.node < node {
      assert v in chain && VersionOk(i, k, v);
    }
  }

  lemma RefineCollect(s: Store, i: Ideal, c: Call)
    requires Refines(s, i) && c.Collect?
    ensures Refines(Step(s, c).0, i)
  {
    var s', starts := Step(s, c).0, Starts(s.txns);
    forall t | t in i.open ensures i.open[t].start in starts {
      assert TxnMatches(s, i, t);
    }
    forall k ensures KeyMatches(s', i, k) && ChainOf(s'.chains, k) == Sweep(ChainOf(s.chains, k), ChainOf(s.chains, k), starts) {
      assert KeyMatches(s, i, k);
      ChainSwept(i, ChainOf(s.chains, k), k, s.nextNode, starts);
    }
    forall u | u in i.open ensures TxnMatches(s', i, u) {
      assert TxnMatches(s, i, u);
      forall r | r in s.txns[u].records ensures PointsAt(ChainOf(s'.chains, r.key), u, r.node) {
        assert KeyMatches(s', i, r.key);
        SweepFacts(ChainOf(s.chains, r.key), ChainOf(s.chains, r.key), starts);
        var v :| v in ChainOf(s.chains, r.key) && PendingOf(v, u) && v.node == r.node;
        assert v in ChainOf(s'.chains, r.key);
      }
    }
  }

  // ---------------------------------------------------------------------
  // Every run
  // ---------------------------------------------------------------------

  lemma RefineStep(s: Store, i: Ideal, c: Call)
    requires Refines(s, i)
    ensures Refines(Step(s, c).0, IdealStep(i, c).0)
    ensures Step(s, c).1 == IdealStep(i, c).1
  {
    IdealOkStep(i, c);
    StampsUniqueStep(i, c);
    match c {
      case Begin(_) => RefineBegin(s, i, c);
      case Read(t, k) =>
        if t in i.open {
          ReadAgrees(s, i, t, k);
          RefineNoted(s, i, t, k, i.open[t].events + [ReadOf(k, Sees(i, t, k))]);
        }
      case Write(t, k, v) =>
        if t in i.open { RefineWrite(s, i, t, k, Some(v), WriteOf(k, Some(v))); }
      case Delete(t, k) =>
        if t in i.open {
          ReadAgrees(s, i, t, k);
          var noted := Seen(i, t, k, i.open[t].events);
          RefineNoted(s, i, t, k, i.open[t].events);
          RefineWrite(Noted(s, t, k), noted, t, k, None, DeleteOf(k, Sees(i, t, k).Some?));
        }
      case Commit(t) =>
        if t in i.open {
          ConflictAgrees(s, i, t);
          if Overtaken(i, t) { RefineClose(s, i, t); } else { RefineCommit(s, i, t); }
        }
      case Abort(t) =>
        if t in i.open { RefineClose(s, i, t); }
      case Collect => RefineCollect(s, i, c);
    }
  }

  lemma {:induction false} RunRefines(calls: seq<Call>)
    ensures Refines(Run(calls), IdealRun(calls))
    ensures Replies(calls) == IdealReplies(calls)
  {
    if calls == [] {
      forall k ensures KeyMatches(Empty, Fresh, k) {
      }
    } else {
      var rest := calls[..|calls| - 1];
      RunRefines(rest);
      RefineStep(Run(rest), IdealRun(rest), calls[|calls| - 1]);
    }
  }
}

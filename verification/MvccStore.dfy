/**
 The MVCC store with its fields and loops. Each public method does what the
 corresponding call of the model does; the ghost field `history` lists the calls
 made so far, so the guarantees about runs of calls are guarantees about the store.
 */
module MvccStore {
  import opened Common
  import opened MvccModel
  import opened MvccIdeal
  import opened MvccRefine

  // ---------------------------------------------------------------------
  // Loops over one chain
  // ---------------------------------------------------------------------

  method FindPending(chain: seq<Version>, t: TxnId) returns (i: nat)
    ensures i == PendingAt(chain, t)
  {
    i := 0;
    while i < |chain| && !(chain[i].txn == t && !chain[i].committed)
      invariant 0 <= i <= |chain|
      invariant forall j | 0 <= j < i :: !PendingOf(chain[j], t)
    {
      i := i + 1;
    }
  }

  method FindNewest(chain: seq<Version>, level: Isolation, start: int) returns (best: Option<Version>)
    ensures best == Newest(chain, level, start)
  {
    best := None;
    var i := 0;
    while i < |chain|
      invariant 0 <= i <= |chain|
      invariant best == Newest(chain[..i], level, start)
    {
      assert chain[..i + 1][..i] == chain[..i];
      var v := chain[i];
      if v.committed && IsVisible(v, level, start) && (best.None? || v.commitTs > best.value.commitTs) {
        best := Some(v);
      }
      i := i + 1;
    }
    assert chain[..i] == chain;
  }

  method FindLatest(chain: seq<Version>) returns (best: Option<Version>)
    ensures best == Latest(chain)
  {
    best := None;
    var i := 0;
    while i < |chain|
      invariant 0 <= i <= |chain|
      invariant best == Latest(chain[..i])
    {
      assert chain[..i + 1][..i] == chain[..i];
      if best.None? || chain[i].stamp > best.value.stamp {
        best := Some(chain[i]);
      }
      i := i + 1;
    }
    assert chain[..i] == chain;
  }

  method ChainConflicts(chain: seq<Version>, t: TxnId, start: int) returns (conflict: bool)
    ensures conflict <==> exists i :: 0 <= i < |chain| && ConflictsWith(chain[i], t, start)
  {
    conflict := false;
    var i := 0;
    while i < |chain| && !conflict
      invariant 0 <= i <= |chain|
      invariant conflict <==> exists j :: 0 <= j < i && ConflictsWith(chain[j], t, start)
    {
      conflict := chain[i].committed && chain[i].txn != t && chain[i].commitTs > start;
      i := i + 1;
    }
  }

  // ---------------------------------------------------------------------
  // Sweeping one chain
  // ---------------------------------------------------------------------

  ghost predicate Ascending(vs: seq<Version>) {
    forall a, b | 0 <= a < b < |vs| :: vs[a].commitTs < vs[b].commitTs
  }

  /** The committed versions of a chain, by commit timestamp. */
  method CommittedAscending(chain: seq<Version>) returns (vs: seq<Version>)
    requires NodesDistinct(chain) && Unrivalled(chain)
    ensures Ascending(vs) && forall v :: v in vs <==> v in chain && v.committed
  {
    vs := [];
    var i := 0;
    while i < |chain|
      invariant 0 <= i <= |chain|
      invariant Ascending(vs) && forall v :: v in vs <==> v in chain[..i] && v.committed
    {
      assert chain[..i + 1] == chain[..i] + [chain[i]];
      if chain[i].committed {
        forall v | v in vs ensures v.commitTs != chain[i].commitTs {
          assert v in chain[..i];
          var j :| 0 <= j < i && chain[j] == v;
          var w := chain[i];
          assert v.commitTs == w.commitTs ==> Rivals(v, w);
        }
        vs := InsertAscending(vs, chain[i]);
      }
      i := i + 1;
    }
    assert chain[..i] == chain;
  }

  method InsertAscending(vs: seq<Version>, v: Version) returns (r: seq<Version>)
    requires Ascending(vs) && forall w | w in vs :: w.commitTs != v.commitTs
    ensures Ascending(r) && forall w :: w in r <==> w in vs || w == v
  {
    var p := 0;
    while p < |vs| && vs[p].commitTs < v.commitTs
      invariant 0 <= p <= |vs| && forall a | 0 <= a < p :: vs[a].commitTs < v.commitTs
    {
      p := p + 1;
    }
    assert p < |vs| ==> vs[p] in vs;
    r := vs[..p] + [v] + vs[p..];
    InsertedInOrder(vs, v, p);
    forall w ensures w in r <==> w in vs || w == v { InsertedHas(vs, v, p, w); }
  }

  lemma InsertedInOrder(vs: seq<Version>, v: Version, p: nat)
    requires Ascending(vs) && p <= |vs| && (p < |vs| ==> v.commitTs < vs[p].commitTs)
    requires forall a | 0 <= a < p :: vs[a].commitTs < v.commitTs
    ensures Ascending(vs[..p] + [v] + vs[p..])
  {
    var r := vs[..p] + [v] + vs[p..];
    forall a, b | 0 <= a < b < |r| ensures r[a].commitTs < r[b].commitTs {
      assert r[a] == if a < p then vs[a] else if a == p then v else vs[a - 1];
      assert r[b] == if b < p then vs[b] else if b == p then v else vs[b - 1];
    }
  }

  lemma InsertedHas(vs: seq<Version>, v: Version, p: nat, w: Version)
    requires p <= |vs|
    ensures w in vs[..p] + [v] + vs[p..] <==> w in vs || w == v
  {
    assert vs == vs[..p] + vs[p..];
  }

  /** The next version in the sorted list is the one that follows in the chain. */
  lemma NextFollows(chain: seq<Version>, vs: seq<Version>, i: nat)
    requires Ascending(vs) && (forall v :: v in vs <==> v in chain && v.committed) && i < |vs|
    ensures i + 1 < |vs| ==> Follows(chain, vs[i], vs[i + 1])
    ensures forall w | Follows(chain, vs[i], w) :: i + 1 < |vs| && w.commitTs == vs[i + 1].commitTs
  {
    forall u | u in chain && u.committed && vs[i].commitTs < u.commitTs
      ensures i + 1 < |vs| && vs[i + 1].commitTs <= u.commitTs
    {
      assert u in vs;
      var j :| 0 <= j < |vs| && vs[j] == u;
    }
    if i + 1 < |vs| { assert vs[i + 1] in vs; }
  }

  /** The versions whose node is not in `nodes`, in order. */
  function Without(chain: seq<Version>, nodes: set<int>): seq<Version> {
    if chain == [] then []
    else
      var rest, v := Without(chain[..|chain| - 1], nodes), chain[|chain| - 1];
      if v.node in nodes then rest else rest + [v]
  }

  lemma {:induction false} WithoutErase(chain: seq<Version>, nodes: set<int>, n: int)
    ensures Erase(Without(chain, nodes), n) == Without(chain, nodes + {n})
  {
    if chain != [] {
      WithoutErase(chain[..|chain| - 1], nodes, n);
      var rest, v := Without(chain[..|chain| - 1], nodes), chain[|chain| - 1];
      if v.node !in nodes { DropLast(rest, v); }
    }
  }

  lemma {:induction false} WithoutNothing(chain: seq<Version>)
    ensures Without(chain, {}) == chain
  {
    if chain != [] { WithoutNothing(chain[..|chain| - 1]); }
  }

  lemma {:induction false} WithoutIsSweep(chain: seq<Version>, whole: seq<Version>, starts: set<int>, nodes: set<int>)
    requires forall v | v in chain :: v.node in nodes <==> Dead(whole, starts, v)
    ensures Without(chain, nodes) == Sweep(chain, whole, starts)
  {
    if chain != [] {
      assert chain == chain[..|chain| - 1] + [chain[|chain| - 1]];
      WithoutIsSweep(chain[..|chain| - 1], whole, starts, nodes);
    }
  }

  /** `dead` holds the nodes of the dead versions among the first `i` of `vs`. */
  ghost predicate DeadSoFar(chain: seq<Version>, starts: set<int>, vs: seq<Version>, i: nat, dead: set<int>) {
    forall v | v in chain :: v.node in dead <==> Dead(chain, starts, v) && v in vs[..if i <= |vs| then i else |vs|]
  }

  lemma DeadStep(chain: seq<Version>, starts: set<int>, vs: seq<Version>, i: nat, dead: set<int>)
    requires NodesDistinct(chain) && i + 1 < |vs| && vs[i] in chain
    requires DeadSoFar(chain, starts, vs, i, dead)
    ensures DeadSoFar(chain, starts, vs, i + 1, if Dead(chain, starts, vs[i]) then dead + {vs[i].node} else dead)
  {
    var v := vs[i];
    assert vs[..i + 1] == vs[..i] + [v];
    forall w | w in chain && w.node == v.node ensures w == v {
      SameNode(chain, v, w);
    }
  }

  lemma DeadEnd(chain: seq<Version>, starts: set<int>, vs: seq<Version>, i: nat, dead: set<int>)
    requires Ascending(vs) && (forall v :: v in vs <==> v in chain && v.committed)
    requires DeadSoFar(chain, starts, vs, i, dead) && i + 1 >= |vs|
    ensures forall v | v in chain :: v.node in dead <==> Dead(chain, starts, v)
  {
    forall v | v in chain && Dead(chain, starts, v) ensures v.node in dead {
      assert v in vs;
      var j :| 0 <= j < |vs| && vs[j] == v;
      NextFollows(chain, vs, j);
      assert v in vs[..if i <= |vs| then i else |vs|];
    }
  }

  /** A version with a successor is dead unless a running transaction needs it. */
  lemma DeadIff(chain: seq<Version>, starts: set<int>, vs: seq<Version>, i: nat)
    requires Ascending(vs) && (forall v :: v in vs <==> v in chain && v.committed) && i + 1 < |vs|
    ensures Dead(chain, starts, vs[i]) <==> !exists s :: s in starts && vs[i].commitTs <= s < vs[i + 1].commitTs
  {
    NextFollows(chain, vs, i);
    assert vs[i] in vs;
  }

  method SweepChain(chain: seq<Version>, starts: set<int>) returns (r: seq<Version>)
    requires Sweepable(chain)
    ensures r == Sweep(chain, chain, starts)
  {
    var vs := CommittedAscending(chain);
    r := chain;
    ghost var dead: set<int> := {};
    WithoutNothing(chain);
    var i := 0;
    while i + 1 < |vs|
      invariant 0 <= i && r == Without(chain, dead)
      invariant DeadSoFar(chain, starts, vs, i, dead)
    {
      var lo, hi := vs[i].commitTs, vs[i + 1].commitTs;
      assert vs[i] in vs;
      DeadIff(chain, starts, vs, i);
      DeadStep(chain, starts, vs, i, dead);
      if !exists s :: s in starts && lo <= s < hi {
        WithoutErase(chain, dead, vs[i].node);
        r := Erase(r, vs[i].node);
        dead := dead + {vs[i].node};
      }
      i := i + 1;
    }
    DeadEnd(chain, starts, vs, i, dead);
    WithoutIsSweep(chain, chain, starts, dead);
  }

  lemma SameNode(chain: seq<Version>, v: Version, w: Version)
    requires NodesDistinct(chain) && v in chain && w in chain && v.node == w.node
    ensures v == w
  {
    var a, b :| 0 <= a < |chain| && chain[a] == v && 0 <= b < |chain| && chain[b] == w;
  }

  // ---------------------------------------------------------------------
  // The store
  // ---------------------------------------------------------------------

  class MVCCStore {
    var ts: int
    var next: TxnId
    var nextNode: int
    var chains: map<Key, seq<Version>>
    var txns: map<TxnId, Txn>
    ghost var history: seq<Call>

    ghost function Abs(): Store
      reads this
    {
      Store(ts, next, nextNode, chains, txns)
    }

    ghost predicate Valid()
      reads this
    {
      Abs() == Run(history)
    }

    /** The call `c` was made on state `s` and answered with `r`. */
    ghost predicate Did(s: Store, calls: seq<Call>, c: Call, r: Reply)
      reads this
    {
      history == calls + [c] && Step(s, c) == (Abs(), r) && Replies(history) == Replies(calls) + [r]
    }

    ghost method Record(s: Store, c: Call, r: Reply)
      requires s == Run(history) && Step(s, c) == (Abs(), r)
      modifies this`history
      ensures Valid() && Did(s, old(history), c, r)
    {
      DropLast(history, c);
      history := history + [c];
    }

    lemma Invariant()
      requires Valid()
      ensures Refines(Abs(), IdealRun(history))
    {
      RunRefines(history);
    }

    constructor ()
      ensures Valid() && history == []
    {
      ts, next, nextNode, chains, txns := 0, 0, 0, map[], map[];
      history := [];
    }

    method BeginTxn(level: Isolation) returns (t: TxnId)
      requires Valid()
      modifies this
      ensures Valid() && Did(old(Abs()), old(history), Begin(level), Began(t))
    {
      ghost var s, c := Abs(), Begin(level);
      t := next;
      txns := txns[t := Txn(level, ts, [], {}, {})];
      next := next + 1;
      ts := ts + 1;
      Record(s, c, Began(t));
    }

    /** Reads without recording the call, as Delete does. */
    method ReadInternal(t: TxnId, k: Key) returns (value: Option<Value>)
      requires t in txns
      modifies this`txns
      ensures Abs() == Noted(old(Abs()), t, k)
      ensures value == ReadChain(ChainOf(chains, k), t, old(txns)[t].isolation, old(txns)[t].start)
    {
      var txn := txns[t];
      txns := txns[t := txn.(readSet := txn.readSet + {k})];
      if k !in chains {
        return None;
      }
      var chain := chains[k];
      var own := FindPending(chain, t);
      if own < |chain| {
        return chain[own].content;
      }
      var best;
      if txn.isolation.ReadUncommitted? {
        best := FindLatest(chain);
      } else {
        best := FindNewest(chain, txn.isolation, txn.start);
      }
      value := if best.None? then None else best.value.content;
    }

    method ReadKey(t: TxnId, k: Key) returns (r: Reply)
      requires Valid()
      modifies this
      ensures Valid() && Did(old(Abs()), old(history), Read(t, k), r)
    {
      ghost var s, c := Abs(), Read(t, k);
      if t !in txns {
        r := NoSuchTxn;
      } else {
        var value := ReadInternal(t, k);
        r := Found(value);
      }
      Record(s, c, r);
    }

    method PutVersion(t: TxnId, k: Key, content: Option<Value>)
      requires t in txns
      modifies this`ts, this`nextNode, this`chains, this`txns
      ensures Abs() == WriteInternal(old(Abs()), t, k, content)
    {
      var chain := if k in chains then chains[k] else [];
      var own := FindPending(chain, t);
      if own < |chain| {
        chains := chains[k := chain[own := chain[own].(content := content, stamp := ts)]];
      } else {
        chains := chains[k := chain + [Version(nextNode, t, ts, -1, false, content)]];
        txns := txns[t := txns[t].(records := txns[t].records + [WriteRecord(k, nextNode)],
                                   writeSet := txns[t].writeSet + {k})];
        nextNode := nextNode + 1;
      }
      ts := ts + 1;
    }

    method WriteKey(t: TxnId, k: Key, value: Value) returns (r: Reply)
      requires Valid()
      modifies this
      ensures Valid() && Did(old(Abs()), old(history), Write(t, k, value), r)
    {
      ghost var s, c := Abs(), Write(t, k, value);
      if t !in txns {
        r := NoSuchTxn;
      } else {
        PutVersion(t, k, Some(value));
        r := Written;
      }
      Record(s, c, r);
    }

    method DeleteKey(t: TxnId, k: Key) returns (r: Reply)
      requires Valid()
      modifies this
      ensures Valid() && Did(old(Abs()), old(history), Delete(t, k), r)
    {
      ghost var s, c := Abs(), Delete(t, k);
      if t !in txns {
        r := NoSuchTxn;
      } else {
        var value := ReadInternal(t, k);
        PutVersion(t, k, None);
        r := Deleted(value.Some?);
      }
      Record(s, c, r);
    }

    method EraseRecords(records: seq<WriteRecord>)
      modifies this`chains
      ensures chains == EraseAll(old(chains), records)
    {
      var i := 0;
      while i < |records|
        invariant 0 <= i <= |records|
        invariant chains == EraseAll(old(chains), records[..i])
      {
        assert records[..i + 1][..i] == records[..i];
        var r := records[i];
        chains := chains[r.key := Erase(ChainOf(chains, r.key), r.node)];
        i := i + 1;
      }
      assert records[..i] == records;
    }

    method MarkRecords(records: seq<WriteRecord>, commitTs: int)
      modifies this`chains
      ensures chains == MarkAll(old(chains), records, commitTs)
    {
      var i := 0;
      while i < |records|
        invariant 0 <= i <= |records|
        invariant chains == MarkAll(old(chains), records[..i], commitTs)
      {
        assert records[..i + 1][..i] == records[..i];
        var r := records[i];
        chains := chains[r.key := Mark(ChainOf(chains, r.key), r.node, commitTs)];
        i := i + 1;
      }
      assert records[..i] == records;
    }

    method FindConflict(t: TxnId) returns (conflict: bool)
      requires t in txns
      ensures conflict <==> Conflict(Abs(), t)
    {
      var start := txns[t].start;
      var keys := CheckKeys(txns[t]);
      var todo := keys;
      conflict := false;
      while todo != {} && !conflict
        invariant todo <= keys
        invariant !conflict ==> forall k, i | k in keys - todo && 0 <= i < |ChainOf(chains, k)| ::
                    !ConflictsWith(ChainOf(chains, k)[i], t, start)
        invariant conflict ==> Conflict(Abs(), t)
        decreases todo
      {
        ghost var some := Member(todo);
        var k :| k in todo;
        todo := todo - {k};
        if k in chains {
          assert ChainOf(chains, k) == chains[k];
          conflict := ChainConflicts(chains[k], t, start);
          if conflict {
            ghost var i :| 0 <= i < |chains[k]| && ConflictsWith(chains[k][i], t, start);
            assert ConflictsWith(ChainOf(chains, k)[i], t, start);
          }
        }
      }
    }

    method CommitTxn(t: TxnId) returns (r: Reply)
      requires Valid()
      modifies this
      ensures Valid() && Did(old(Abs()), old(history), Commit(t), r)
    {
      ghost var s, c := Abs(), Commit(t);
      if t !in txns {
        r := NoSuchTxn;
      } else {
        var conflict := FindConflict(t);
        var records := txns[t].records;
        if conflict {
          EraseRecords(records);
        } else {
          MarkRecords(records, ts);
          ts := ts + 1;
        }
        txns := txns - {t};
        r := Decided(!conflict);
      }
      Record(s, c, r);
    }

    method AbortTxn(t: TxnId)
      requires Valid()
      modifies this
      ensures Valid() && Did(old(Abs()), old(history), Abort(t), Closed)
    {
      ghost var s, c := Abs(), Abort(t);
      if t in txns {
        var records := txns[t].records;
        txns := txns - {t};
        EraseRecords(records);
      }
      Record(s, c, Closed);
    }

    /** What sweeping a chain relies on. */
    lemma ChainsAreSweepable()
      requires Valid()
      ensures forall k {:trigger Sweepable(chains[k])} | k in chains :: Sweepable(chains[k])
    {
      Invariant();
      forall k | k in chains ensures Sweepable(chains[k]) {
        assert KeyMatches(Abs(), IdealRun(history), k);
      }
    }

    method RunGarbageCollection()
      requires Valid()
      modifies this
      ensures Valid() && Did(old(Abs()), old(history), Collect, Collected)
    {
      ghost var s, before := Abs(), chains;
      ChainsAreSweepable();
      var starts := set t | t in txns :: txns[t].start;
      var todo := chains.Keys;
      while todo != {}
        invariant chains.Keys == before.Keys && todo <= chains.Keys
        invariant forall k {:trigger IsSwept(before, chains, starts, k)} | k in chains && k !in todo :: IsSwept(before, chains, starts, k)
        invariant forall k | k in todo :: chains[k] == before[k]
        invariant Abs() == s.(chains := chains) && history == old(history)
        decreases todo
      {
        ghost var some := Member(todo);
        var k :| k in todo;
        assert Sweepable(before[k]);
        var swept := SweepChain(chains[k], starts);
        ghost var last := chains;
        chains := chains[k := swept];
        todo := todo - {k};
        forall q | q in chains && q !in todo ensures IsSwept(before, chains, starts, q) {
          if q != k { assert IsSwept(before, last, starts, q); }
        }
      }
      AllSwept(s, chains, starts);
      Record(s, Collect, Collected);
    }
  }

  ghost predicate Sweepable(chain: seq<Version>) {
    NodesDistinct(chain) && Unrivalled(chain)
  }

  ghost predicate IsSwept(before: map<Key, seq<Version>>, after: map<Key, seq<Version>>, starts: set<int>, k: Key) {
    k in before && k in after && after[k] == Sweep(before[k], before[k], starts)
  }

  /** Every chain swept is the whole collection. */
  lemma AllSwept(s: Store, chains: map<Key, seq<Version>>, starts: set<int>)
    requires chains.Keys == s.chains.Keys && starts == (set t | t in s.txns :: s.txns[t].start)
    requires forall k {:trigger IsSwept(s.chains, chains, starts, k)} | k in chains :: IsSwept(s.chains, chains, starts, k)
    ensures Step(s, Collect) == (s.(chains := chains), Collected)
  {
    assert starts == Starts(s.txns);
    forall k | k in chains ensures chains[k] == Sweep(s.chains[k], s.chains[k], starts) {
      assert IsSwept(s.chains, chains, starts, k);
    }
    assert chains == Step(s, Collect).0.chains;
  }
}

/**
 The MVCC store, one public call at a time.

 A key's versions form a list; a transaction's write records point at the list
 nodes holding its pending versions, so every version carries the identity of
 its node. Timestamps, transaction ids and nodes are handed out by counters.
 */
module MvccModel {
  import opened Common

  type Key = int
  type Value = string
  type TxnId = int

  datatype Isolation = ReadUncommitted | ReadCommitted | Snapshot | Serializable

  /** `content` is None for a deletion. `commitTs` is -1 until `committed`. */
  datatype Version = Version(node: int, txn: TxnId, stamp: int, commitTs: int, committed: bool, content: Option<Value>)

  datatype WriteRecord = WriteRecord(key: Key, node: int)

  datatype Txn = Txn(
    isolation: Isolation,
    start: int,
    records: seq<WriteRecord>,
    writeSet: set<Key>,
    readSet: set<Key>)

  datatype Store = Store(ts: int, next: TxnId, nextNode: int, chains: map<Key, seq<Version>>, txns: map<TxnId, Txn>)

  const Empty := Store(0, 0, 0, map[], map[])

  datatype Call =
    | Begin(level: Isolation)
    | Read(txn: TxnId, key: Key)
    | Write(txn: TxnId, key: Key, value: Value)
    | Delete(txn: TxnId, key: Key)
    | Commit(txn: TxnId)
    | Abort(txn: TxnId)
    | Collect

  datatype Reply =
    | Began(txn: TxnId)
    | Found(value: Option<Value>)
    | Written
    | Deleted(existed: bool)
    | Decided(ok: bool)
    | Closed
    | Collected
    | NoSuchTxn

  function ChainOf(chains: map<Key, seq<Version>>, k: Key): seq<Version> {
    if k in chains then chains[k] else []
  }

  // ---------------------------------------------------------------------
  // Reading
  // ---------------------------------------------------------------------

  predicate IsVisible(v: Version, level: Isolation, start: int) {
    match level
    case ReadCommitted => true
    case Snapshot => v.commitTs <= start
    case Serializable => v.commitTs <= start
    case ReadUncommitted => true
  }

  predicate PendingOf(v: Version, t: TxnId) {
    v.txn == t && !v.committed
  }

  /** Index of the first pending version of `t`, or the length of the chain. */
  function PendingAt(chain: seq<Version>, t: TxnId): (i: nat)
    ensures i <= |chain|
    ensures i < |chain| ==> PendingOf(chain[i], t)
    ensures forall j | 0 <= j < i :: !PendingOf(chain[j], t)
  {
    if chain == [] || PendingOf(chain[0], t) then 0
    else
      var i := PendingAt(chain[1..], t);
      assert forall j | 1 <= j < i + 1 :: chain[j] == chain[1..][j - 1];
      i + 1
  }

  /** The committed, visible version with the largest commit timestamp. */
  function Newest(chain: seq<Version>, level: Isolation, start: int): Option<Version> {
    if chain == [] then None
    else
      var best, v := Newest(chain[..|chain| - 1], level, start), chain[|chain| - 1];
      if v.committed && IsVisible(v, level, start) && (best.None? || v.commitTs > best.value.commitTs)
      then Some(v) else best
  }

  /** The version written last, committed or not. */
  function Latest(chain: seq<Version>): Option<Version> {
    if chain == [] then None
    else
      var best, v := Latest(chain[..|chain| - 1]), chain[|chain| - 1];
      if best.None? || v.stamp > best.value.stamp then Some(v) else best
  }

  function Content(v: Option<Version>): Option<Value> {
    if v.Some? then v.value.content else None
  }

  function ReadChain(chain: seq<Version>, t: TxnId, level: Isolation, start: int): Option<Value> {
    var own := PendingAt(chain, t);
    if own < |chain| then chain[own].content
    else if level.ReadUncommitted? then Content(Latest(chain))
    else Content(Newest(chain, level, start))
  }

  function Noted(s: Store, t: TxnId, k: Key): Store
    requires t in s.txns
  {
    s.(txns := s.txns[t := s.txns[t].(readSet := s.txns[t].readSet + {k})])
  }

  // ---------------------------------------------------------------------
  // Writing
  // ---------------------------------------------------------------------

  function WriteInternal(s: Store, t: TxnId, k: Key, content: Option<Value>): Store
    requires t in s.txns
  {
    var chain, txn := ChainOf(s.chains, k), s.txns[t];
    var own := PendingAt(chain, t);
    if own < |chain| then
      s.(ts := s.ts + 1, chains := s.chains[k := chain[own := chain[own].(content := content, stamp := s.ts)]])
    else
      var v := Version(s.nextNode, t, s.ts, -1, false, content);
      Store(s.ts + 1, s.next, s.nextNode + 1, s.chains[k := chain + [v]],
            s.txns[t := txn.(records := txn.records + [WriteRecord(k, s.nextNode)], writeSet := txn.writeSet + {k})])
  }

  // ---------------------------------------------------------------------
  // Commit and abort
  // ---------------------------------------------------------------------

  function CheckKeys(txn: Txn): set<Key> {
    if txn.isolation.Serializable? then txn.writeSet + txn.readSet else txn.writeSet
  }

  predicate ConflictsWith(v: Version, t: TxnId, start: int) {
    v.committed && v.txn != t && v.commitTs > start
  }

  predicate Conflict(s: Store, t: TxnId)
    requires t in s.txns
  {
    exists k, i :: && k in CheckKeys(s.txns[t]) && 0 <= i < |ChainOf(s.chains, k)|
                   && ConflictsWith(ChainOf(s.chains, k)[i], t, s.txns[t].start)
  }

  function Erase(chain: seq<Version>, node: int): seq<Version> {
    if chain == [] then []
    else if chain[|chain| - 1].node == node then Erase(chain[..|chain| - 1], node)
    else Erase(chain[..|chain| - 1], node) + [chain[|chain| - 1]]
  }

  function Mark(chain: seq<Version>, node: int, ts: int): (r: seq<Version>)
    ensures |r| == |chain|
    ensures forall i | 0 <= i < |chain| ::
              r[i] == if chain[i].node == node then chain[i].(committed := true, commitTs := ts) else chain[i]
  {
    seq(|chain|, i requires 0 <= i < |chain| =>
      if chain[i].node == node then chain[i].(committed := true, commitTs := ts) else chain[i])
  }

  function EraseAll(chains: map<Key, seq<Version>>, records: seq<WriteRecord>): map<Key, seq<Version>> {
    if records == [] then chains
    else
      var r, before := records[|records| - 1], EraseAll(chains, records[..|records| - 1]);
      before[r.key := Erase(ChainOf(before, r.key), r.node)]
  }

  function MarkAll(chains: map<Key, seq<Version>>, records: seq<WriteRecord>, ts: int): map<Key, seq<Version>> {
    if records == [] then chains
    else
      var r, before := records[|records| - 1], MarkAll(chains, records[..|records| - 1], ts);
      before[r.key := Mark(ChainOf(before, r.key), r.node, ts)]
  }

  // ---------------------------------------------------------------------
  // Garbage collection
  // ---------------------------------------------------------------------

  function Starts(txns: map<TxnId, Txn>): set<int> {
    set t | t in txns :: txns[t].start
  }

  /** `w` is the committed version right after `v` in commit order. */
  predicate Follows(chain: seq<Version>, v: Version, w: Version) {
    && w in chain && w.committed && v.commitTs < w.commitTs
    && forall u | u in chain && u.committed && v.commitTs < u.commitTs :: w.commitTs <= u.commitTs
  }

  /** A version may go once a newer one is committed and no running transaction
      started in between. */
  ghost predicate Dead(chain: seq<Version>, starts: set<int>, v: Version) {
    && v.committed
    && exists w :: Follows(chain, v, w) && forall s | s in starts :: !(v.commitTs <= s < w.commitTs)
  }

  ghost function Sweep(chain: seq<Version>, whole: seq<Version>, starts: set<int>): seq<Version> {
    if chain == [] then []
    else
      var rest, v := Sweep(chain[..|chain| - 1], whole, starts), chain[|chain| - 1];
      if Dead(whole, starts, v) then rest else rest + [v]
  }

  // ---------------------------------------------------------------------
  // The calls
  // ---------------------------------------------------------------------

  ghost function Step(s: Store, c: Call): (Store, Reply) {
    match c
    case Begin(level) =>
      (s.(ts := s.ts + 1, next := s.next + 1, txns := s.txns[s.next := Txn(level, s.ts, [], {}, {})]), Began(s.next))
    case Read(t, k) =>
      if t !in s.txns then (s, NoSuchTxn)
      else (Noted(s, t, k), Found(ReadChain(ChainOf(s.chains, k), t, s.txns[t].isolation, s.txns[t].start)))
    case Write(t, k, v) =>
      if t !in s.txns then (s, NoSuchTxn) else (WriteInternal(s, t, k, Some(v)), Written)
    case Delete(t, k) =>
      if t !in s.txns then (s, NoSuchTxn)
      else
        var seen := ReadChain(ChainOf(s.chains, k), t, s.txns[t].isolation, s.txns[t].start);
        (WriteInternal(Noted(s, t, k), t, k, None), Deleted(seen.Some?))
    case Commit(t) =>
      if t !in s.txns then (s, NoSuchTxn)
      else if Conflict(s, t) then
        (s.(chains := EraseAll(s.chains, s.txns[t].records), txns := s.txns - {t}), Decided(false))
      else
        (s.(ts := s.ts + 1, chains := MarkAll(s.chains, s.txns[t].records, s.ts), txns := s.txns - {t}), Decided(true))
    case Abort(t) =>
      if t !in s.txns then (s, Closed)
      else (s.(chains := EraseAll(s.chains, s.txns[t].records), txns := s.txns - {t}), Closed)
    case Collect =>
      (s.(chains := map k | k in s.chains :: Sweep(s.chains[k], s.chains[k], Starts(s.txns))), Collected)
  }

  ghost function Run(calls: seq<Call>): Store {
    if calls == [] then Empty else Step(Run(calls[..|calls| - 1]), calls[|calls| - 1]).0
  }

  /** The replies of a run, in order. */
  ghost function Replies(calls: seq<Call>): (r: seq<Reply>)
    ensures |r| == |calls|
  {
    if calls == [] then []
    else Replies(calls[..|calls| - 1]) + [Step(Run(calls[..|calls| - 1]), calls[|calls| - 1]).1]
  }
}

/**
 Serializability and snapshot reads of the MVCC store, in terms of nothing but
 the calls made and the replies received.
 */
module MvccSerializability {
  import opened Common
  import opened MvccModel
  import opened MvccIdeal
  import opened MvccRefine
  import opened MvccTheorems

  // ---------------------------------------------------------------------
  // The ideal store keeps a record of the replies
  // ---------------------------------------------------------------------

  ghost predicate EntryTold(calls: seq<Call>, i: Ideal, n: nat)
    requires n < |i.history|
  {
    Told(calls, i.history[n].txn) == i.history[n].session.events
  }

  ghost predicate OpenTold(calls: seq<Call>, i: Ideal, t: TxnId) {
    Told(calls, t) == EventsOf(i, t)
  }

  ghost predicate Recorded(calls: seq<Call>, i: Ideal) {
    && |CommitOrder(calls)| == |i.history|
    && (forall n | 0 <= n < |i.history| :: CommitOrder(calls)[n] == i.history[n].txn)
    && (forall n {:trigger EntryTold(calls, i, n)} | 0 <= n < |i.history| :: EntryTold(calls, i, n))
    && (forall t {:trigger OpenTold(calls, i, t)} | t in i.open || t >= i.next :: OpenTold(calls, i, t))
  }

  /** The ideal store's reply to the last call is the one the store gave. */
  lemma LastReply(calls: seq<Call>)
    requires calls != []
    ensures var rest := calls[..|calls| - 1];
            && IdealOk(IdealRun(rest)) && IdealOk(IdealRun(calls))
            && Replies(calls)[|calls| - 1] == IdealStep(IdealRun(rest), calls[|calls| - 1]).1
  {
    RunRefines(calls);
    RunRefines(calls[..|calls| - 1]);
  }

  function Also(events: seq<Event>, e: Option<Event>): seq<Event> {
    if e.Some? then events + [e.value] else events
  }

  function EventsOf(i: Ideal, t: TxnId): seq<Event> {
    if t in i.open then i.open[t].events else []
  }

  /** A session records each event it takes part in. */
  lemma EventsStep(i: Ideal, c: Call, t: TxnId)
    requires IdealOk(i) && (t in IdealStep(i, c).0.open || t >= IdealStep(i, c).0.next)
    ensures t in i.open || t >= i.next
    ensures EventsOf(IdealStep(i, c).0, t) == Also(EventsOf(i, t), EventOf(c, IdealStep(i, c).1, t))
  {
    if t in i.open { assert OpenOk(i, t); }
    assert i.next in i.open ==> OpenOk(i, i.next);
  }

  /** A transaction that has committed is told nothing more. */
  lemma ToldByOpenOnly(i: Ideal, c: Call, n: nat)
    requires IdealOk(i) && n < |i.history|
    ensures EventOf(c, IdealStep(i, c).1, i.history[n].txn).None?
  {
    assert i.history[n].txn in i.open ==> OpenOk(i, i.history[n].txn);
  }

  lemma ToldStep(calls: seq<Call>, t: TxnId)
    requires calls != []
    ensures var rest, c := calls[..|calls| - 1], calls[|calls| - 1];
            Told(calls, t) == Also(Told(rest, t), EventOf(c, IdealStep(IdealRun(rest), c).1, t))
  {
    LastReply(calls);
  }

  lemma RecordedEntries(calls: seq<Call>)
    requires calls != [] && Recorded(calls[..|calls| - 1], IdealRun(calls[..|calls| - 1]))
    ensures forall n | 0 <= n < |IdealRun(calls).history| :: EntryTold(calls, IdealRun(calls), n)
  {
    var rest, c := calls[..|calls| - 1], calls[|calls| - 1];
    var i, i' := IdealRun(rest), IdealRun(calls);
    LastReply(calls);
    forall n | 0 <= n < |i'.history| ensures EntryTold(calls, i', n) {
      ToldStep(calls, i'.history[n].txn);
      if n < |i.history| {
        assert i'.history[n] == i.history[n];
        assert EntryTold(rest, i, n);
        ToldByOpenOnly(i, c, n);
      } else {
        assert OpenTold(rest, i, c.txn);
      }
    }
  }

  lemma RecordedOpen(calls: seq<Call>, t: TxnId)
    requires calls != [] && Recorded(calls[..|calls| - 1], IdealRun(calls[..|calls| - 1]))
    requires t in IdealRun(calls).open || t >= IdealRun(calls).next
    ensures OpenTold(calls, IdealRun(calls), t)
  {
    var rest, c := calls[..|calls| - 1], calls[|calls| - 1];
    var i := IdealRun(rest);
    LastReply(calls);
    EventsStep(i, c, t);
    assert OpenTold(rest, i, t);
    ToldStep(calls, t);
  }

  lemma RecordedOrder(calls: seq<Call>)
    requires calls != [] && Recorded(calls[..|calls| - 1], IdealRun(calls[..|calls| - 1]))
    ensures var order, h := CommitOrder(calls), IdealRun(calls).history;
            |order| == |h| && forall n | 0 <= n < |h| :: order[n] == h[n].txn
  {
    var rest, c := calls[..|calls| - 1], calls[|calls| - 1];
    var i := IdealRun(rest);
    LastReply(calls);
    HistoryStep(i, c);
    assert |CommitOrder(rest)| == |i.history| && forall n | 0 <= n < |i.history| :: CommitOrder(rest)[n] == i.history[n].txn;
  }

  /** Only a successful commit adds to the history, and what it adds is its own. */
  lemma HistoryStep(i: Ideal, c: Call)
    ensures c.Commit? && IdealStep(i, c).1 == Decided(true) ==>
              && |IdealStep(i, c).0.history| == |i.history| + 1 && i.history <= IdealStep(i, c).0.history
              && IdealStep(i, c).0.history[|i.history|].txn == c.txn
    ensures !(c.Commit? && IdealStep(i, c).1 == Decided(true)) ==> IdealStep(i, c).0.history == i.history
  {
  }

  lemma {:induction false} RunRecorded(calls: seq<Call>)
    ensures Recorded(calls, IdealRun(calls))
  {
    if calls != [] {
      var rest, c := calls[..|calls| - 1], calls[|calls| - 1];
      var i, i' := IdealRun(rest), IdealRun(calls);
      RunRecorded(rest);
      RecordedEntries(calls);
      RecordedOrder(calls);
      forall t | t in i'.open || t >= i'.next ensures OpenTold(calls, i', t) {
        RecordedOpen(calls, t);
      }
    }
  }

  lemma {:induction false} SerialsAgree(calls: seq<Call>, order: seq<TxnId>, h: seq<Entry>)
    requires |order| == |h| && forall n | 0 <= n < |h| :: Told(calls, order[n]) == h[n].session.events
    ensures SerialTable(calls, order) == Serial(h)
    decreases |h|
  {
    if h != [] {
      SerialsAgree(calls, order[..|order| - 1], h[..|h| - 1]);
    }
  }

  /** The serial table of the first `m` committed transactions. */
  lemma SerialTableIs(calls: seq<Call>, m: nat)
    requires m <= |CommitOrder(calls)|
    ensures m <= |IdealRun(calls).history|
    ensures SerialTable(calls, CommitOrder(calls)[..m]) == Serial(IdealRun(calls).history[..m])
  {
    var h, order := IdealRun(calls).history, CommitOrder(calls);
    OrderIsHistory(calls);
    forall n | 0 <= n < m ensures Told(calls, order[n]) == h[n].session.events { OrderedIsTold(calls, n); }
    SerialsAgree(calls, order[..m], h[..m]);
  }

  lemma OrderIsHistory(calls: seq<Call>)
    ensures |CommitOrder(calls)| == |IdealRun(calls).history|
  {
    RunRecorded(calls);
  }

  /** What the n-th to commit was told is what its entry records. */
  lemma OrderedIsTold(calls: seq<Call>, n: nat)
    requires n < |CommitOrder(calls)|
    ensures n < |IdealRun(calls).history|
    ensures Told(calls, CommitOrder(calls)[n]) == IdealRun(calls).history[n].session.events
  {
    RunRecorded(calls);
    assert EntryTold(calls, IdealRun(calls), n);
  }

  // ---------------------------------------------------------------------
  // A transaction's beginning
  // ---------------------------------------------------------------------

  /** What the store remembers of the beginning of transaction `t`. */
  ghost predicate Remembers(i: Ideal, before: Ideal, t: TxnId, level: Isolation) {
    && t < i.next
    && before.history <= i.history
    && (forall n | |before.history| <= n < |i.history| :: i.history[n].commit > before.ts)
    && (t in i.open ==> i.open[t].level == level && i.open[t].start == before.ts)
    && (forall n | 0 <= n < |i.history| && i.history[n].txn == t ::
          i.history[n].session.level == level && i.history[n].session.start == before.ts)
  }

  lemma RemembersBegin(before: Ideal, c: Call, t: TxnId, level: Isolation)
    requires IdealOk(before) && c == Begin(level) && before.next == t
    ensures Remembers(IdealStep(before, c).0, before, t, level)
  {
    forall n | 0 <= n < |before.history| ensures before.history[n].txn != t {
      assert EntryOk(before, n);
    }
  }

  lemma RemembersStep(i: Ideal, before: Ideal, c: Call, t: TxnId, level: Isolation)
    requires IdealOk(i) && Remembers(i, before, t, level) && i.ts > before.ts
    ensures Remembers(IdealStep(i, c).0, before, t, level) && IdealStep(i, c).0.ts > before.ts
  {
  }

  lemma BegunEarlier(calls: seq<Call>, b: nat, t: TxnId, level: Isolation)
    requires calls != []
    ensures b < |calls| - 1 ==> (BegunAt(calls, b, t, level) <==> BegunAt(calls[..|calls| - 1], b, t, level))
  {
    var rest := calls[..|calls| - 1];
    if b < |rest| {
      assert Replies(calls)[b] == Replies(rest)[b];
    }
  }

  lemma {:induction false} BegunIsRemembered(calls: seq<Call>, b: nat, t: TxnId, level: Isolation)
    requires BegunAt(calls, b, t, level)
    ensures Remembers(IdealRun(calls), IdealRun(calls[..b]), t, level)
    ensures IdealRun(calls).ts > IdealRun(calls[..b]).ts
    decreases |calls|
  {
    var rest, before := calls[..|calls| - 1], IdealRun(calls[..b]);
    LastReply(calls);
    if b == |calls| - 1 {
      assert calls[..b] == rest;
      RemembersBegin(before, calls[b], t, level);
    } else {
      assert rest[..b] == calls[..b];
      BegunEarlier(calls, b, t, level);
      BegunIsRemembered(rest, b, t, level);
      RemembersStep(IdealRun(rest), before, calls[|calls| - 1], t, level);
    }
  }

  // ---------------------------------------------------------------------
  // Theorems
  // ---------------------------------------------------------------------

  /** Every SERIALIZABLE_SNAPSHOT transaction that commits was told, for each of its
      reads and deletes, what a serial execution of the committed transactions in
      commit order would have told it. */
  lemma SerializableTransactionsReplay(calls: seq<Call>, n: nat, b: nat)
    requires n < |CommitOrder(calls)| && BegunAt(calls, b, CommitOrder(calls)[n], Serializable)
    ensures var order := CommitOrder(calls);
            Replays(SerialTable(calls, order[..n]), Told(calls, order[n]))
  {
    var i, order := IdealRun(calls), CommitOrder(calls);
    RunSerialOk(calls);
    RunRecorded(calls);
    BegunIsRemembered(calls, b, order[n], Serializable);
    SerialTableIs(calls, n);
    assert EntrySerial(i.history, n) && EntryTold(calls, i, n);
  }

  lemma {:induction false} OpenWasBegun(calls: seq<Call>, t: TxnId) returns (b: nat, level: Isolation)
    requires t in IdealRun(calls).open
    ensures BegunAt(calls, b, t, level)
    decreases |calls|
  {
    var rest, c := calls[..|calls| - 1], calls[|calls| - 1];
    if t in IdealRun(rest).open {
      b, level := OpenWasBegun(rest, t);
      BegunEarlier(calls, b, t, level);
    } else {
      JustBegun(calls, t);
      b, level := |rest|, c.level;
    }
  }

  /** A transaction that is open now and was not before has just begun. */
  lemma JustBegun(calls: seq<Call>, t: TxnId)
    requires calls != [] && t in IdealRun(calls).open && t !in IdealRun(calls[..|calls| - 1]).open
    ensures calls[|calls| - 1].Begin? && BegunAt(calls, |calls| - 1, t, calls[|calls| - 1].level)
  {
    OnlyBeginOpens(IdealRun(calls[..|calls| - 1]), calls[|calls| - 1], t);
    LastReply(calls);
  }

  lemma OnlyBeginOpens(i: Ideal, c: Call, t: TxnId)
    requires t in IdealStep(i, c).0.open && t !in i.open
    ensures c.Begin? && IdealStep(i, c).1 == Began(t)
  {
  }

  lemma {:induction false} CommittedWasBegun(calls: seq<Call>, n: nat) returns (b: nat, level: Isolation)
    requires n < |CommitOrder(calls)|
    ensures BegunAt(calls, b, CommitOrder(calls)[n], level)
    decreases |calls|
  {
    var rest, c := calls[..|calls| - 1], calls[|calls| - 1];
    if n < |CommitOrder(rest)| {
      b, level := CommittedWasBegun(rest, n);
    } else {
      LastReply(calls);
      b, level := OpenWasBegun(rest, c.txn);
    }
    BegunEarlier(calls, b, CommitOrder(calls)[n], level);
  }

  ghost predicate ReplaysAt(calls: seq<Call>, n: nat)
    requires n < |CommitOrder(calls)|
  {
    Replays(SerialTable(calls, CommitOrder(calls)[..n]), Told(calls, CommitOrder(calls)[n]))
  }

  /** When every transaction uses that level, the whole history is serializable: the
      serial execution in commit order gives every committed transaction the replies
      it got. */
  lemma AllSerializableHistoriesAreSerializable(calls: seq<Call>)
    requires forall j | 0 <= j < |calls| && calls[j].Begin? :: calls[j].level == Serializable
    ensures forall n {:trigger ReplaysAt(calls, n)} | 0 <= n < |CommitOrder(calls)| :: ReplaysAt(calls, n)
  {
    forall n | 0 <= n < |CommitOrder(calls)| ensures ReplaysAt(calls, n) {
      var b, level := CommittedWasBegun(calls, n);
      SerializableTransactionsReplay(calls, n, b);
    }
  }

  /** A running snapshot transaction has been told what its snapshot holds. */
  lemma OpenSnapshot(calls: seq<Call>, b: nat, t: TxnId, level: Isolation)
    requires BegunAt(calls, b, t, level) && TakesSnapshot(level) && t in IdealRun(calls).open
    ensures Replays(Serial(IdealRun(calls[..b]).history), Told(calls, t))
  {
    var before, i := IdealRun(calls[..b]), IdealRun(calls);
    BegunIsRemembered(calls, b, t, level);
    RunSerialOk(calls);
    RunSerialOk(calls[..b]);
    RunRecorded(calls);
    assert OpenTold(calls, i, t) && OpenFaithful(i, t);
    SnapshotPrefix(i, before);
  }

  lemma {:induction false} SnapshotToldBySnapshot(calls: seq<Call>, b: nat, t: TxnId, level: Isolation)
    requires BegunAt(calls, b, t, level) && TakesSnapshot(level)
    ensures Replays(Serial(IdealRun(calls[..b]).history), Told(calls, t))
    decreases |calls|
  {
    if t in IdealRun(calls).open {
      OpenSnapshot(calls, b, t, level);
    } else {
      var rest := calls[..|calls| - 1];
      ClosedIsTold(calls, b, t, level);
      assert rest[..b] == calls[..b];
      SnapshotToldBySnapshot(rest, b, t, level);
    }
  }

  /** A transaction that is not open now began before the last call, and has heard
      nothing by it. */
  lemma ClosedIsTold(calls: seq<Call>, b: nat, t: TxnId, level: Isolation)
    requires BegunAt(calls, b, t, level) && t !in IdealRun(calls).open
    ensures b < |calls| - 1 && BegunAt(calls[..|calls| - 1], b, t, level)
    ensures Told(calls, t) == Told(calls[..|calls| - 1], t)
  {
    LastReply(calls);
    BegunEarlier(calls, b, t, level);
    ToldStep(calls, t);
  }

  /** Snapshot reads: every answer a SNAPSHOT or SERIALIZABLE_SNAPSHOT transaction
      gets, whether it ends up committed, aborted or neither, is that of the table
      the committed transactions had produced when it began, plus its own writes. */
  lemma SnapshotReadsAreRepeatable(calls: seq<Call>, b: nat, t: TxnId, level: Isolation)
    requires BegunAt(calls, b, t, level) && TakesSnapshot(level)
    ensures Replays(SerialTable(calls[..b], CommitOrder(calls[..b])), Told(calls, t))
  {
    var before := calls[..b];
    SnapshotToldBySnapshot(calls, b, t, level);
    SerialTableIs(before, |CommitOrder(before)|);
    RunRecorded(before);
    assert CommitOrder(before)[..|CommitOrder(before)|] == CommitOrder(before);
    assert IdealRun(before).history[..|CommitOrder(before)|] == IdealRun(before).history;
  }

  lemma SnapshotPrefix(i: Ideal, before: Ideal)
    requires IdealOk(before) && before.history <= i.history
    requires forall n | |before.history| <= n < |i.history| :: i.history[n].commit > before.ts
    ensures i.history[..Upto(i.history, before.ts)] == before.history
    decreases |i.history|
  {
    if |i.history| == |before.history| {
      assert i.history == before.history;
      UptoAll(before);
    } else {
      SnapshotPrefix(i.(history := i.history[..|i.history| - 1]), before);
    }
  }

  // ---------------------------------------------------------------------
  // First committer wins
  // ---------------------------------------------------------------------

  /** The `c`-th call commits transaction `t`, and is told that it did. */
  ghost predicate CommittedAt(calls: seq<Call>, c: nat, t: TxnId) {
    c < |calls| && calls[c] == Commit(t) && Replies(calls)[c] == Decided(true)
  }

  /** Transaction `t` was told that it had written or deleted `k`. */
  ghost predicate ToldWritten(calls: seq<Call>, t: TxnId, k: Key) {
    HasWritten(Told(calls, t), k)
  }

  ghost predicate HasWritten(events: seq<Event>, k: Key) {
    exists j :: 0 <= j < |events| && !events[j].ReadOf? && events[j].key == k
  }

  /** What a transaction leaves under a key it has written depends on nothing else. */
  lemma {:induction false} WrittenIsFixed(a: Table, b: Table, events: seq<Event>, k: Key)
    requires HasWritten(events, k)
    ensures Get(Execute(a, events), k) == Get(Execute(b, events), k)
  {
    var rest, e := events[..|events| - 1], events[|events| - 1];
    if e.ReadOf? || e.key != k {
      var j :| 0 <= j < |events| && !events[j].ReadOf? && events[j].key == k;
      assert rest[j] == events[j];
      WrittenIsFixed(a, b, rest, k);
    }
  }

  lemma WrittenIsRecorded(se: Session, k: Key)
    requires Faithful(se) && HasWritten(se.events, k)
    ensures k in se.writes
  {
    var a, b: Table := map[], map[k := ""];
    assert NetEffect(se, a, k) && NetEffect(se, b, k);
    WrittenIsFixed(a, b, se.events, k);
  }

  /** Time and history only grow. */
  lemma {:induction false} OnlyGrows(calls: seq<Call>, b: nat)
    requires b <= |calls|
    ensures IdealRun(calls[..b]).history <= IdealRun(calls).history && IdealRun(calls[..b]).ts <= IdealRun(calls).ts
    decreases |calls|
  {
    if b == |calls| {
      assert calls[..b] == calls;
    } else {
      assert calls[..|calls| - 1][..b] == calls[..b];
      OnlyGrows(calls[..|calls| - 1], b);
    }
  }

  lemma {:induction false} ReplyStays(calls: seq<Call>, b: nat)
    requires b < |calls|
    ensures Replies(calls)[b] == Replies(calls[..b + 1])[b]
    decreases |calls|
  {
    if b + 1 == |calls| {
      assert calls[..b + 1] == calls;
    } else {
      assert calls[..|calls| - 1][..b + 1] == calls[..b + 1];
      ReplyStays(calls[..|calls| - 1], b);
    }
  }

  /** Where a committed transaction stands in the history, and when it committed. */
  lemma CommitIsRemembered(calls: seq<Call>, c: nat, t: TxnId) returns (m: nat)
    requires CommittedAt(calls, c, t)
    ensures m < |IdealRun(calls).history|
    ensures IdealRun(calls).history[m].txn == t && IdealRun(calls).history[m].commit == IdealRun(calls[..c]).ts
  {
    var upto := calls[..c + 1];
    assert upto[..|upto| - 1] == calls[..c] && upto[|upto| - 1] == calls[c];
    ReplyStays(calls, c);
    LastReply(upto);
    OnlyGrows(calls, c + 1);
    m := |IdealRun(calls[..c]).history|;
    assert IdealRun(upto).history[m].txn == t;
  }

  /** A transaction's place in the history by what its caller did and was told. */
  lemma EntryByCalls(calls: seq<Call>, b: nat, c: nat, t: TxnId, level: Isolation, k: Key) returns (m: nat)
    requires BegunAt(calls, b, t, level) && CommittedAt(calls, c, t) && ToldWritten(calls, t, k)
    ensures m < |IdealRun(calls).history| && k in IdealRun(calls).history[m].session.writes
    ensures var e := IdealRun(calls).history[m];
            e.txn == t && e.commit == IdealRun(calls[..c]).ts && e.session.start == IdealRun(calls[..b]).ts
  {
    m := CommitIsRemembered(calls, c, t);
    BegunIsRemembered(calls, b, t, level);
    RunRecorded(calls);
    RunSerialOk(calls);
    assert EntryTold(calls, IdealRun(calls), m) && EntrySerial(IdealRun(calls).history, m);
    WrittenIsRecorded(IdealRun(calls).history[m].session, k);
  }

  /** Of two transactions that were told they had written the same key, and that they
      had committed, one was told so before the other began: at every isolation level. */
  lemma FirstCommitterWinsByCalls(calls: seq<Call>, k: Key, t: TxnId, b: nat, c: nat, level: Isolation,
                                  t': TxnId, b': nat, c': nat, level': Isolation)
    requires BegunAt(calls, b, t, level) && CommittedAt(calls, c, t) && ToldWritten(calls, t, k)
    requires BegunAt(calls, b', t', level') && CommittedAt(calls, c', t') && ToldWritten(calls, t', k)
    requires t != t'
    ensures c < b' || c' < b
  {
    var m := EntryByCalls(calls, b, c, t, level, k);
    var n := EntryByCalls(calls, b', c', t', level', k);
    if m < n {
      FirstCommitterWins(calls, k, m, n);
      Sooner(calls, c, b');
    } else {
      FirstCommitterWins(calls, k, n, m);
      Sooner(calls, c', b);
    }
  }

  lemma Sooner(calls: seq<Call>, x: nat, y: nat)
    requires x <= |calls| && y <= |calls| && IdealRun(calls[..x]).ts < IdealRun(calls[..y]).ts
    ensures x < y
  {
    if y <= x {
      assert calls[..x][..y] == calls[..y];
      OnlyGrows(calls[..x], y);
    }
  }
}

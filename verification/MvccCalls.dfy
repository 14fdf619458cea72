/**
 What the multi-version store answers to each call, at every isolation level, in terms
 of nothing but the calls made and the replies received before: who is running, what a
 read is entitled to, and when a commit succeeds.
 */
module MvccCalls {
  import opened Common
  import opened MvccModel
  import opened MvccIdeal
  import opened MvccRefine
  import opened MvccTheorems
  import opened MvccSerializability

  // ---------------------------------------------------------------------
  // Running transactions
  // ---------------------------------------------------------------------

  /** Transaction `t` was begun by the `b`-th call, at the given level, and neither commit
      nor abort has been called for it since. */
  ghost predicate Running(calls: seq<Call>, t: TxnId, b: nat, level: Isolation) {
    BegunAt(calls, b, t, level) && forall j | b < j < |calls| :: calls[j] != Commit(t) && calls[j] != Abort(t)
  }

  lemma {:induction false} RunningIsOpen(calls: seq<Call>, t: TxnId, b: nat, level: Isolation)
    requires Running(calls, t, b, level)
    ensures t in IdealRun(calls).open
    decreases |calls|
  {
    var rest, c := calls[..|calls| - 1], calls[|calls| - 1];
    LastReply(calls);
    if b < |rest| {
      BegunEarlier(calls, b, t, level);
      RunningIsOpen(rest, t, b, level);
    }
  }

  lemma {:induction false} OpenIsRunning(calls: seq<Call>, t: TxnId) returns (b: nat, level: Isolation)
    requires t in IdealRun(calls).open
    ensures Running(calls, t, b, level)
    decreases |calls|
  {
    var rest, c := calls[..|calls| - 1], calls[|calls| - 1];
    if t in IdealRun(rest).open {
      b, level := OpenIsRunning(rest, t);
      BegunEarlier(calls, b, t, level);
      StaysOpen(IdealRun(rest), c, t);
    } else {
      JustBegun(calls, t);
      b, level := |rest|, c.level;
    }
  }

  lemma StaysOpen(i: Ideal, c: Call, t: TxnId)
    requires t in IdealStep(i, c).0.open
    ensures c != Commit(t) && c != Abort(t)
  {
  }

  // ---------------------------------------------------------------------
  // What a session has written and read
  // ---------------------------------------------------------------------

  ghost predicate HasRead(events: seq<Event>, k: Key) {
    exists j :: 0 <= j < |events| && !events[j].WriteOf? && events[j].key == k
  }

  /** Transaction `t` was told something about `k`, by a read or by a delete. */
  ghost predicate ToldRead(calls: seq<Call>, t: TxnId, k: Key) {
    HasRead(Told(calls, t), k)
  }

  lemma {:induction false} UnwrittenStays(m: Table, events: seq<Event>, k: Key)
    requires !HasWritten(events, k)
    ensures Get(Execute(m, events), k) == Get(m, k)
  {
    if events != [] {
      var rest := events[..|events| - 1];
      assert forall j | 0 <= j < |rest| :: rest[j] == events[j];
      assert events[|events| - 1].ReadOf? || events[|events| - 1].key != k;
      UnwrittenStays(m, rest, k);
    }
  }

  lemma WritesAreTold(se: Session, k: Key)
    requires Faithful(se)
    ensures k in se.writes <==> HasWritten(se.events, k)
  {
    if HasWritten(se.events, k) {
      WrittenIsRecorded(se, k);
    } else {
      var a, b: Table := map[k := ""], map[k := "x"];
      assert NetEffect(se, a, k) && NetEffect(se, b, k);
      UnwrittenStays(a, se.events, k);
      UnwrittenStays(b, se.events, k);
    }
  }

  /** Every key a running session has seen it was told about. */
  ghost predicate SeenTold(i: Ideal, t: TxnId)
    requires t in i.open
  {
    forall k | k in i.open[t].seen :: HasRead(i.open[t].events, k)
  }

  lemma HasReadNext(events: seq<Event>, e: Event, k: Key)
    ensures HasRead(events, k) || (!e.WriteOf? && e.key == k) ==> HasRead(events + [e], k)
  {
    var next := events + [e];
    if HasRead(events, k) {
      var j :| 0 <= j < |events| && !events[j].WriteOf? && events[j].key == k;
      assert next[j] == events[j];
    }
    if !e.WriteOf? && e.key == k { assert next[|events|] == e; }
  }

  lemma SeenToldStep(i: Ideal, c: Call, t: TxnId)
    requires t in IdealStep(i, c).0.open && (t in i.open ==> SeenTold(i, t))
    ensures SeenTold(IdealStep(i, c).0, t)
  {
    var i' := IdealStep(i, c).0;
    if t in i.open && i'.open[t] != i.open[t] && !c.Begin? {
      var e := i'.open[t].events[|i.open[t].events|];
      assert i'.open[t].events == i.open[t].events + [e];
      forall k | k in i'.open[t].seen ensures HasRead(i'.open[t].events, k) {
        HasReadNext(i.open[t].events, e, k);
      }
    }
  }

  lemma {:induction false} RunSeenTold(calls: seq<Call>, t: TxnId)
    requires t in IdealRun(calls).open
    ensures SeenTold(IdealRun(calls), t)
    decreases |calls|
  {
    var rest := calls[..|calls| - 1];
    if t in IdealRun(rest).open { RunSeenTold(rest, t); }
    SeenToldStep(IdealRun(rest), calls[|calls| - 1], t);
  }

  /** A running session by what its caller was told. */
  lemma SessionIsTold(calls: seq<Call>, t: TxnId, k: Key)
    requires t in IdealRun(calls).open
    ensures var se := IdealRun(calls).open[t];
            && Faithful(se) && se.events == Told(calls, t)
            && (k in se.writes <==> ToldWritten(calls, t, k))
            && (k in se.seen <==> ToldRead(calls, t, k))
  {
    var i := IdealRun(calls);
    RunSerialOk(calls);
    RunRecorded(calls);
    RunSeenTold(calls, t);
    assert OpenTold(calls, i, t) && OpenFaithful(i, t);
    WritesAreTold(i.open[t], k);
  }

  // ---------------------------------------------------------------------
  // Committed transactions
  // ---------------------------------------------------------------------

  lemma {:induction false} EntryWasCommitted(calls: seq<Call>, n: nat) returns (c: nat)
    requires n < |IdealRun(calls).history|
    ensures CommittedAt(calls, c, IdealRun(calls).history[n].txn)
    ensures IdealRun(calls).history[n].commit == IdealRun(calls[..c]).ts
    decreases |calls|
  {
    var rest := calls[..|calls| - 1];
    LastReply(calls);
    HistoryStep(IdealRun(rest), calls[|calls| - 1]);
    if n < |IdealRun(rest).history| {
      c := EntryWasCommitted(rest, n);
      assert rest[..c] == calls[..c] && Replies(calls)[c] == Replies(rest)[c];
    } else {
      c := |rest|;
      assert calls[..c] == rest;
    }
  }

  lemma EntryIsTold(calls: seq<Call>, n: nat, k: Key)
    requires n < |IdealRun(calls).history|
    ensures k in IdealRun(calls).history[n].session.writes <==> ToldWritten(calls, IdealRun(calls).history[n].txn, k)
  {
    RunSerialOk(calls);
    RunRecorded(calls);
    var i := IdealRun(calls);
    assert EntryTold(calls, i, n) && EntrySerial(i.history, n);
    WritesAreTold(i.history[n].session, k);
  }

  /** A transaction begun by the `b`-th call started before the `c`-th if and only if it is
      the earlier call. */
  lemma StartedBefore(calls: seq<Call>, b: nat, t: TxnId, level: Isolation, c: nat)
    requires BegunAt(calls, b, t, level) && c < |calls|
    ensures IdealRun(calls[..b]).ts < IdealRun(calls[..c]).ts <==> b < c
  {
    if b < c {
      var upto := calls[..b + 1];
      assert upto[..|upto| - 1] == calls[..b] && upto[|upto| - 1] == calls[b];
      assert IdealRun(upto).ts == IdealRun(calls[..b]).ts + 1;
      assert calls[..c][..b + 1] == upto;
      OnlyGrows(calls[..c], b + 1);
    } else {
      assert calls[..b][..c] == calls[..c];
      OnlyGrows(calls[..b], c);
    }
  }

  // ---------------------------------------------------------------------
  // When a commit succeeds
  // ---------------------------------------------------------------------

  /** Since the `b`-th call another transaction was told that it had committed, having
      written `k`, which `t` was told that it had written, or, at the highest level, was
      told anything about. */
  ghost predicate Interferes(calls: seq<Call>, b: nat, t: TxnId, level: Isolation, c: nat, k: Key) {
    && b < c < |calls| && calls[c].Commit? && CommittedAt(calls, c, calls[c].txn) && ToldWritten(calls, calls[c].txn, k)
    && (ToldWritten(calls, t, k) || (level == Serializable && ToldRead(calls, t, k)))
  }

  lemma OvertakenIsInterfered(calls: seq<Call>, b: nat, t: TxnId, level: Isolation)
    requires Running(calls, t, b, level) && t in IdealRun(calls).open && Overtaken(IdealRun(calls), t)
    ensures exists c, k :: Interferes(calls, b, t, level, c, k)
  {
    var i := IdealRun(calls);
    BegunIsRemembered(calls, b, t, level);
    var n, k :| && 0 <= n < |i.history| && k in Checked(i.open[t]) && k in i.history[n].session.writes
                && i.history[n].commit > i.open[t].start;
    var c := EntryWasCommitted(calls, n);
    StartedBefore(calls, b, t, level, c);
    EntryIsTold(calls, n, k);
    SessionIsTold(calls, t, k);
    assert Interferes(calls, b, t, level, c, k);
  }

  lemma InterferedIsOvertaken(calls: seq<Call>, b: nat, t: TxnId, level: Isolation, c: nat, k: Key)
    requires Running(calls, t, b, level) && t in IdealRun(calls).open && Interferes(calls, b, t, level, c, k)
    ensures Overtaken(IdealRun(calls), t)
  {
    var i := IdealRun(calls);
    BegunIsRemembered(calls, b, t, level);
    var n := CommitIsRemembered(calls, c, calls[c].txn);
    StartedBefore(calls, b, t, level, c);
    EntryIsTold(calls, n, k);
    SessionIsTold(calls, t, k);
    assert k in Checked(i.open[t]) && k in i.history[n].session.writes && i.history[n].commit > i.open[t].start;
  }

  /** The reply to the next call. */
  lemma NextReply(calls: seq<Call>, c: Call)
    ensures |Replies(calls + [c])| == |calls| + 1
    ensures Replies(calls + [c])[|calls|] == IdealStep(IdealRun(calls), c).1
  {
    DropLast(calls, c);
    LastReply(calls + [c]);
  }

  lemma OvertakenIff(calls: seq<Call>, t: TxnId, b: nat, level: Isolation)
    requires Running(calls, t, b, level) && t in IdealRun(calls).open
    ensures Overtaken(IdealRun(calls), t) <==> exists c, k :: Interferes(calls, b, t, level, c, k)
  {
    if Overtaken(IdealRun(calls), t) {
      OvertakenIsInterfered(calls, b, t, level);
    }
    forall c, k | Interferes(calls, b, t, level, c, k) ensures Overtaken(IdealRun(calls), t) {
      InterferedIsOvertaken(calls, b, t, level, c, k);
    }
  }

  /** A commit succeeds if and only if nothing has interfered since the transaction began,
      at every level. */
  lemma CommitsIff(calls: seq<Call>, t: TxnId, b: nat, level: Isolation)
    requires Running(calls, t, b, level)
    ensures |Replies(calls + [Commit(t)])| == |calls| + 1
    ensures Replies(calls + [Commit(t)])[|calls|] == Decided(!exists c, k :: Interferes(calls, b, t, level, c, k))
  {
    RunningIsOpen(calls, t, b, level);
    NextReply(calls, Commit(t));
    OvertakenIff(calls, t, b, level);
  }

  // ---------------------------------------------------------------------
  // The last write that has not been undone
  // ---------------------------------------------------------------------

  /** Some transaction was told by the `j`-th call that it had written or deleted `k`. */
  ghost predicate WroteAt(calls: seq<Call>, j: nat, k: Key) {
    && j < |calls| && (calls[j].Write? || calls[j].Delete?) && calls[j].key == k
    && (Replies(calls)[j].Written? || Replies(calls)[j].Deleted?)
  }

  /** What a write or a delete leaves under its key. */
  function Leaves(c: Call): Option<Value> {
    if c.Write? then Some(c.value) else None
  }

  ghost predicate IsRunning(calls: seq<Call>, t: TxnId) {
    exists b, level :: Running(calls, t, b, level)
  }

  ghost predicate WasCommitted(calls: seq<Call>, t: TxnId) {
    exists c :: CommittedAt(calls, c, t)
  }

  /** The `j`-th call wrote `k`, and its transaction was neither refused nor aborted. */
  ghost predicate Survives(calls: seq<Call>, j: nat, k: Key) {
    WroteAt(calls, j, k) && (IsRunning(calls, calls[j].txn) || WasCommitted(calls, calls[j].txn))
  }

  /** What the last surviving write among the first `n` calls left under `k`. */
  ghost function LastLeft(calls: seq<Call>, k: Key, n: nat): (r: Option<Value>)
    requires n <= |calls|
    ensures (forall j | 0 <= j < n :: !Survives(calls, j, k)) ==> r == None
    ensures forall j | 0 <= j < n && Survives(calls, j, k) && (forall l | j < l < n :: !Survives(calls, l, k)) ::
              r == Leaves(calls[j])
  {
    if n == 0 then None
    else if Survives(calls, n - 1, k) then Leaves(calls[n - 1])
    else LastLeft(calls, k, n - 1)
  }

  lemma WroteEarlier(calls: seq<Call>, j: nat, k: Key)
    requires j < |calls| - 1
    ensures WroteAt(calls, j, k) <==> WroteAt(calls[..|calls| - 1], j, k)
  {
    assert Replies(calls)[j] == Replies(calls[..|calls| - 1])[j];
  }

  lemma HasWrittenNext(events: seq<Event>, e: Event, k: Key)
    ensures HasWritten(events, k) || (!e.ReadOf? && e.key == k) ==> HasWritten(events + [e], k)
  {
    var next := events + [e];
    if HasWritten(events, k) {
      var j :| 0 <= j < |events| && !events[j].ReadOf? && events[j].key == k;
      assert next[j] == events[j];
    }
    if !e.ReadOf? && e.key == k { assert next[|events|] == e; }
  }

  lemma {:induction false} WroteIsTold(calls: seq<Call>, j: nat, k: Key)
    requires WroteAt(calls, j, k)
    ensures ToldWritten(calls, calls[j].txn, k)
    decreases |calls|
  {
    var rest, c, t := calls[..|calls| - 1], calls[|calls| - 1], calls[j].txn;
    var e := EventOf(c, Replies(calls)[|rest|], t);
    if j < |rest| {
      WroteEarlier(calls, j, k);
      WroteIsTold(rest, j, k);
    } else {
      LastReply(calls);
    }
    if e.Some? { HasWrittenNext(Told(rest, t), e.value, k); }
  }

  /** The write of `k` that transaction `t` has pending or has committed. */
  ghost predicate Owns(i: Ideal, t: TxnId, k: Key, w: Stamped) {
    || (t in i.open && k in i.open[t].writes && i.open[t].writes[k] == w)
    || (exists n :: && 0 <= n < |i.history| && i.history[n].txn == t
                    && k in i.history[n].session.writes && i.history[n].session.writes[k] == w)
  }

  /** The `j`-th call is the last by which `t` wrote `k`. */
  ghost predicate LastWroteAt(calls: seq<Call>, j: nat, t: TxnId, k: Key) {
    && WroteAt(calls, j, k) && calls[j].txn == t
    && forall l | j < l < |calls| && WroteAt(calls, l, k) :: calls[l].txn != t
  }

  ghost function WriteOfCall(calls: seq<Call>, j: nat): Stamped
    requires j < |calls|
  {
    Stamped(IdealRun(calls[..j]).ts, Leaves(calls[j]))
  }

  lemma OwnsStep(i: Ideal, c: Call, t: TxnId, k: Key, w: Stamped)
    requires IdealOk(i) && Owns(IdealStep(i, c).0, t, k, w)
    ensures if (c.Write? || c.Delete?) && c.txn == t && c.key == k && t in i.open
            then w == Stamped(i.ts, Leaves(c)) else Owns(i, t, k, w)
  {
    var i' := IdealStep(i, c).0;
    if n :| && 0 <= n < |i'.history| && i'.history[n].txn == t
            && k in i'.history[n].session.writes && i'.history[n].session.writes[k] == w {
      if n < |i.history| {
        assert i'.history[n] == i.history[n];
        assert t in i.open ==> OpenOk(i, t);
      }
    }
  }

  lemma {:induction false} OwnedWasWritten(calls: seq<Call>, t: TxnId, k: Key, w: Stamped) returns (j: nat)
    requires Owns(IdealRun(calls), t, k, w)
    ensures LastWroteAt(calls, j, t, k) && w == WriteOfCall(calls, j)
    decreases |calls|
  {
    var rest, c := calls[..|calls| - 1], calls[|calls| - 1];
    LastReply(calls);
    OwnsStep(IdealRun(rest), c, t, k, w);
    WroteNow(calls, t, k);
    if WroteAt(calls, |rest|, k) && c.txn == t {
      j := |rest|;
    } else {
      j := OwnedWasWritten(rest, t, k, w);
      StillLast(calls, j, t, k);
    }
  }

  lemma WroteNow(calls: seq<Call>, t: TxnId, k: Key)
    requires calls != []
    ensures var c := calls[|calls| - 1];
            WroteAt(calls, |calls| - 1, k) && c.txn == t
            <==> (c.Write? || c.Delete?) && c.txn == t && c.key == k && t in IdealRun(calls[..|calls| - 1]).open
  {
    LastReply(calls);
  }

  lemma StillLast(calls: seq<Call>, j: nat, t: TxnId, k: Key)
    requires calls != [] && LastWroteAt(calls[..|calls| - 1], j, t, k)
    requires WroteAt(calls, |calls| - 1, k) ==> calls[|calls| - 1].txn != t
    ensures LastWroteAt(calls, j, t, k) && WriteOfCall(calls, j) == WriteOfCall(calls[..|calls| - 1], j)
  {
    var rest := calls[..|calls| - 1];
    assert calls[..j] == rest[..j];
    forall l | j <= l < |rest| ensures WroteAt(calls, l, k) <==> WroteAt(rest, l, k) { WroteEarlier(calls, l, k); }
  }

  lemma OwnerIsLive(calls: seq<Call>, t: TxnId, k: Key, w: Stamped)
    requires Owns(IdealRun(calls), t, k, w)
    ensures IsRunning(calls, t) || WasCommitted(calls, t)
  {
    var i := IdealRun(calls);
    if t in i.open {
      var b, level := OpenIsRunning(calls, t);
    } else {
      var n :| 0 <= n < |i.history| && i.history[n].txn == t;
      var c := EntryWasCommitted(calls, n);
    }
  }

  lemma LiveOwnerOwns(calls: seq<Call>, t: TxnId, k: Key) returns (w: Stamped)
    requires (IsRunning(calls, t) || WasCommitted(calls, t)) && ToldWritten(calls, t, k)
    ensures Owns(IdealRun(calls), t, k, w)
  {
    var i := IdealRun(calls);
    if b, level :| Running(calls, t, b, level) {
      RunningIsOpen(calls, t, b, level);
      SessionIsTold(calls, t, k);
      w := i.open[t].writes[k];
    } else {
      var c :| CommittedAt(calls, c, t);
      var n := CommitIsRemembered(calls, c, t);
      EntryIsTold(calls, n, k);
      w := i.history[n].session.writes[k];
    }
  }

  lemma LaterWriteLaterStamp(calls: seq<Call>, j: nat, l: nat, k: Key)
    requires j <= l < |calls| && WroteAt(calls, j, k)
    ensures j < l ==> WriteOfCall(calls, j).stamp < WriteOfCall(calls, l).stamp
  {
    if j < l {
      var upto := calls[..j + 1];
      assert upto[..|upto| - 1] == calls[..j] && upto[|upto| - 1] == calls[j];
      ReplyStays(calls, j);
      LastReply(upto);
      assert IdealRun(upto).ts == IdealRun(calls[..j]).ts + 1;
      assert calls[..l][..j + 1] == upto;
      OnlyGrows(calls[..l], j + 1);
    }
  }

  /** Every surviving write in the ideal store is one by the calls, and the last by its
      transaction. */
  lemma CandidateWasWritten(calls: seq<Call>, k: Key, w: Stamped) returns (j: nat)
    requires Candidate(IdealRun(calls), k, w)
    ensures Survives(calls, j, k) && w == WriteOfCall(calls, j)
  {
    var i := IdealRun(calls);
    var t: TxnId;
    if n :| 0 <= n < |i.history| && k in i.history[n].session.writes && i.history[n].session.writes[k] == w {
      t := i.history[n].txn;
    } else {
      t :| t in i.open && k in i.open[t].writes && i.open[t].writes[k] == w;
    }
    j := OwnedWasWritten(calls, t, k, w);
    OwnerIsLive(calls, t, k, w);
  }

  lemma LastIsCandidate(calls: seq<Call>, k: Key, j: nat)
    requires Survives(calls, j, k) && forall l | j < l < |calls| :: !Survives(calls, l, k)
    ensures Candidate(IdealRun(calls), k, WriteOfCall(calls, j))
  {
    var t := calls[j].txn;
    WroteIsTold(calls, j, k);
    var w := LiveOwnerOwns(calls, t, k);
    var l := OwnedWasWritten(calls, t, k, w);
    assert Survives(calls, l, k) && l == j;
  }

  lemma LatestIsLast(calls: seq<Call>, k: Key, j: nat)
    requires Survives(calls, j, k) && forall l | j < l < |calls| :: !Survives(calls, l, k)
    ensures LatestWrite(IdealRun(calls), k) == Leaves(calls[j])
  {
    var i, w := IdealRun(calls), WriteOfCall(calls, j);
    LastIsCandidate(calls, k, j);
    forall w' | Candidate(i, k, w') ensures w'.stamp <= w.stamp && (w'.stamp == w.stamp ==> w' == w) {
      var l := CandidateWasWritten(calls, k, w');
      LaterWriteLaterStamp(calls, l, j, k);
    }
    assert IsLatest(i, k, w);
  }

  /** Reading uncommitted sees the last write that was not undone. */
  lemma LatestIsLastLeft(calls: seq<Call>, k: Key)
    ensures LatestWrite(IdealRun(calls), k) == LastLeft(calls, k, |calls|)
  {
    if j :| 0 <= j < |calls| && Survives(calls, j, k) {
      var last := LastSurvivor(calls, k, |calls|, j);
      LatestIsLast(calls, k, last);
    } else {
      forall w ensures !Candidate(IdealRun(calls), k, w) {
        if Candidate(IdealRun(calls), k, w) {
          var j := CandidateWasWritten(calls, k, w);
        }
      }
    }
  }

  lemma {:induction false} LastSurvivor(calls: seq<Call>, k: Key, n: nat, j: nat) returns (last: nat)
    requires j < n <= |calls| && Survives(calls, j, k)
    ensures last < n && Survives(calls, last, k) && forall l | last < l < n :: !Survives(calls, l, k)
  {
    if Survives(calls, n - 1, k) { last := n - 1; } else { last := LastSurvivor(calls, k, n - 1, j); }
  }

  // ---------------------------------------------------------------------
  // What each call is answered
  // ---------------------------------------------------------------------

  /** The value a running transaction is entitled to see under `k`. Its own writes come
      first at every level. Apart from them, it sees the last write that was not undone, or
      the table left by the committed transactions executed one after another: those
      committed by now, or by the time it began. */
  ghost function Entitled(calls: seq<Call>, t: TxnId, b: nat, level: Isolation, k: Key): Option<Value>
    requires b <= |calls|
  {
    var own := Told(calls, t);
    match level
    case ReadUncommitted =>
      if ToldWritten(calls, t, k) then Get(Execute(map[], own), k) else LastLeft(calls, k, |calls|)
    case ReadCommitted => Get(Execute(SerialTable(calls, CommitOrder(calls)), own), k)
    case Snapshot => Get(Execute(SerialTable(calls[..b], CommitOrder(calls[..b])), own), k)
    case Serializable => Get(Execute(SerialTable(calls[..b], CommitOrder(calls[..b])), own), k)
  }

  lemma CommittedTable(calls: seq<Call>)
    ensures SerialTable(calls, CommitOrder(calls)) == Serial(IdealRun(calls).history)
  {
    OrderIsHistory(calls);
    SerialTableIs(calls, |CommitOrder(calls)|);
    assert CommitOrder(calls)[..|CommitOrder(calls)|] == CommitOrder(calls);
    assert IdealRun(calls).history[..|CommitOrder(calls)|] == IdealRun(calls).history;
  }

  lemma SeesUncommitted(calls: seq<Call>, t: TxnId, k: Key)
    requires t in IdealRun(calls).open && IdealRun(calls).open[t].level == ReadUncommitted
    ensures Sees(IdealRun(calls), t, k)
         == if ToldWritten(calls, t, k) then Get(Execute(map[], Told(calls, t)), k) else LastLeft(calls, k, |calls|)
  {
    SessionIsTold(calls, t, k);
    LatestIsLastLeft(calls, k);
    assert NetEffect(IdealRun(calls).open[t], map[], k);
  }

  lemma SeesCommitted(calls: seq<Call>, t: TxnId, k: Key)
    requires t in IdealRun(calls).open && IdealRun(calls).open[t].level == ReadCommitted
    ensures Sees(IdealRun(calls), t, k) == Get(Execute(SerialTable(calls, CommitOrder(calls)), Told(calls, t)), k)
  {
    var i := IdealRun(calls);
    SessionIsTold(calls, t, k);
    CommittedTable(calls);
    RunSerialOk(calls);
    forall n | 0 <= n < |i.history| ensures i.history[n].commit <= i.ts && Faithful(i.history[n].session) {
      assert EntryOk(i, n) && EntrySerial(i.history, n);
    }
    SerialIsAsOf(i.history, k, i.ts);
    assert NetEffect(i.open[t], Serial(i.history), k);
  }

  lemma SeesItsSnapshot(calls: seq<Call>, t: TxnId, b: nat, level: Isolation, k: Key)
    requires BegunAt(calls, b, t, level) && TakesSnapshot(level) && t in IdealRun(calls).open
    ensures Sees(IdealRun(calls), t, k)
         == Get(Execute(SerialTable(calls[..b], CommitOrder(calls[..b])), Told(calls, t)), k)
  {
    var i, before := IdealRun(calls), IdealRun(calls[..b]);
    SessionIsTold(calls, t, k);
    CommittedTable(calls[..b]);
    RunSerialOk(calls);
    RunSerialOk(calls[..b]);
    BegunIsRemembered(calls, b, t, level);
    SnapshotPrefix(i, before);
    SeesSnapshot(i, t, k);
  }

  lemma SeesIsEntitled(calls: seq<Call>, t: TxnId, b: nat, level: Isolation, k: Key)
    requires Running(calls, t, b, level) && t in IdealRun(calls).open
    ensures Sees(IdealRun(calls), t, k) == Entitled(calls, t, b, level, k)
  {
    BegunIsRemembered(calls, b, t, level);
    match level {
      case ReadUncommitted => SeesUncommitted(calls, t, k);
      case ReadCommitted => SeesCommitted(calls, t, k);
      case Snapshot => SeesItsSnapshot(calls, t, b, level, k);
      case Serializable => SeesItsSnapshot(calls, t, b, level, k);
    }
  }

  /** A read finds, and a delete reports the presence of, the value its transaction is
      entitled to see, at every level. */
  lemma ReadsWhatItIsEntitledTo(calls: seq<Call>, t: TxnId, b: nat, level: Isolation, k: Key)
    requires Running(calls, t, b, level)
    ensures |Replies(calls + [Read(t, k)])| == |Replies(calls + [Delete(t, k)])| == |calls| + 1
    ensures Replies(calls + [Read(t, k)])[|calls|] == Found(Entitled(calls, t, b, level, k))
    ensures Replies(calls + [Delete(t, k)])[|calls|] == Deleted(Entitled(calls, t, b, level, k).Some?)
  {
    RunningIsOpen(calls, t, b, level);
    SeesIsEntitled(calls, t, b, level, k);
    NextReply(calls, Read(t, k));
    NextReply(calls, Delete(t, k));
  }

  function Begins(calls: seq<Call>): nat {
    if calls == [] then 0 else Begins(calls[..|calls| - 1]) + if calls[|calls| - 1].Begin? then 1 else 0
  }

  lemma {:induction false} NextIsBegins(calls: seq<Call>)
    ensures IdealRun(calls).next == Begins(calls)
  {
    if calls != [] { NextIsBegins(calls[..|calls| - 1]); }
  }

  /** The one reply the store may give to `c` after `calls`. */
  ghost predicate RightAnswer(calls: seq<Call>, c: Call, r: Reply) {
    match c
    case Begin(_) => r == Began(Begins(calls))
    case Abort(_) => r == Closed
    case Collect => r == Collected
    case Read(t, k) =>
      if IsRunning(calls, t)
      then forall b, level | Running(calls, t, b, level) :: r == Found(Entitled(calls, t, b, level, k))
      else r == NoSuchTxn
    case Write(t, k, v) => r == if IsRunning(calls, t) then Written else NoSuchTxn
    case Delete(t, k) =>
      if IsRunning(calls, t)
      then forall b, level | Running(calls, t, b, level) :: r == Deleted(Entitled(calls, t, b, level, k).Some?)
      else r == NoSuchTxn
    case Commit(t) =>
      if IsRunning(calls, t)
      then forall b, level | Running(calls, t, b, level) ::
             r == Decided(!exists c, k :: Interferes(calls, b, t, level, c, k))
      else r == NoSuchTxn
  }

  /** The store gives every call, at any point of any run, the right answer. */
  lemma EveryAnswerIsRight(calls: seq<Call>, c: Call)
    ensures |Replies(calls + [c])| == |calls| + 1
    ensures RightAnswer(calls, c, Replies(calls + [c])[|calls|])
  {
    NextReply(calls, c);
    NextIsBegins(calls);
    if !c.Begin? && !c.Abort? && !c.Collect? {
      AnswersTheRunning(calls, c);
    }
  }

  lemma AnswersTheRunning(calls: seq<Call>, c: Call)
    requires c.Read? || c.Write? || c.Delete? || c.Commit?
    ensures |Replies(calls + [c])| == |calls| + 1
    ensures RightAnswer(calls, c, Replies(calls + [c])[|calls|])
  {
    NextReply(calls, c);
    if c.txn in IdealRun(calls).open { var b, level := OpenIsRunning(calls, c.txn); }
    forall b, level | Running(calls, c.txn, b, level)
      ensures c.txn in IdealRun(calls).open
      ensures c.Read? || c.Delete? ==> Sees(IdealRun(calls), c.txn, c.key) == Entitled(calls, c.txn, b, level, c.key)
      ensures c.Commit? ==> (Overtaken(IdealRun(calls), c.txn) <==> exists d, k :: Interferes(calls, b, c.txn, level, d, k))
    {
      RunningIsOpen(calls, c.txn, b, level);
      if c.Commit? { OvertakenIff(calls, c.txn, b, level); } else { SeesIsEntitled(calls, c.txn, b, level, c.key); }
    }
  }

  /** What was asked and answered before leaves one right answer. */
  lemma OneRightAnswer(calls: seq<Call>, c: Call, r: Reply, r': Reply)
    requires RightAnswer(calls, c, r) && RightAnswer(calls, c, r')
    ensures r == r'
  {
    if !c.Begin? && !c.Abort? && !c.Collect? && IsRunning(calls, c.txn) {
      var b, level :| Running(calls, c.txn, b, level);
    }
  }
}

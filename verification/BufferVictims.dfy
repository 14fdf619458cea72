/**
 What the replacers reply, in terms of the calls made and the replies received before. No
 stored history, clock or list occurs: the victim of LRU-K is the evictable frame with
 fewer than k accesses whose first one is longest ago, or, if there is none, the one
 whose k-th last access is longest ago; that of LRU is the one last used longest ago.
 */
module BufferVictims {
  import opened Common
  import opened BufferReplacer

  /** The calls, by position, that accessed `f` since it was last dropped. */
  function Times(ops: seq<Op>, replies: seq<Reply>, f: Frame): seq<nat>
    requires |replies| == |ops|
  {
    if ops == [] then []
    else
      var m := |ops| - 1;
      var ts := Times(ops[..m], replies[..m], f);
      match ops[m]
      case Access(g) => if g == f && replies[m] == Done then ts + [m] else ts
      case Mark(_, _) => ts
      case Evict => if replies[m] == Victim(Some(f)) then [] else ts
      case Remove(g) => if g == f && replies[m] == Done then [] else ts
  }

  predicate Evictable(ops: seq<Op>, replies: seq<Reply>, f: Frame)
    requires |replies| == |ops|
  {
    var w := Knows(ops, replies, f);
    !w.Untracked? && w.evictable
  }

  /** `f` goes before `g`. */
  predicate GoesFirst(k: nat, ops: seq<Op>, replies: seq<Reply>, f: Frame, g: Frame)
    requires k >= 1 && |replies| == |ops|
  {
    var tf, tg := Times(ops, replies, f), Times(ops, replies, g);
    && tf != [] && tg != []
    && (|tg| < k ==> |tf| < k && tf[0] < tg[0])
    && (|tg| >= k && |tf| >= k ==> tf[|tf| - k] < tg[|tg| - k])
  }

  /** `f` is evictable and goes before all others that are. */
  ghost predicate FirstOut(k: nat, ops: seq<Op>, replies: seq<Reply>, f: Frame)
    requires k >= 1 && |replies| == |ops|
  {
    && Evictable(ops, replies, f) && Times(ops, replies, f) != []
    && forall g {:trigger Evictable(ops, replies, g)} | Evictable(ops, replies, g) && g != f :: GoesFirst(k, ops, replies, f, g)
  }

  /** The reply to the next call, from the calls and replies so far. */
  ghost predicate RightReply(k: nat, n: nat, ops: seq<Op>, replies: seq<Reply>, op: Op, r: Reply)
    requires k >= 1 && |replies| == |ops|
  {
    match op
    case Access(f) => r == if 0 <= f < n then Done else Refused
    case Mark(_, _) => r == Done
    case Remove(f) =>
      r == if Knows(ops, replies, f).Untracked? || Evictable(ops, replies, f) then Done else Refused
    case Evict =>
      match r
      case Fault => exists f :: Evictable(ops, replies, f) && Times(ops, replies, f) == []
      case Victim(None) => forall f :: !Evictable(ops, replies, f)
      case Victim(Some(f)) => FirstOut(k, ops, replies, f)
      case _ => false
  }

  // ---------------------------------------------------------------------
  // The clock
  // ---------------------------------------------------------------------

  /** How many accesses have been accepted. */
  function Ticks(ops: seq<Op>, replies: seq<Reply>): nat
    requires |replies| == |ops|
  {
    if ops == [] then 0
    else
      var m := |ops| - 1;
      Ticks(ops[..m], replies[..m]) + if Accepted(ops, replies, m) then 1 else 0
  }

  predicate Accepted(ops: seq<Op>, replies: seq<Reply>, p: nat)
    requires p < |replies| == |ops|
  {
    ops[p].Access? && replies[p] == Done
  }

  function TickAt(ops: seq<Op>, replies: seq<Reply>, p: nat): nat
    requires p <= |replies| == |ops|
  {
    Ticks(ops[..p], replies[..p])
  }

  lemma TickNext(ops: seq<Op>, replies: seq<Reply>, p: nat)
    requires p < |replies| == |ops|
    ensures TickAt(ops, replies, p + 1) == TickAt(ops, replies, p) + if Accepted(ops, replies, p) then 1 else 0
  {
    assert ops[..p + 1][..p] == ops[..p] && replies[..p + 1][..p] == replies[..p];
  }

  lemma {:induction false} TicksGrow(ops: seq<Op>, replies: seq<Reply>, p: nat, q: nat)
    requires p <= q <= |replies| == |ops|
    ensures TickAt(ops, replies, p) <= TickAt(ops, replies, q)
    ensures p < q && Accepted(ops, replies, p) ==> TickAt(ops, replies, p) < TickAt(ops, replies, q)
    decreases q - p
  {
    if p < q {
      TicksGrow(ops, replies, p, q - 1);
      TickNext(ops, replies, q - 1);
    }
  }

  /** Accepted accesses are in the order of the clock. */
  lemma TicksOrder(ops: seq<Op>, replies: seq<Reply>, p: nat, q: nat)
    requires p < |replies| == |ops| && q < |ops| && Accepted(ops, replies, p) && Accepted(ops, replies, q)
    ensures TickAt(ops, replies, p) < TickAt(ops, replies, q) <==> p < q
  {
    if p < q { TicksGrow(ops, replies, p, q); } else { TicksGrow(ops, replies, q, p); }
  }

  lemma {:induction false} TimesAccepted(ops: seq<Op>, replies: seq<Reply>, f: Frame)
    requires |replies| == |ops|
    ensures forall t | t in Times(ops, replies, f) :: t < |ops| && Accepted(ops, replies, t)
    decreases |ops|
  {
    if ops != [] {
      var m := |ops| - 1;
      TimesAccepted(ops[..m], replies[..m], f);
    }
  }

  // ---------------------------------------------------------------------
  // Histories are the last k times
  // ---------------------------------------------------------------------

  function Least(a: nat, b: nat): nat { if a < b then a else b }

  ghost predicate Tracks(k: nat, s: KState, ops: seq<Op>, replies: seq<Reply>, f: Frame)
    requires |replies| == |ops|
  {
    var ts := Times(ops, replies, f);
    if f !in s.frames then ts == []
    else
      var h := s.frames[f].history;
      |h| == Least(k, |ts|) && forall j {:trigger Reads(h, ts, ops, replies, j)} | 0 <= j < |h| :: Reads(h, ts, ops, replies, j)
  }

  /** The `j`-th stored time is the clock at the `j`-th of the last times. */
  ghost predicate Reads(h: seq<nat>, ts: seq<nat>, ops: seq<Op>, replies: seq<Reply>, j: nat)
    requires |replies| == |ops| && j < |h| <= |ts|
  {
    var t := ts[|ts| - |h| + j];
    t < |ops| && h[j] == TickAt(ops, replies, t)
  }

  /** An earlier clock reading does not change. */
  lemma TickStays(ops: seq<Op>, replies: seq<Reply>, p: nat, m: nat)
    requires p <= m <= |replies| == |ops|
    ensures TickAt(ops[..m], replies[..m], p) == TickAt(ops, replies, p)
  {
    assert ops[..m][..p] == ops[..p] && replies[..m][..p] == replies[..p];
  }

  lemma TracksOther(k: nat, s: KState, s': KState, ops: seq<Op>, replies: seq<Reply>, f: Frame)
    requires ops != [] && |replies| == |ops|
    requires Tracks(k, s, ops[..|ops| - 1], replies[..|ops| - 1], f)
    requires f in s'.frames ==> s'.frames[f].history == if f in s.frames then s.frames[f].history else []
    requires f !in s'.frames ==> f !in s.frames
    requires Times(ops, replies, f) == Times(ops[..|ops| - 1], replies[..|ops| - 1], f)
    ensures Tracks(k, s', ops, replies, f)
  {
    var m := |ops| - 1;
    var ts := Times(ops, replies, f);
    if f in s.frames {
      var h := s.frames[f].history;
      forall j | 0 <= j < |h| ensures Reads(h, ts, ops, replies, j) {
        assert Reads(h, ts, ops[..m], replies[..m], j);
        TickStays(ops, replies, ts[|ts| - |h| + j], m);
      }
    }
  }

  lemma TracksAccess(k: nat, s: KState, ops: seq<Op>, replies: seq<Reply>, f: Frame)
    requires k >= 1 && ops != [] && |replies| == |ops|
    requires ops[|ops| - 1] == Access(f) && replies[|ops| - 1] == Done
    requires Tracks(k, s, ops[..|ops| - 1], replies[..|ops| - 1], f)
    requires s.now == Ticks(ops[..|ops| - 1], replies[..|ops| - 1])
    ensures Tracks(k, Accessed(s, k, f), ops, replies, f)
  {
    var m := |ops| - 1;
    var before, ts := Times(ops[..m], replies[..m], f), Times(ops, replies, f);
    var h, h' := StateOf(s, f).history, Accessed(s, k, f).frames[f].history;
    assert ts == before + [m];
    forall j | 0 <= j < |h'| ensures Reads(h', ts, ops, replies, j) {
      if j == |h'| - 1 {
        assert ts[|ts| - |h'| + j] == m && h'[j] == s.now;
      } else {
        var i := |h| + 1 - |h'| + j;
        assert h'[j] == h[i] && ts[|ts| - |h'| + j] == before[|before| - |h| + i];
        assert Reads(h, before, ops[..m], replies[..m], i);
        TickStays(ops, replies, before[|before| - |h| + i], m);
      }
    }
  }

  lemma TracksStep(k: nat, n: nat, s: KState, ops: seq<Op>, replies: seq<Reply>, f: Frame)
    requires k >= 1 && KOk(s) && ops != [] && |replies| == |ops|
    requires Tracks(k, s, ops[..|ops| - 1], replies[..|ops| - 1], f)
    requires s.now == Ticks(ops[..|ops| - 1], replies[..|ops| - 1])
    requires replies[|ops| - 1] == StepK(k, n, s, ops[|ops| - 1]).0 != Fault
    ensures Tracks(k, StepK(k, n, s, ops[|ops| - 1]).1, ops, replies, f)
  {
    var op, r := ops[|ops| - 1], replies[|ops| - 1];
    var s' := StepK(k, n, s, op).1;
    if op == Access(f) && r == Done {
      TracksAccess(k, s, ops, replies, f);
    } else if f in s.frames && f !in s'.frames {
      assert Times(ops, replies, f) == [];
    } else if op == Remove(f) && r == Done {
      assert Times(ops, replies, f) == [];
    } else {
      TracksOther(k, s, s', ops, replies, f);
    }
  }

  lemma {:induction false} RunTracks(k: nat, n: nat, ops: seq<Op>, f: Frame)
    requires k >= 1 && Fault !in RunK(k, n, ops).0
    ensures var (replies, s) := RunK(k, n, ops);
            s.now == Ticks(ops, replies) && Tracks(k, s, ops, replies, f)
    decreases |ops|
  {
    if ops != [] {
      var rest, op := ops[..|ops| - 1], ops[|ops| - 1];
      var (before, s) := RunK(k, n, rest);
      var replies := RunK(k, n, ops).0;
      RunPrefix(k, n, ops);
      assert forall r | r in before :: r in replies;
      RunTracks(k, n, rest, f);
      assert replies[..|rest|] == before && replies[|rest|] == StepK(k, n, s, op).0;
      TracksStep(k, n, s, ops, replies, f);
    }
  }

  // ---------------------------------------------------------------------
  // Replies
  // ---------------------------------------------------------------------

  /** The stored order is the order of the times. */
  lemma SameOrder(k: nat, s: KState, ops: seq<Op>, replies: seq<Reply>, f: Frame, g: Frame)
    requires k >= 1 && |replies| == |ops| && f in s.frames && g in s.frames
    requires Tracks(k, s, ops, replies, f) && Tracks(k, s, ops, replies, g)
    ensures GoesBefore(s, k, f, g) <==> GoesFirst(k, ops, replies, f, g)
  {
    var tf, tg := Times(ops, replies, f), Times(ops, replies, g);
    if tf != [] && tg != [] {
      var p, q := tf[|tf| - Least(k, |tf|)], tg[|tg| - Least(k, |tg|)];
      assert p in tf && q in tg;
      TimesAccepted(ops, replies, f);
      TimesAccepted(ops, replies, g);
      TicksOrder(ops, replies, p, q);
      assert Reads(s.frames[f].history, tf, ops, replies, 0) && Reads(s.frames[g].history, tg, ops, replies, 0);
    }
  }

  lemma CandidateIs(k: nat, n: nat, ops: seq<Op>, f: Frame)
    requires k >= 1 && Fault !in RunK(k, n, ops).0
    ensures var (replies, s) := RunK(k, n, ops);
            && (Candidate(s, f) <==> Evictable(ops, replies, f))
            && (f in s.frames ==> (s.frames[f].history == [] <==> Times(ops, replies, f) == []))
            && Tracks(k, s, ops, replies, f)
  {
    KnowsRight(k, n, ops, f);
    RunTracks(k, n, ops, f);
  }

  lemma VictimIs(k: nat, n: nat, ops: seq<Op>, f: Frame)
    requires k >= 1 && Fault !in RunK(k, n, ops).0
    ensures IsVictim(RunK(k, n, ops).1, k, f) <==> FirstOut(k, ops, RunK(k, n, ops).0, f)
  {
    var (replies, s) := RunK(k, n, ops);
    CandidateIs(k, n, ops, f);
    forall g ensures Candidate(s, g) <==> Evictable(ops, replies, g) { CandidateIs(k, n, ops, g); }
    if Candidate(s, f) {
      forall g | Candidate(s, g) ensures GoesBefore(s, k, f, g) <==> GoesFirst(k, ops, replies, f, g) {
        CandidateIs(k, n, ops, g);
        SameOrder(k, s, ops, replies, f, g);
      }
    }
  }

  lemma EvictReply(k: nat, n: nat, ops: seq<Op>)
    requires k >= 1 && Fault !in RunK(k, n, ops).0
    ensures RightReply(k, n, ops, RunK(k, n, ops).0, Evict, EvictK(k, RunK(k, n, ops).1).0)
  {
    var (replies, s) := RunK(k, n, ops);
    var r := EvictK(k, s).0;
    forall f ensures Candidate(s, f) <==> Evictable(ops, replies, f) { CandidateIs(k, n, ops, f); }
    if r == Fault {
      var f :| Unread(s, f);
      CandidateIs(k, n, ops, f);
      assert Evictable(ops, replies, f) && Times(ops, replies, f) == [];
    } else if r.frame.Some? {
      VictimIs(k, n, ops, r.frame.value);
    } else {
      forall f ensures !Evictable(ops, replies, f) { assert !Candidate(s, f); }
    }
  }

  /** Over every run, for every k: each reply of LRU-K is the one its calls and replies so
      far call for. */
  lemma LruKReplies(k: nat, n: nat, ops: seq<Op>, op: Op)
    requires k >= 1 && Fault !in RunK(k, n, ops).0
    ensures var replies := RunK(k, n, ops).0;
            exists r :: RunK(k, n, ops + [op]).0 == replies + [r] && RightReply(k, n, ops, replies, op, r)
  {
    var (replies, s) := RunK(k, n, ops);
    RunNext(k, n, ops, op);
    var r := StepK(k, n, s, op).0;
    match op {
      case Evict => EvictReply(k, n, ops);
      case Remove(f) => CandidateIs(k, n, ops, f); KnowsRight(k, n, ops, f);
      case _ =>
    }
    assert RunK(k, n, ops + [op]).0 == replies + [r] && RightReply(k, n, ops, replies, op, r);
  }

  /** At most one reply is right. */
  lemma OneRightReply(k: nat, n: nat, ops: seq<Op>, op: Op, r: Reply, r': Reply)
    requires k >= 1 && Fault !in RunK(k, n, ops).0
    requires RightReply(k, n, ops, RunK(k, n, ops).0, op, r) && RightReply(k, n, ops, RunK(k, n, ops).0, op, r')
    ensures r == r'
  {
    var (replies, s) := RunK(k, n, ops);
    if op.Evict? && r.Victim? && r.frame.Some? && r'.Victim? && r'.frame.Some? {
      VictimIs(k, n, ops, r.frame.value);
      VictimIs(k, n, ops, r'.frame.value);
      VictimIsUnique(s, k, r.frame.value, r'.frame.value);
    }
  }

  // ---------------------------------------------------------------------
  // LRU
  // ---------------------------------------------------------------------

  /** The call that last made `f` the most recently used: its last access, or, if it has
      had none since it was last dropped, the first mark since then. */
  function Since(ops: seq<Op>, replies: seq<Reply>, f: Frame): (t: Option<nat>)
    requires |replies| == |ops|
    ensures t.Some? ==> t.value < |ops|
  {
    if ops == [] then None
    else
      var m := |ops| - 1;
      var t := Since(ops[..m], replies[..m], f);
      match ops[m]
      case Access(g) => if g == f && replies[m] == Done then Some(m) else t
      case Mark(g, _) => if g == f && t.None? then Some(m) else t
      case Evict => if replies[m] == Victim(Some(f)) then None else t
      case Remove(g) => if g == f && replies[m] == Done then None else t
  }

  predicate LessRecent(ops: seq<Op>, replies: seq<Reply>, f: Frame, g: Frame)
    requires |replies| == |ops|
  {
    var tf, tg := Since(ops, replies, f), Since(ops, replies, g);
    tf.Some? && tg.Some? && tf.value < tg.value
  }

  ghost predicate LeastRecent(ops: seq<Op>, replies: seq<Reply>, f: Frame)
    requires |replies| == |ops|
  {
    && Evictable(ops, replies, f)
    && forall g {:trigger Evictable(ops, replies, g)} | Evictable(ops, replies, g) && g != f :: LessRecent(ops, replies, f, g)
  }

  /** LRU's reply to the next call, from the calls and replies so far. */
  ghost predicate RightReplyL(n: nat, ops: seq<Op>, replies: seq<Reply>, op: Op, r: Reply)
    requires |replies| == |ops|
  {
    match op
    case Access(f) => r == if 0 <= f < n then Done else Refused
    case Mark(_, _) => r == Done
    case Remove(f) =>
      r == if Knows(ops, replies, f).Untracked? || Evictable(ops, replies, f) then Done else Refused
    case Evict =>
      match r
      case Victim(None) => forall f :: !Evictable(ops, replies, f)
      case Victim(Some(f)) => LeastRecent(ops, replies, f)
      case _ => false
  }

  /** The list holds the frames that are tracked, with their flags. */
  ghost predicate Placed(s: LState, ops: seq<Op>, replies: seq<Reply>, f: Frame)
    requires |replies| == |ops|
  {
    && (f in s.evictable <==> Since(ops, replies, f).Some?)
    && (f in s.evictable <==> !Knows(ops, replies, f).Untracked?)
    && (CandidateL(s, f) <==> Evictable(ops, replies, f))
  }

  /** And it holds them in order of their last use. */
  ghost predicate Listed(s: LState, ops: seq<Op>, replies: seq<Reply>)
    requires |replies| == |ops|
  {
    LOk(s) && forall i, j | 0 <= i < j < |s.order| :: LessRecent(ops, replies, s.order[i], s.order[j])
  }

  lemma PlacedStep(n: nat, s: LState, ops: seq<Op>, replies: seq<Reply>, f: Frame)
    requires ops != [] && |replies| == |ops| && replies[|ops| - 1] == StepL(n, s, ops[|ops| - 1]).0
    requires LOk(s) && Placed(s, ops[..|ops| - 1], replies[..|ops| - 1], f)
    ensures Placed(StepL(n, s, ops[|ops| - 1]).1, ops, replies, f)
  {
  }

  lemma ListedTouched(s: LState, ops: seq<Op>, replies: seq<Reply>, f: Frame)
    requires ops != [] && |replies| == |ops| && ops[|ops| - 1] == Access(f) && replies[|ops| - 1] == Done
    requires Listed(s, ops[..|ops| - 1], replies[..|ops| - 1])
    requires forall g | g in s.order :: Since(ops[..|ops| - 1], replies[..|ops| - 1], g).Some?
    ensures Listed(Touched(s, f), ops, replies)
  {
    LOkTouched(s, f);
    WithoutIs(s.order, f);
    var rest, order := Without(s.order, f), Touched(s, f).order;
    forall i, j | 0 <= i < j < |order| ensures LessRecent(ops, replies, order[i], order[j]) {
      assert order[i] == rest[i] && rest[i] in rest;
      if j < |rest| {
        assert order[j] == rest[j] && rest[j] in rest;
        var p, q := PlaceBefore(s.order, f, i, j);
        assert LessRecent(ops[..|ops| - 1], replies[..|ops| - 1], s.order[p], s.order[q]);
      }
    }
  }

  lemma ListedMarked(s: LState, ops: seq<Op>, replies: seq<Reply>, f: Frame, e: bool)
    requires ops != [] && |replies| == |ops| && ops[|ops| - 1] == Mark(f, e)
    requires Listed(s, ops[..|ops| - 1], replies[..|ops| - 1])
    requires forall g :: g in s.evictable <==> Since(ops[..|ops| - 1], replies[..|ops| - 1], g).Some?
    ensures Listed(MarkedL(s, f, e), ops, replies)
  {
    var order := MarkedL(s, f, e).order;
    assert f !in s.evictable ==> f !in s.order;
    forall g ensures g in order <==> g in MarkedL(s, f, e).evictable { assert g in s.order <==> g in s.evictable; }
    forall i, j | 0 <= i < j < |order| ensures LessRecent(ops, replies, order[i], order[j]) {
      assert order[i] == s.order[i] && s.order[i] in s.order;
      if j < |s.order| {
        assert s.order[j] in s.order;
        assert LessRecent(ops[..|ops| - 1], replies[..|ops| - 1], s.order[i], s.order[j]);
      }
    }
  }

  lemma ListedDropped(s: LState, ops: seq<Op>, replies: seq<Reply>, f: Frame)
    requires ops != [] && |replies| == |ops| && Listed(s, ops[..|ops| - 1], replies[..|ops| - 1])
    requires forall g | g in s.order && g != f :: Since(ops, replies, g) == Since(ops[..|ops| - 1], replies[..|ops| - 1], g)
    ensures Listed(DroppedL(s, f), ops, replies)
  {
    LOkDropped(s, f);
    WithoutIs(s.order, f);
    var order := Without(s.order, f);
    forall i, j | 0 <= i < j < |order| ensures LessRecent(ops, replies, order[i], order[j]) {
      assert order[i] in order && order[j] in order;
      var p, q := PlaceBefore(s.order, f, i, j);
      assert LessRecent(ops[..|ops| - 1], replies[..|ops| - 1], s.order[p], s.order[q]);
    }
  }

  lemma ListedSame(s: LState, ops: seq<Op>, replies: seq<Reply>)
    requires ops != [] && |replies| == |ops| && Listed(s, ops[..|ops| - 1], replies[..|ops| - 1])
    requires forall g | g in s.order :: Since(ops, replies, g) == Since(ops[..|ops| - 1], replies[..|ops| - 1], g)
    ensures Listed(s, ops, replies)
  {
    forall i, j | 0 <= i < j < |s.order| ensures LessRecent(ops, replies, s.order[i], s.order[j]) {
      assert s.order[i] in s.order && s.order[j] in s.order;
      assert LessRecent(ops[..|ops| - 1], replies[..|ops| - 1], s.order[i], s.order[j]);
    }
  }

  lemma ListedStep(n: nat, s: LState, ops: seq<Op>, replies: seq<Reply>)
    requires ops != [] && |replies| == |ops| && replies[|ops| - 1] == StepL(n, s, ops[|ops| - 1]).0
    requires Listed(s, ops[..|ops| - 1], replies[..|ops| - 1])
    requires forall g :: g in s.evictable <==> Since(ops[..|ops| - 1], replies[..|ops| - 1], g).Some?
    ensures Listed(StepL(n, s, ops[|ops| - 1]).1, ops, replies)
  {
    var r := replies[|ops| - 1];
    match ops[|ops| - 1] {
      case Access(f) => if r == Done { ListedTouched(s, ops, replies, f); } else { ListedSame(s, ops, replies); }
      case Mark(f, e) => ListedMarked(s, ops, replies, f, e);
      case Evict =>
        if r.frame.Some? { ListedDropped(s, ops, replies, r.frame.value); } else { ListedSame(s, ops, replies); }
      case Remove(f) => if r == Done { ListedDropped(s, ops, replies, f); } else { ListedSame(s, ops, replies); }
    }
  }

  lemma {:induction false} RunListed(n: nat, ops: seq<Op>)
    ensures var (replies, s) := RunL(n, ops);
            Listed(s, ops, replies) && forall f :: Placed(s, ops, replies, f)
    decreases |ops|
  {
    if ops != [] {
      var rest, op := ops[..|ops| - 1], ops[|ops| - 1];
      var (before, s) := RunL(n, rest);
      var (replies, s') := RunL(n, ops);
      RunListed(n, rest);
      assert replies[..|rest|] == before && replies[|rest|] == StepL(n, s, op).0;
      forall f ensures Placed(s', ops, replies, f) {
        assert Placed(s, rest, before, f);
        PlacedStep(n, s, ops, replies, f);
      }
      forall g ensures g in s.evictable <==> Since(rest, before, g).Some? { assert Placed(s, rest, before, g); }
      ListedStep(n, s, ops, replies);
    }
  }

  lemma VictimIsLeastRecent(n: nat, ops: seq<Op>, f: Frame)
    requires IsVictimL(RunL(n, ops).1, f)
    ensures LeastRecent(ops, RunL(n, ops).0, f)
  {
    var (replies, s) := RunL(n, ops);
    RunListed(n, ops);
    assert Placed(s, ops, replies, f);
    var i :| 0 <= i < |s.order| && s.order[i] == f && CandidateL(s, f) && forall j | 0 <= j < i :: !CandidateL(s, s.order[j]);
    forall g | Evictable(ops, replies, g) && g != f ensures LessRecent(ops, replies, f, g) {
      assert Placed(s, ops, replies, g);
      assert g in s.order;
      var j :| 0 <= j < |s.order| && s.order[j] == g;
      assert i < j;
    }
  }

  /** Over every run each reply of LRU is the one its calls and replies so far call for. */
  lemma LruReplies(n: nat, ops: seq<Op>, op: Op)
    ensures var replies := RunL(n, ops).0;
            exists r :: RunL(n, ops + [op]).0 == replies + [r] && RightReplyL(n, ops, replies, op, r)
  {
    var (replies, s) := RunL(n, ops);
    RunListed(n, ops);
    DropLast(ops, op);
    var r := StepL(n, s, op).0;
    match op {
      case Evict =>
        if r.frame.Some? {
          VictimIsLeastRecent(n, ops, r.frame.value);
        } else {
          forall f ensures !Evictable(ops, replies, f) {
            assert Placed(s, ops, replies, f);
            if CandidateL(s, f) { VictimInList(s, f); }
          }
        }
      case Remove(f) => assert Placed(s, ops, replies, f);
      case _ =>
    }
    assert RunL(n, ops + [op]).0 == replies + [r] && RightReplyL(n, ops, replies, op, r);
  }

  /** At most one reply is right. */
  lemma OneRightReplyL(n: nat, ops: seq<Op>, replies: seq<Reply>, op: Op, r: Reply, r': Reply)
    requires |replies| == |ops| && RightReplyL(n, ops, replies, op, r) && RightReplyL(n, ops, replies, op, r')
    ensures r == r'
  {
  }
}

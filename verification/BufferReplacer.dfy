/**
 Choosing a victim among evictable frames: LRU-K, which evicts the frame whose k-th
 most recent access is longest ago, frames with fewer than k accesses first, and
 plain LRU. The LRU-K victim does not depend on the order in which frames are
 looked at, and with k = 1 it is the LRU victim, over whole runs, up to the point
 where LRU-K reads the oldest entry of a history that has none.
 */
module BufferReplacer {
  import opened Common

  type Frame = int

  // ---------------------------------------------------------------------
  // LRU-K
  // ---------------------------------------------------------------------

  /** The times of the last k accesses, oldest first. */
  datatype FrameState = FrameState(history: seq<nat>, evictable: bool)

  datatype KState = KState(frames: map<Frame, FrameState>, now: nat)

  const InitialK: KState := KState(map[], 0)

  function StateOf(s: KState, f: Frame): FrameState {
    if f in s.frames then s.frames[f] else FrameState([], false)
  }

  function Remembered(history: seq<nat>, now: nat, k: nat): seq<nat>
    requires k >= 1
  {
    var h := history + [now];
    if |h| > k then h[1..] else h
  }

  function Accessed(s: KState, k: nat, f: Frame): KState
    requires k >= 1
  {
    var st := StateOf(s, f);
    KState(s.frames[f := st.(history := Remembered(st.history, s.now, k))], s.now + 1)
  }

  function Marked(s: KState, f: Frame, evictable: bool): KState {
    s.(frames := s.frames[f := StateOf(s, f).(evictable := evictable)])
  }

  function Dropped(s: KState, f: Frame): KState {
    s.(frames := s.frames - {f})
  }

  predicate Candidate(s: KState, f: Frame) {
    f in s.frames && s.frames[f].evictable
  }

  /** `a` is evicted before `b`. */
  predicate Ahead(k: nat, a: FrameState, b: FrameState)
    requires a.history != [] && b.history != []
  {
    if (|a.history| < k) != (|b.history| < k) then |a.history| < k else a.history[0] < b.history[0]
  }

  /** Accesses have distinct times, all in the past. */
  ghost predicate Timed(s: KState, f: Frame)
    requires f in s.frames
  {
    var h := s.frames[f].history;
    && (forall i | 0 <= i < |h| :: h[i] < s.now)
    && forall i, j | 0 <= i < j < |h| :: h[i] < h[j]
  }

  ghost predicate Apart(s: KState, f: Frame, g: Frame)
    requires f in s.frames && g in s.frames
  {
    forall i, j | 0 <= i < |s.frames[f].history| && 0 <= j < |s.frames[g].history| ::
      s.frames[f].history[i] != s.frames[g].history[j]
  }

  ghost predicate KOk(s: KState) {
    && (forall f {:trigger Timed(s, f)} | f in s.frames :: Timed(s, f))
    && (forall f, g {:trigger Apart(s, f, g)} | f in s.frames && g in s.frames && f != g :: Apart(s, f, g))
  }

  /** A candidate that has never been accessed. */
  predicate Unread(s: KState, f: Frame) {
    Candidate(s, f) && s.frames[f].history == []
  }

  predicate GoesBefore(s: KState, k: nat, f: Frame, g: Frame) {
    && f in s.frames && g in s.frames && s.frames[f].history != [] && s.frames[g].history != []
    && Ahead(k, s.frames[f], s.frames[g])
  }

  /** The candidate that is evicted before all others. */
  ghost predicate IsVictim(s: KState, k: nat, f: Frame) {
    && Candidate(s, f) && s.frames[f].history != []
    && forall g {:trigger Candidate(s, g)} | Candidate(s, g) && g != f :: GoesBefore(s, k, f, g)
  }

  /** There is one victim at most. */
  lemma VictimIsUnique(s: KState, k: nat, f: Frame, g: Frame)
    requires IsVictim(s, k, f) && IsVictim(s, k, g)
    ensures f == g
  {
    assert Candidate(s, f) && Candidate(s, g);
  }

  /** The first to go of some candidates. */
  lemma {:induction false} FirstAmong(s: KState, k: nat, some: set<Frame>) returns (f: Frame)
    requires KOk(s) && some != {} && forall g | g in some :: Candidate(s, g) && !Unread(s, g)
    ensures f in some && forall g | g in some && g != f :: GoesBefore(s, k, f, g)
    decreases some
  {
    var c := Member(some);
    var rest := some - {c};
    f := c;
    if rest == {} {
      assert some == {c};
    } else {
      var d := FirstAmong(s, k, rest);
      assert Apart(s, c, d) && Candidate(s, c) && !Unread(s, c) && !Unread(s, d);
      f := if GoesBefore(s, k, d, c) then d else c;
      forall g | g in some && g != f ensures GoesBefore(s, k, f, g) {
        if g != c && g != d { assert GoesBefore(s, k, d, g); }
      }
    }
  }

  /** There is one, if there are candidates and none is unread. */
  lemma VictimExists(s: KState, k: nat, c: Frame)
    requires KOk(s) && Candidate(s, c) && forall f :: !Unread(s, f)
    ensures exists f :: IsVictim(s, k, f)
  {
    var some := set f | f in s.frames && s.frames[f].evictable;
    assert c in some;
    forall g | g in some ensures Candidate(s, g) && !Unread(s, g) { }
    var f := FirstAmong(s, k, some);
    assert !Unread(s, f);
    forall g | Candidate(s, g) && g != f ensures GoesBefore(s, k, f, g) {
      assert g in some;
    }
    assert IsVictim(s, k, f);
  }

  lemma KOkAccessed(s: KState, k: nat, f: Frame)
    requires KOk(s) && k >= 1
    ensures KOk(Accessed(s, k, f))
  {
    var s' := Accessed(s, k, f);
    forall g | g in s'.frames ensures Timed(s', g) {
      if g in s.frames { assert Timed(s, g); }
    }
    forall g, h | g in s'.frames && h in s'.frames && g != h ensures Apart(s', g, h) {
      ApartAccessed(s, k, f, g, h);
    }
  }

  lemma ApartAccessed(s: KState, k: nat, f: Frame, g: Frame, h: Frame)
    requires KOk(s) && k >= 1 && g in Accessed(s, k, f).frames && h in Accessed(s, k, f).frames && g != h
    ensures Apart(Accessed(s, k, f), g, h)
  {
    if g in s.frames && h in s.frames { assert Apart(s, g, h); }
    if g in s.frames { assert Timed(s, g); }
    if h in s.frames { assert Timed(s, h); }
  }

  lemma KOkMarked(s: KState, f: Frame, evictable: bool)
    requires KOk(s)
    ensures KOk(Marked(s, f, evictable))
  {
    var s' := Marked(s, f, evictable);
    forall g | g in s'.frames ensures Timed(s', g) {
      if g in s.frames { assert Timed(s, g); }
    }
    forall g, h | g in s'.frames && h in s'.frames && g != h ensures Apart(s', g, h) {
      if g in s.frames && h in s.frames { assert Apart(s, g, h); }
    }
  }

  lemma KOkDropped(s: KState, f: Frame)
    requires KOk(s)
    ensures KOk(Dropped(s, f))
  {
    var s' := Dropped(s, f);
    forall g | g in s'.frames ensures Timed(s', g) { assert Timed(s, g); }
    forall g, h | g in s'.frames && h in s'.frames && g != h ensures Apart(s', g, h) { assert Apart(s, g, h); }
  }

  // ---------------------------------------------------------------------
  // Calls and runs
  // ---------------------------------------------------------------------

  datatype Op = Access(frame: Frame) | Mark(frame: Frame, evictable: bool) | Evict | Remove(frame: Frame)

  /** `Fault`: the oldest entry of an empty history is read, and the run is over. */
  datatype Reply = Done | Victim(frame: Option<Frame>) | Refused | Fault

  /** One call of LRU-K over frames 0 to n - 1. */
  ghost function StepK(k: nat, n: nat, s: KState, op: Op): (Reply, KState)
    requires k >= 1 && KOk(s)
  {
    match op
    case Access(f) => if 0 <= f < n then (Done, Accessed(s, k, f)) else (Refused, s)
    case Mark(f, e) => (Done, Marked(s, f, e))
    case Evict => EvictK(k, s)
    case Remove(f) => if f in s.frames && !s.frames[f].evictable then (Refused, s) else (Done, Dropped(s, f))
  }

  ghost function EvictK(k: nat, s: KState): (Reply, KState)
    requires k >= 1 && KOk(s)
  {
    if exists f :: Unread(s, f) then (Fault, s)
    else if c: Frame :| Candidate(s, c) then
      VictimExists(s, k, c);
      var f :| IsVictim(s, k, f);
      (Victim(Some(f)), Dropped(s, f))
    else (Victim(None), s)
  }

  lemma KOkStep(k: nat, n: nat, s: KState, op: Op)
    requires k >= 1 && KOk(s)
    ensures KOk(StepK(k, n, s, op).1)
  {
    match op {
      case Access(f) => KOkAccessed(s, k, f);
      case Mark(f, e) => KOkMarked(s, f, e);
      case Evict => if EvictK(k, s).0.Victim? && EvictK(k, s).0.frame.Some? { KOkDropped(s, EvictK(k, s).0.frame.value); }
      case Remove(f) => KOkDropped(s, f);
    }
  }

  /** A run from the beginning: the replies, up to the fault if there is one, and the
      state it ends in. */
  ghost function RunK(k: nat, n: nat, ops: seq<Op>): (r: (seq<Reply>, KState))
    requires k >= 1
    ensures KOk(r.1) && |r.0| <= |ops| && (|r.0| < |ops| ==> Fault in r.0)
  {
    if ops == [] then ([], InitialK)
    else
      var (replies, s) := RunK(k, n, ops[..|ops| - 1]);
      if Fault in replies then (replies, s)
      else
        KOkStep(k, n, s, ops[|ops| - 1]);
        var (r, s') := StepK(k, n, s, ops[|ops| - 1]);
        (replies + [r], s')
  }

  // ---------------------------------------------------------------------
  // When LRU-K faults
  // ---------------------------------------------------------------------

  /** What a caller knows of a frame from its calls and their replies: it is not tracked,
      it was marked while it was not tracked and has not been accessed since, or it has
      been accessed; and how it was last marked. */
  datatype Standing = Untracked | OnlyMarked(evictable: bool) | WasAccessed(evictable: bool)

  /** What the reply to one call tells about frame `f`. */
  function Learns(w: Standing, op: Op, r: Reply, f: Frame): Standing {
    match op
    case Access(g) => if g != f || r != Done then w else WasAccessed(if w.Untracked? then false else w.evictable)
    case Mark(g, e) => if g != f then w else if w.WasAccessed? then WasAccessed(e) else OnlyMarked(e)
    case Evict => if r == Victim(Some(f)) then Untracked else w
    case Remove(g) => if g == f && r == Done then Untracked else w
  }

  function Knows(ops: seq<Op>, replies: seq<Reply>, f: Frame): Standing
    requires |replies| == |ops|
  {
    if ops == [] then Untracked
    else
      var m := |ops| - 1;
      Learns(Knows(ops[..m], replies[..m], f), ops[m], replies[m], f)
  }

  function StandingIn(s: KState, f: Frame): Standing {
    if f !in s.frames then Untracked
    else if s.frames[f].history == [] then OnlyMarked(s.frames[f].evictable)
    else WasAccessed(s.frames[f].evictable)
  }

  lemma LearnsRight(k: nat, n: nat, s: KState, op: Op, f: Frame)
    requires k >= 1 && KOk(s) && StepK(k, n, s, op).0 != Fault
    ensures Learns(StandingIn(s, f), op, StepK(k, n, s, op).0, f) == StandingIn(StepK(k, n, s, op).1, f)
  {
  }

  /** What the caller knows is how it is. */
  lemma {:induction false} KnowsRight(k: nat, n: nat, ops: seq<Op>, f: Frame)
    requires k >= 1 && Fault !in RunK(k, n, ops).0
    ensures Knows(ops, RunK(k, n, ops).0, f) == StandingIn(RunK(k, n, ops).1, f)
    decreases |ops|
  {
    if ops != [] {
      var m := |ops| - 1;
      var (replies, s) := RunK(k, n, ops[..m]);
      assert RunK(k, n, ops).0[..|replies|] == replies;
      assert forall r | r in replies :: r in RunK(k, n, ops).0;
      KnowsRight(k, n, ops[..m], f);
      assert RunK(k, n, ops).0[m] == StepK(k, n, s, ops[m]).0;
      LearnsRight(k, n, s, ops[m], f);
    }
  }

  /** Marked while it was not tracked, not accessed since, and evictable. */
  predicate Loose(ops: seq<Op>, replies: seq<Reply>, f: Frame)
    requires |replies| == |ops|
  {
    Knows(ops, replies, f) == OnlyMarked(true)
  }

  lemma RunNext(k: nat, n: nat, ops: seq<Op>, op: Op)
    requires k >= 1 && Fault !in RunK(k, n, ops).0
    ensures var (replies, s) := RunK(k, n, ops);
            var (r, s') := StepK(k, n, s, op);
            RunK(k, n, ops + [op]) == (replies + [r], s')
  {
    DropLast(ops, op);
  }

  /** The next call faults if and only if it is an eviction and some frame was marked
      while it was not tracked, has not been accessed since, and is evictable. */
  lemma FaultsIff(k: nat, n: nat, ops: seq<Op>, op: Op)
    requires k >= 1 && Fault !in RunK(k, n, ops).0
    ensures Fault in RunK(k, n, ops + [op]).0 <==> op.Evict? && exists f :: Loose(ops, RunK(k, n, ops).0, f)
  {
    RunNext(k, n, ops, op);
    var (replies, s) := RunK(k, n, ops);
    forall f ensures Unread(s, f) <==> Loose(ops, replies, f) {
      KnowsRight(k, n, ops, f);
    }
    assert StepK(k, n, s, op).0 == Fault <==> op.Evict? && exists f :: Unread(s, f);
    assert Fault in replies + [StepK(k, n, s, op).0] <==> StepK(k, n, s, op).0 == Fault;
  }

  /** Two calls are enough, whatever k is. */
  lemma MarkedThenEvictedFaults(k: nat, n: nat, f: Frame)
    requires k >= 1
    ensures RunK(k, n, [Mark(f, true), Evict]).0 == [Done, Fault]
  {
    var a, b := Mark(f, true), Evict;
    assert [] + [a] == [a] && [a] + [b] == [a, b];
    RunNext(k, n, [], a);
    RunNext(k, n, [a], b);
    assert Unread(Marked(InitialK, f, true), f);
  }

  /** By the calls made and the replies received, a frame is tracked whenever it is
      marked: it is accessed first. */
  ghost predicate AccessFirst(ops: seq<Op>, replies: seq<Reply>)
    requires |replies| <= |ops|
  {
    forall i {:trigger MarksTracked(ops, replies, i)} | 0 <= i < |replies| :: MarksTracked(ops, replies, i)
  }

  predicate MarksTracked(ops: seq<Op>, replies: seq<Reply>, i: nat)
    requires i < |replies| <= |ops|
  {
    ops[i].Mark? ==> !Knows(ops[..i], replies[..i], ops[i].frame).Untracked?
  }

  lemma AccessFirstBefore(ops: seq<Op>, replies: seq<Reply>, m: nat, n: nat)
    requires n <= m <= |ops| && n <= |replies| <= |ops| && AccessFirst(ops, replies)
    ensures AccessFirst(ops[..m], replies[..n])
  {
    forall i | 0 <= i < n ensures MarksTracked(ops[..m], replies[..n], i) {
      assert MarksTracked(ops, replies, i);
      assert ops[..m][..i] == ops[..i] && replies[..n][..i] == replies[..i];
    }
  }

  lemma RunPrefix(k: nat, n: nat, ops: seq<Op>)
    requires k >= 1 && ops != []
    ensures RunK(k, n, ops[..|ops| - 1]).0 <= RunK(k, n, ops).0
  {
  }

  /** Whoever keeps to that never sees a fault. */
  lemma {:induction false} AccessFirstNeverFaults(k: nat, n: nat, ops: seq<Op>)
    requires k >= 1 && AccessFirst(ops, RunK(k, n, ops).0)
    ensures Fault !in RunK(k, n, ops).0
    ensures forall f :: !Knows(ops, RunK(k, n, ops).0, f).OnlyMarked?
    decreases |ops|
  {
    if ops != [] {
      var m := |ops| - 1;
      var rest, op := ops[..m], ops[m];
      assert rest + [op] == ops;
      var before, all := RunK(k, n, rest).0, RunK(k, n, ops).0;
      RunPrefix(k, n, ops);
      AccessFirstBefore(ops, all, m, |before|);
      assert all[..|before|] == before;
      AccessFirstNeverFaults(k, n, rest);
      FaultsIff(k, n, rest, op);
      assert MarksTracked(ops, all, m);
      forall f ensures !Knows(ops, all, f).OnlyMarked? {
        assert !Knows(rest, before, f).OnlyMarked?;
      }
    }
  }

  lemma EvictsThe(s: KState, k: nat, f: Frame)
    requires k >= 1 && KOk(s) && IsVictim(s, k, f) && forall g :: !Unread(s, g)
    ensures EvictK(k, s) == (Victim(Some(f)), Dropped(s, f))
  {
    assert Candidate(s, f);
    var g := EvictK(k, s).0.frame.value;
    VictimIsUnique(s, k, f, g);
  }

  class LRUKReplacer {
    var frames: map<Frame, FrameState>
    var now: nat
    const size: nat
    const k: nat

    ghost function Abs(): KState
      reads this
    {
      KState(frames, now)
    }

    ghost predicate Valid()
      reads this
    {
      k >= 1 && KOk(Abs())
    }

    constructor (size: nat, k: nat)
      requires k >= 1
      ensures Valid() && Abs() == InitialK && this.size == size && this.k == k
    {
      this.size, this.k := size, k;
      frames, now := map[], 0;
    }

    /** Refuses a frame number out of range. */
    method RecordAccess(f: Frame) returns (ok: bool)
      requires Valid()
      modifies this
      ensures Valid() && (ok <==> 0 <= f < size)
      ensures Abs() == if ok then Accessed(old(Abs()), k, f) else old(Abs())
    {
      if f < 0 || f >= size {
        return false;
      }
      KOkAccessed(Abs(), k, f);
      var st := if f in frames then frames[f] else FrameState([], false);
      var h := st.history + [now];
      if |h| > k {
        h := h[1..];
      }
      frames := frames[f := st.(history := h)];
      now := now + 1;
      ok := true;
    }

    /** A frame it does not know is from now on tracked, with an empty history. */
    method SetEvictable(f: Frame, evictable: bool)
      requires Valid()
      modifies this
      ensures Valid() && Abs() == Marked(old(Abs()), f, evictable)
    {
      KOkMarked(Abs(), f, evictable);
      ghost var after := Marked(Abs(), f, evictable).frames;
      if f !in frames {
        frames := frames[f := FrameState([], false)];
      }
      frames := frames[f := frames[f].(evictable := evictable)];
      assert frames == after;
    }

    /** Looks at the frames in any order. */
    method Evict() returns (r: Reply)
      requires Valid()
      modifies this
      ensures Valid() && (r == Fault || r.Victim?)
      ensures r == Fault <==> exists f :: Unread(old(Abs()), f)
      ensures r == Victim(None) ==> forall f :: !Candidate(old(Abs()), f)
      ensures r.Victim? && r.frame.Some? ==>
                IsVictim(old(Abs()), k, r.frame.value) && Abs() == Dropped(old(Abs()), r.frame.value)
      ensures !(r.Victim? && r.frame.Some?) ==> Abs() == old(Abs())
      ensures StepK(k, size, old(Abs()), Op.Evict) == (r, Abs())
    {
      ghost var s := Abs();
      var victim: Option<Frame> := None;
      var bestInf, bestMetric := false, 0;
      var rest := frames.Keys;
      while rest != {}
        invariant Abs() == s && rest <= frames.Keys
        invariant forall g | g in frames && g !in rest :: !Unread(s, g)
        invariant victim.None? ==> forall g | g in frames && g !in rest :: !frames[g].evictable
        invariant victim.Some? ==> && Candidate(s, victim.value) && victim.value !in rest
                                   && Ranked(frames[victim.value], bestInf, bestMetric)
        invariant victim.Some? ==> forall g {:trigger Candidate(s, g)} | Candidate(s, g) && g !in rest && g != victim.value ::
                                     GoesBefore(s, k, victim.value, g)
        decreases rest
      {
        ghost var one := Member(rest);
        var f :| f in rest;
        rest := rest - {f};
        if frames[f].evictable {
          if frames[f].history == [] {
            assert Unread(s, f);
            return Fault;
          }
          assert Timed(s, f);
          var inf := |frames[f].history| < k;
          var metric: nat := if inf then frames[f].history[0] else now - frames[f].history[0];
          var adopt := if victim.None? then true
                       else if inf != bestInf then inf
                       else if inf then metric < bestMetric
                       else metric > bestMetric;
          if victim.Some? { assert Apart(s, f, victim.value) && Candidate(s, victim.value); }
          if adopt {
            victim, bestInf, bestMetric := Some(f), inf, metric;
          }
        }
      }
      assert forall g :: !Unread(s, g);
      if victim.Some? {
        assert IsVictim(s, k, victim.value);
        EvictsThe(s, k, victim.value);
        KOkDropped(s, victim.value);
        frames := frames - {victim.value};
      } else {
        forall f ensures !Candidate(s, f) { }
      }
      r := Victim(victim);
    }

    predicate Ranked(st: FrameState, inf: bool, metric: int)
      reads this
    {
      && st.history != [] && (inf <==> |st.history| < k)
      && metric == if inf then st.history[0] else now - st.history[0]
    }

    /** Refuses a frame that is not evictable. */
    method Remove(f: Frame) returns (ok: bool)
      requires Valid()
      modifies this
      ensures Valid() && (ok <==> f in old(frames) ==> old(frames)[f].evictable)
      ensures Abs() == if ok then Dropped(old(Abs()), f) else old(Abs())
    {
      if f !in frames {
        assert frames - {f} == frames;
        return true;
      }
      if !frames[f].evictable {
        return false;
      }
      KOkDropped(Abs(), f);
      frames := frames - {f};
      ok := true;
    }
  }

  // ---------------------------------------------------------------------
  // LRU
  // ---------------------------------------------------------------------

  /** Frames from least to most recently used. */
  datatype LState = LState(order: seq<Frame>, evictable: map<Frame, bool>)

  const InitialL: LState := LState([], map[])

  /** The list without a frame. */
  function Without(order: seq<Frame>, f: Frame): seq<Frame> {
    if order == [] then [] else (if order[0] == f then [] else [order[0]]) + Without(order[1..], f)
  }

  function Touched(s: LState, f: Frame): LState {
    LState(Without(s.order, f) + [f], if f in s.evictable then s.evictable else s.evictable[f := false])
  }

  function MarkedL(s: LState, f: Frame, evictable: bool): LState {
    LState(if f in s.evictable then s.order else s.order + [f], s.evictable[f := evictable])
  }

  function DroppedL(s: LState, f: Frame): LState {
    LState(Without(s.order, f), s.evictable - {f})
  }

  predicate CandidateL(s: LState, f: Frame) {
    f in s.evictable && s.evictable[f]
  }

  ghost predicate LOk(s: LState) {
    NoRepeats(s.order) && forall f :: f in s.order <==> f in s.evictable
  }

  /** Whether `f` is the first candidate in the list. */
  ghost predicate IsVictimL(s: LState, f: Frame) {
    exists i :: 0 <= i < |s.order| && s.order[i] == f && CandidateL(s, f) && forall j | 0 <= j < i :: !CandidateL(s, s.order[j])
  }

  ghost predicate NoRepeats(order: seq<Frame>) {
    forall i, j | 0 <= i < j < |order| :: order[i] != order[j]
  }

  lemma {:induction false} WithoutAbsent(order: seq<Frame>, f: Frame)
    requires f !in order
    ensures Without(order, f) == order
  {
    if order != [] {
      assert order[0] in order && forall g | g in order[1..] :: g in order;
      WithoutAbsent(order[1..], f);
    }
  }

  lemma {:induction false} WithoutCuts(order: seq<Frame>, f: Frame, i: nat)
    requires NoRepeats(order) && i < |order| && order[i] == f
    ensures Without(order, f) == order[..i] + order[i + 1..]
  {
    if i == 0 {
      WithoutAbsent(order[1..], f);
    } else {
      assert order[0] != f;
      WithoutCuts(order[1..], f, i - 1);
      assert [order[0]] + (order[1..][..i - 1] + order[1..][i..]) == order[..i] + order[i + 1..];
    }
  }

  lemma {:induction false} WithoutHas(order: seq<Frame>, f: Frame, g: Frame)
    ensures g in Without(order, f) <==> g in order && g != f
  {
    if order != [] {
      WithoutHas(order[1..], f, g);
      assert g in order <==> g == order[0] || g in order[1..];
    }
  }

  lemma CutRepeatsNothing(order: seq<Frame>, i: nat)
    requires NoRepeats(order) && i < |order|
    ensures NoRepeats(order[..i] + order[i + 1..])
  {
    var cut := order[..i] + order[i + 1..];
    forall a, b | 0 <= a < b < |cut| ensures cut[a] != cut[b] {
      assert cut[a] == order[if a < i then a else a + 1];
      assert cut[b] == order[if b < i then b else b + 1];
    }
  }

  /** Removing a frame keeps the others, in their order. */
  lemma WithoutIs(order: seq<Frame>, f: Frame)
    requires NoRepeats(order)
    ensures NoRepeats(Without(order, f)) && forall g :: g in Without(order, f) <==> g in order && g != f
    ensures f !in order ==> Without(order, f) == order
    ensures forall i | 0 <= i < |order| && order[i] == f :: Without(order, f) == order[..i] + order[i + 1..]
  {
    forall g ensures g in Without(order, f) <==> g in order && g != f { WithoutHas(order, f, g); }
    if f in order {
      var i :| 0 <= i < |order| && order[i] == f;
      WithoutCuts(order, f, i);
      CutRepeatsNothing(order, i);
    } else {
      WithoutAbsent(order, f);
    }
  }

  lemma LOkDropped(s: LState, f: Frame)
    requires LOk(s)
    ensures LOk(DroppedL(s, f))
  {
    WithoutIs(s.order, f);
  }

  class LRUReplacer {
    var order: seq<Frame>
    var evictable: map<Frame, bool>
    const size: nat

    ghost function Abs(): LState
      reads this
    {
      LState(order, evictable)
    }

    ghost predicate Valid()
      reads this
    {
      LOk(Abs())
    }

    constructor (size: nat)
      ensures Valid() && Abs() == InitialL && this.size == size
    {
      this.size := size;
      order, evictable := [], map[];
    }

    method RecordAccess(f: Frame) returns (ok: bool)
      requires Valid()
      modifies this
      ensures Valid() && (ok <==> 0 <= f < size)
      ensures Abs() == if ok then Touched(old(Abs()), f) else old(Abs())
    {
      if f < 0 || f >= size {
        return false;
      }
      WithoutIs(order, f);
      if f in evictable {
        Erase(f);
      }
      order := order + [f];
      if f !in evictable {
        evictable := evictable[f := false];
      }
      ok := true;
    }

    /** Unlinks a frame from the list. */
    method Erase(f: Frame)
      requires Valid() && f in order
      modifies this`order
      ensures order == Without(old(order), f)
    {
      var i := 0;
      while order[i] != f
        invariant 0 <= i < |order| && order == old(order) && forall j | 0 <= j < i :: order[j] != f
        decreases |order| - i
      {
        i := i + 1;
        assert i == |order| ==> forall j | 0 <= j < |order| :: order[j] != f;
      }
      WithoutIs(order, f);
      order := order[..i] + order[i + 1..];
    }

    method SetEvictable(f: Frame, evictable: bool)
      requires Valid()
      modifies this
      ensures Valid() && Abs() == MarkedL(old(Abs()), f, evictable)
    {
      if f !in this.evictable {
        order := order + [f];
      }
      this.evictable := this.evictable[f := evictable];
    }

    method Evict() returns (victim: Option<Frame>)
      requires Valid()
      modifies this
      ensures Valid()
      ensures victim.None? ==> Abs() == old(Abs()) && forall f :: !CandidateL(old(Abs()), f)
      ensures victim.Some? ==> IsVictimL(old(Abs()), victim.value) && Abs() == DroppedL(old(Abs()), victim.value)
    {
      ghost var s := Abs();
      var i := 0;
      while i < |order|
        invariant 0 <= i <= |order| && Abs() == s && forall j | 0 <= j < i :: !CandidateL(s, order[j])
      {
        var f := order[i];
        assert f in order;
        if evictable[f] {
          WithoutCuts(order, f, i);
          LOkDropped(s, f);
          order := order[..i] + order[i + 1..];
          evictable := evictable - {f};
          return Some(f);
        }
        i := i + 1;
      }
      forall f ensures !CandidateL(s, f) {
        if f in s.order {
          var j :| 0 <= j < |s.order| && s.order[j] == f;
        }
      }
      victim := None;
    }

    method Remove(f: Frame) returns (ok: bool)
      requires Valid()
      modifies this
      ensures Valid() && (ok <==> f in old(evictable) ==> old(evictable)[f])
      ensures Abs() == if ok then DroppedL(old(Abs()), f) else old(Abs())
    {
      WithoutIs(order, f);
      if f !in evictable {
        assert evictable - {f} == evictable;
        return true;
      }
      if !evictable[f] {
        return false;
      }
      Erase(f);
      evictable := evictable - {f};
      ok := true;
    }
  }

  // ---------------------------------------------------------------------
  // With k = 1 the two agree
  // ---------------------------------------------------------------------

  /** One call of LRU. */
  ghost function StepL(n: nat, s: LState, op: Op): (Reply, LState) {
    match op
    case Access(f) => if 0 <= f < n then (Done, Touched(s, f)) else (Refused, s)
    case Mark(f, e) => (Done, MarkedL(s, f, e))
    case Evict => if f: Frame :| IsVictimL(s, f) then (Victim(Some(f)), DroppedL(s, f)) else (Victim(None), s)
    case Remove(f) => if f in s.evictable && !s.evictable[f] then (Refused, s) else (Done, DroppedL(s, f))
  }

  ghost function RunL(n: nat, ops: seq<Op>): (r: (seq<Reply>, LState))
    ensures |r.0| == |ops|
  {
    if ops == [] then ([], InitialL)
    else
      var (replies, s) := RunL(n, ops[..|ops| - 1]);
      var (r, s') := StepL(n, s, ops[|ops| - 1]);
      (replies + [r], s')
  }

  /** Same frames, same flags; of the frames that have been accessed, LRU's list is in
      the order of the one remembered access. */
  ghost predicate Alike(a: KState, b: LState) {
    && KOk(a) && LOk(b) && a.frames.Keys == b.evictable.Keys
    && (forall f | f in a.frames :: |a.frames[f].history| <= 1 && a.frames[f].evictable == b.evictable[f])
    && (forall i, j | 0 <= i < j < |b.order| :: Before(a, b.order[i], b.order[j]))
  }

  ghost predicate Before(a: KState, f: Frame, g: Frame) {
    && f in a.frames && g in a.frames
    && (a.frames[f].history != [] && a.frames[g].history != [] ==> a.frames[f].history[0] < a.frames[g].history[0])
  }

  lemma InOrder(a: KState, b: LState, i: nat, j: nat)
    requires Alike(a, b) && i < j < |b.order|
    ensures Before(a, b.order[i], b.order[j])
  {
  }

  lemma SameVictim(a: KState, b: LState, f: Frame, g: Frame)
    requires Alike(a, b) && IsVictim(a, 1, f) && IsVictimL(b, g)
    ensures f == g
  {
    var i: nat :| 0 <= i < |b.order| && b.order[i] == g && CandidateL(b, g) && forall j | 0 <= j < i :: !CandidateL(b, b.order[j]);
    assert Candidate(a, g) && Candidate(a, f);
    assert CandidateL(b, f) && f in b.order;
    var j: nat :| 0 <= j < |b.order| && b.order[j] == f;
    if i < j { InOrder(a, b, i, j); }
  }

  lemma AlikeWithout(a: KState, b: LState, a': KState, f: Frame)
    requires Alike(a, b) && a' == Dropped(a, f)
    ensures Alike(a', DroppedL(b, f))
  {
    KOkDropped(a, f);
    WithoutIs(b.order, f);
    var order := Without(b.order, f);
    forall i, j | 0 <= i < j < |order| ensures Before(a', order[i], order[j]) {
      var p, q := PlaceBefore(b.order, f, i, j);
      assert Before(a, b.order[p], b.order[q]);
      assert order[i] in order && order[j] in order;
    }
  }

  /** Two frames left in the list were in the same order before. */
  lemma PlaceBefore(order: seq<Frame>, f: Frame, i: nat, j: nat) returns (p: nat, q: nat)
    requires NoRepeats(order) && i < j < |Without(order, f)|
    ensures p < q < |order| && order[p] == Without(order, f)[i] && order[q] == Without(order, f)[j]
  {
    if f in order {
      var m :| 0 <= m < |order| && order[m] == f;
      WithoutCuts(order, f, m);
      p, q := if i < m then i else i + 1, if j < m then j else j + 1;
    } else {
      WithoutAbsent(order, f);
      p, q := i, j;
    }
  }

  lemma LOkTouched(b: LState, f: Frame)
    requires LOk(b)
    ensures LOk(Touched(b, f))
  {
    WithoutIs(b.order, f);
  }

  lemma AccessedLast(a: KState, b: LState, f: Frame, i: nat, j: nat)
    requires Alike(a, b) && i < j < |Touched(b, f).order|
    ensures Before(Accessed(a, 1, f), Touched(b, f).order[i], Touched(b, f).order[j])
  {
    var rest := Without(b.order, f);
    WithoutIs(b.order, f);
    var g := rest[i];
    assert g in rest;
    assert Timed(a, g);
    if j < |rest| {
      var h := rest[j];
      assert h in rest;
      var p, q := PlaceBefore(b.order, f, i, j);
      InOrder(a, b, p, q);
    }
  }

  lemma AlikeAccess(a: KState, b: LState, f: Frame)
    requires Alike(a, b)
    ensures Alike(Accessed(a, 1, f), Touched(b, f))
  {
    var a', b' := Accessed(a, 1, f), Touched(b, f);
    KOkAccessed(a, 1, f);
    LOkTouched(b, f);
    forall i, j | 0 <= i < j < |b'.order| ensures Before(a', b'.order[i], b'.order[j]) {
      AccessedLast(a, b, f, i, j);
    }
  }

  lemma AlikeMark(a: KState, b: LState, f: Frame, e: bool)
    requires Alike(a, b)
    ensures Alike(Marked(a, f, e), MarkedL(b, f, e))
  {
    var a', b' := Marked(a, f, e), MarkedL(b, f, e);
    KOkMarked(a, f, e);
    assert f !in b.evictable ==> f !in b.order;
    forall i, j | 0 <= i < j < |b'.order| ensures Before(a', b'.order[i], b'.order[j]) {
      assert b'.order[i] in b'.order && b'.order[j] in b'.order;
      if j < |b.order| { InOrder(a, b, i, j); }
    }
  }

  /** A list with a candidate in it has a first one. */
  lemma VictimInList(b: LState, f: Frame)
    requires LOk(b) && CandidateL(b, f)
    ensures exists g :: IsVictimL(b, g)
  {
    assert f in b.order;
    var i := 0;
    while !CandidateL(b, b.order[i])
      invariant i < |b.order| && f in b.order[i..] && forall j | 0 <= j < i :: !CandidateL(b, b.order[j])
      decreases |b.order| - i
    {
      i := i + 1;
    }
    assert IsVictimL(b, b.order[i]);
  }

  lemma AlikeEvict(a: KState, b: LState)
    requires Alike(a, b) && forall f :: !Unread(a, f)
    ensures EvictK(1, a).0 == StepL(0, b, Evict).0 && Alike(EvictK(1, a).1, StepL(0, b, Evict).1)
  {
    var (ra, a') := EvictK(1, a);
    var (rb, b') := StepL(0, b, Evict);
    if c: Frame :| Candidate(a, c) {
      var f := ra.frame.value;
      assert CandidateL(b, f);
      VictimInList(b, f);
      SameVictim(a, b, f, rb.frame.value);
      AlikeWithout(a, b, a', f);
    } else {
      forall f ensures !IsVictimL(b, f) { assert !Candidate(a, f); }
    }
  }

  lemma AlikeStep(n: nat, a: KState, b: LState, op: Op)
    requires Alike(a, b)
    ensures StepK(1, n, a, op).0 != Fault ==>
              StepK(1, n, a, op).0 == StepL(n, b, op).0 && Alike(StepK(1, n, a, op).1, StepL(n, b, op).1)
  {
    match op {
      case Access(f) => AlikeAccess(a, b, f);
      case Mark(f, e) => AlikeMark(a, b, f, e);
      case Evict => if forall f :: !Unread(a, f) { AlikeEvict(a, b); }
      case Remove(f) => AlikeWithout(a, b, Dropped(a, f), f);
    }
  }

  /** LRU never faults. */
  lemma {:induction false} LruNeverFaults(n: nat, ops: seq<Op>)
    ensures Fault !in RunL(n, ops).0
    decreases |ops|
  {
    if ops != [] { LruNeverFaults(n, ops[..|ops| - 1]); }
  }

  /** Over every run LRU-1 gives the replies LRU gives, the victims among them, if and
      only if it does not fault, and up to the fault if it does. */
  lemma {:induction false} LruOneIsLru(n: nat, ops: seq<Op>)
    ensures var (ra, a) := RunK(1, n, ops);
            var (rb, b) := RunL(n, ops);
            && (ra == rb <==> Fault !in ra)
            && (Fault !in ra ==> Alike(a, b))
            && (forall i | 0 <= i < |ra| && ra[i] != Fault :: ra[i] == rb[i])
    decreases |ops|
  {
    LruNeverFaults(n, ops);
    if ops != [] {
      var rest, op := ops[..|ops| - 1], ops[|ops| - 1];
      LruOneIsLru(n, rest);
      var (ra, a) := RunK(1, n, rest);
      var (rb, b) := RunL(n, rest);
      if Fault !in ra { AlikeStep(n, a, b, op); }
    }
  }

  /** In particular where every frame is accessed before it is first marked. */
  lemma LruOneIsLruAccessFirst(n: nat, ops: seq<Op>)
    requires AccessFirst(ops, RunK(1, n, ops).0)
    ensures RunK(1, n, ops).0 == RunL(n, ops).0
  {
    AccessFirstNeverFaults(1, n, ops);
    LruOneIsLru(n, ops);
  }
}

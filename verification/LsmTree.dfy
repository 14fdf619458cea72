/**
 The LSM engine: memtable and tiers updated in place, the client's operations, and
 a compaction that other threads may be running. `schedule` arguments say how many
 steps a background compaction takes at a point where the client does not hold the
 lock; every contract holds for every schedule.
 */
module LsmTree {
  import opened Common
  import opened LsmTables
  import opened LsmMerge
  import opened LsmModel

  const MAX_VALUE_SIZE := 64
  const KEY_SIZE := 8
  const WRITE_STALL_TIER_SIZE := 8

  function RunsOf(tables: seq<Table>): seq<seq<Item>> {
    seq(|tables|, i requires 0 <= i < |tables| => tables[i].items)
  }

  lemma {:induction false} RunsHold(tables: seq<Table>, k: Key)
    ensures Newest(RunsOf(tables), k) == InTier(tables, k)
  {
    if tables != [] {
      assert RunsOf(tables)[1..] == RunsOf(tables[1..]);
      RunsHold(tables[1..], k);
    }
  }

  /** Without the tombstones. */
  function DropTombstones(items: seq<Item>): seq<Item> {
    if items == [] then []
    else (if items[0].val.Tombstone? then [] else [items[0]]) + DropTombstones(items[1..])
  }

  lemma {:induction false} DroppedOrder(items: seq<Item>)
    requires Ascending(items)
    ensures Ascending(DropTombstones(items))
    ensures forall a | 0 <= a < |DropTombstones(items)| ::
              DropTombstones(items)[a].val.Live? && items != [] && items[0].key <= DropTombstones(items)[a].key
  {
    if items != [] {
      DroppedOrder(items[1..]);
    }
  }

  lemma {:induction false} Dropped(items: seq<Item>, k: Key)
    requires Ascending(items)
    ensures Find(DropTombstones(items), k) == Kept(Find(items, k), true)
  {
    if items != [] {
      var rest := DropTombstones(items[1..]);
      Dropped(items[1..], k);
      if items[0].key == k { FindNone(items[1..], k); }
      FindConcat([items[0]], rest, k);
      assert [] + rest == rest;
    }
  }

  lemma {:induction false} DropNext(items: seq<Item>, item: Item)
    ensures DropTombstones(items + [item]) == DropTombstones(items) + if item.val.Tombstone? then [] else [item]
  {
    if items == [] {
      assert items + [item] == [item] && [item][1..] == [];
    } else {
      assert (items + [item])[1..] == items[1..] + [item];
      DropNext(items[1..], item);
    }
  }

  method FilterLive(all: seq<Item>) returns (out: seq<Item>)
    ensures out == DropTombstones(all)
  {
    out := [];
    var i := 0;
    while i < |all|
      invariant 0 <= i <= |all| && out == DropTombstones(all[..i])
    {
      DropNext(all[..i], all[i]);
      assert all[..i] + [all[i]] == all[..i + 1];
      if all[i].val.Live? {
        out := out + [all[i]];
      }
      i := i + 1;
    }
    assert all[..i] == all;
  }

  /** What compaction makes of a snapshot. */
  method MergeTables(snapshot: seq<Table>, bottommost: bool) returns (merged: seq<Item>)
    requires forall i | 0 <= i < |snapshot| :: Ascending(snapshot[i].items)
    ensures MergedFrom(merged, snapshot, bottommost)
    ensures bottommost ==> forall a | 0 <= a < |merged| :: merged[a].val.Live?
  {
    var all := Merge(RunsOf(snapshot));
    forall k ensures Find(all, k) == InTier(snapshot, k) {
      RunsHold(snapshot, k);
    }
    if bottommost {
      merged := FilterLive(all);
      forall k ensures Find(merged, k) == Kept(InTier(snapshot, k), true) {
        Dropped(all, k);
      }
      DroppedOrder(all);
    } else {
      merged := all;
    }
  }

  class LSMTree {
    var mem: seq<Item>
    var memBytes: nat
    var tiers: seq<seq<Table>>
    var nextId: int
    var job: Job
    const flushBytes: nat
    const tierThreshold: int
    ghost var limbo: Option<seq<Item>>
    ghost var history: seq<Action>

    ghost function Abs(): Store
      reads this
    {
      Store(mem, limbo, tiers, nextId, job)
    }

    /** The fields are where the recorded steps lead. */
    ghost predicate Valid()
      reads this
    {
      Exec(history) == Some(Abs())
    }

    /** The map the client has written. */
    ghost function Contents(): map<Key, string>
      reads this
    {
      Wanted(history)
    }

    constructor (flushBytes: nat, tierThreshold: int)
      ensures Valid() && limbo.None? && Contents() == map[]
    {
      mem, memBytes, tiers, nextId, job := [], 0, [], 0, Idle;
      this.flushBytes, this.tierThreshold := flushBytes, tierThreshold;
      limbo, history := None, [];
    }

    /** Records that the effects since `s` were those of step `a`. */
    ghost method Record(s: Store, a: Action)
      requires Exec(history) == Some(s) && Enabled(s, a) && Abs() == Do(s, a)
      modifies this`history
      ensures Valid() && history == old(history) + [a]
    {
      DropLast(history, a);
      history := history + [a];
    }

    lemma Invariant()
      requires Valid()
      ensures Sound(Abs())
    {
      RunIsAMap(history, 0);
    }

    // -------------------------------------------------------------------
    // Reading
    // -------------------------------------------------------------------

    /** Newest source first; the first one that has the key decides. */
    method Lookup(k: Key) returns (r: Option<string>)
      requires Valid() && limbo.None?
      ensures r == Get(Contents(), k)
    {
      RunIsAMap(history, k);
      var v := Find(mem, k);
      if v.Some? {
        return Shown(v);
      }
      var t := 0;
      while t < |tiers|
        invariant 0 <= t <= |tiers| && InTiers(tiers[t..], k) == InTiers(tiers, k)
      {
        var tier := tiers[t];
        assert tiers[t..][0] == tier && tiers[t..][1..] == tiers[t + 1..];
        var i := 0;
        while i < |tier|
          invariant 0 <= i <= |tier| && InTier(tier[i..], k) == InTier(tier, k)
        {
          assert tier[i..][0] == tier[i] && tier[i..][1..] == tier[i + 1..];
          v := Find(tier[i].items, k);
          if v.Some? {
            return Shown(v);
          }
          i := i + 1;
        }
        t := t + 1;
      }
      r := None;
    }

    /** The live entries from `start` on, merged from all sources. */
    method Scan(start: Key) returns (out: seq<Item>)
      requires Valid() && limbo.None?
      ensures Ascending(out)
      ensures forall a | 0 <= a < |out| :: out[a].val.Live?
      ensures forall k :: Shown(Find(out, k)) == if start <= k then Get(Contents(), k) else None
    {
      Invariant();
      var runs := Sources(start);
      var all := Merge(runs);
      out := FilterLive(all);
      DroppedOrder(all);
      forall k ensures Shown(Find(out, k)) == if start <= k then Get(Contents(), k) else None {
        Dropped(all, k);
        RunIsAMap(history, k);
      }
    }

    /** Cursors into every source that reaches `start`, newest source first. */
    method Sources(start: Key) returns (runs: seq<seq<Item>>)
      requires Sound(Abs()) && limbo.None?
      ensures AllAscending(runs)
      ensures forall k :: Newest(runs, k) == if start <= k then Holds(Abs(), k) else None
    {
      runs := [From(mem, start)];
      FindFrom(mem, start, 0);
      forall k ensures Newest(runs, k) == Seen(start, k, Find(mem, k)) {
        FindFrom(mem, start, k);
      }
      var t := 0;
      while t < |tiers|
        invariant 0 <= t <= |tiers| && AllAscending(runs)
        invariant forall k :: Newest(runs, k) == Seen(start, k, Over(Find(mem, k), InTiers(tiers[..t], k)))
      {
        ghost var above := runs;
        runs := AddTier(start, t, runs);
        assert tiers[..t + 1] == tiers[..t] + [tiers[t]];
        forall k ensures Newest(runs, k) == Seen(start, k, Over(Find(mem, k), InTiers(tiers[..t + 1], k))) {
          InTiersConcat(tiers[..t], [tiers[t]], k);
          assert Newest(above, k) == Seen(start, k, Over(Find(mem, k), InTiers(tiers[..t], k)));
        }
        t := t + 1;
      }
      assert tiers[..t] == tiers;
    }

    method AddTier(start: Key, t: nat, above: seq<seq<Item>>) returns (runs: seq<seq<Item>>)
      requires t < |tiers| && AllAscending(above)
      requires Sound(Abs())
      ensures AllAscending(runs)
      ensures forall k :: Newest(runs, k) == Over(Newest(above, k), Seen(start, k, InTier(tiers[t], k)))
    {
      var tier := tiers[t];
      assert TierOk(tier, nextId);
      runs := above;
      var i := 0;
      while i < |tier|
        invariant 0 <= i <= |tier| && AllAscending(runs)
        invariant forall k :: Newest(runs, k) == Over(Newest(above, k), Seen(start, k, InTier(tier[..i], k)))
      {
        ghost var before := runs;
        var items := tier[i].items;
        assert TableOk(tier[i], nextId);
        FindFrom(items, start, 0);
        if items[|items| - 1].key >= start {
          runs := runs + [From(items, start)];
        }
        assert tier[..i + 1] == tier[..i] + [tier[i]];
        forall k ensures Newest(runs, k) == Over(Newest(above, k), Seen(start, k, InTier(tier[..i + 1], k))) {
          assert Newest(before, k) == Over(Newest(above, k), Seen(start, k, InTier(tier[..i], k)));
          InTierConcat(tier[..i], [tier[i]], k);
          NewestConcat(before, [From(items, start)], k);
          FindFrom(items, start, k);
          if items[|items| - 1].key < start <= k { EndsBefore(items, start, k); }
        }
        i := i + 1;
      }
      assert tier[..i] == tier;
    }

    /** What a scan from `start` may see of `o`. */
    static function Seen(start: Key, k: Key, o: Option<Val>): Option<Val> {
      if start <= k then o else None
    }

    // -------------------------------------------------------------------
    // Writing
    // -------------------------------------------------------------------

    method Put(k: Key, text: string, schedule: nat) returns (ok: bool)
      requires Valid() && limbo.None?
      modifies this
      ensures Valid() && limbo.None?
      ensures ok <==> |text| <= MAX_VALUE_SIZE
      ensures Contents() == if ok then old(Contents())[k := text] else old(Contents())
      ensures ok ==> memBytes < flushBytes || mem == []
    {
      if |text| > MAX_VALUE_SIZE {
        return false;
      }
      ghost var s, a := Abs(), DoPut(k, text);
      mem := Upsert(mem, k, Live(text));
      memBytes := memBytes + KEY_SIZE + |text|;
      Record(s, a);
      DropLast(old(history), a);
      if memBytes >= flushBytes {
        FlushActiveMemtable(schedule);
      }
      ok := true;
    }

    method Delete(k: Key, schedule: nat) returns (existed: bool)
      requires Valid() && limbo.None?
      modifies this
      ensures Valid() && limbo.None?
      ensures existed <==> k in old(Contents())
      ensures Contents() == old(Contents()) - {k}
      ensures memBytes < flushBytes || mem == []
    {
      var found := Lookup(k);
      existed := found.Some?;
      ghost var s, a := Abs(), DoDelete(k);
      mem := Upsert(mem, k, Tombstone);
      memBytes := memBytes + KEY_SIZE;
      Record(s, a);
      DropLast(old(history), a);
      if memBytes >= flushBytes {
        FlushActiveMemtable(schedule);
      }
    }

    /** Between the two locked regions of a flush a background compaction may take any
        number of steps. */
    method FlushActiveMemtable(schedule: nat)
      requires Valid() && limbo.None?
      modifies this
      ensures Valid() && limbo.None? && Contents() == old(Contents())
      ensures mem == [] && memBytes == 0
    {
      var flushed := SwapMemtable();
      Background(schedule);
      var backlogged := InsertTable(flushed);
      if backlogged {
        CompactOneTierIfNeeded();
      }
    }

    method SwapMemtable() returns (flushed: seq<Item>)
      requires Valid() && limbo.None?
      modifies this`mem, this`memBytes, this`limbo, this`history
      ensures Valid() && limbo == Some(flushed) && Contents() == old(Contents())
      ensures flushed == old(mem) && mem == [] && memBytes == 0
    {
      ghost var s, a := Abs(), DoSwap;
      flushed := mem;
      mem, memBytes := [], 0;
      limbo := Some(flushed);
      Record(s, a);
      DropLast(old(history), a);
    }

    method InsertTable(flushed: seq<Item>) returns (backlogged: bool)
      requires Valid() && limbo == Some(flushed)
      modifies this`tiers, this`nextId, this`limbo, this`history
      ensures Valid() && limbo.None? && history == old(history) + [DoInsertTable] && Contents() == old(Contents())
      ensures backlogged <==> flushed != [] && |tiers[0]| >= WRITE_STALL_TIER_SIZE
    {
      ghost var s, a := Abs(), DoInsertTable;
      backlogged := false;
      limbo := None;
      if flushed != [] {
        tiers := Resized(tiers, 0);
        tiers := tiers[0 := [Table(nextId, flushed)] + tiers[0]];
        nextId := nextId + 1;
        backlogged := |tiers[0]| >= WRITE_STALL_TIER_SIZE;
      }
      Record(s, a);
      DropLast(old(history), a);
    }

    // -------------------------------------------------------------------
    // Compaction
    // -------------------------------------------------------------------

    /** The first tier with enough tables, if any. */
    method FindTierNeedingCompaction() returns (tier: int)
      ensures tier == -1 || (0 <= tier < |tiers| && |tiers[tier]| >= tierThreshold)
      ensures forall t | 0 <= t < |tiers| && |tiers[t]| >= tierThreshold :: 0 <= tier <= t
    {
      var t := 0;
      while t < |tiers|
        invariant 0 <= t <= |tiers| && forall u | 0 <= u < t :: |tiers[u]| < tierThreshold
      {
        if |tiers[t]| >= tierThreshold {
          return t;
        }
        t := t + 1;
      }
      tier := -1;
    }

    /** Compacts the first tier with enough tables; a compaction that somebody else is
        running is left to them. */
    method CompactOneTierIfNeeded()
      requires Valid()
      modifies this`tiers, this`nextId, this`job, this`history
      ensures Valid() && Contents() == old(Contents())
      ensures old(job.Merging?) || (forall t | 0 <= t < |old(tiers)| :: |old(tiers)[t]| < tierThreshold) ==>
                Abs() == old(Abs())
      ensures forall t | && old(job.Idle?) && 0 <= t < |old(tiers)| && |old(tiers)[t]| >= tierThreshold
                         && (forall u | 0 <= u < t :: |old(tiers)[u]| < tierThreshold) ::
                exists merged :: history == old(history) + [DoSnapshot(t)] + [DoInstall(merged)]
    {
      if job.Merging? {
        return;
      }
      var tier := FindTierNeedingCompaction();
      if tier >= 0 {
        SnapshotTier(tier);
        ghost var merged := InstallMerged();
        assert history == old(history) + [DoSnapshot(tier)] + [DoInstall(merged)];
      }
    }

    /** The compaction thread, for a number of locked regions. */
    method Background(steps: nat)
      requires Valid()
      modifies this`tiers, this`nextId, this`job, this`history
      ensures Valid() && Contents() == old(Contents())
    {
      var n := steps;
      while n > 0
        invariant Valid() && Contents() == old(Contents())
      {
        if job.Merging? {
          ghost var merged := InstallMerged();
        } else {
          var tier := FindTierNeedingCompaction();
          if tier >= 0 {
            SnapshotTier(tier);
          }
        }
        n := n - 1;
      }
    }

    method SnapshotTier(tier: nat)
      requires Valid() && job.Idle? && tier < |tiers|
      modifies this`job, this`history
      ensures Valid() && job.Merging? && history == old(history) + [DoSnapshot(tier)] && Contents() == old(Contents())
    {
      ghost var s, a := Abs(), DoSnapshot(tier);
      var bottommost := true;
      var t := tier + 1;
      while t < |tiers|
        invariant tier < t <= |tiers|
        invariant bottommost <==> forall u | tier < u < t :: tiers[u] == []
      {
        if tiers[t] != [] {
          bottommost := false;
        }
        t := t + 1;
      }
      job := Merging(tier, tiers[tier], bottommost, nextId);
      assert bottommost == EmptyBelow(tiers, tier);
      Record(s, a);
      DropLast(old(history), a);
    }

    method InstallMerged() returns (ghost items: seq<Item>)
      requires Valid() && job.Merging?
      modifies this`tiers, this`nextId, this`job, this`history
      ensures Valid() && job.Idle? && history == old(history) + [DoInstall(items)] && Contents() == old(Contents())
    {
      Invariant();
      SnapshotAscending();
      var merged := MergeTables(job.snapshot, job.bottommost);
      items := merged;
      Install(merged);
    }

    method Install(merged: seq<Item>)
      requires Valid() && Sound(Abs()) && Enabled(Abs(), DoInstall(merged))
      modifies this`tiers, this`nextId, this`job, this`history
      ensures Valid() && job.Idle? && history == old(history) + [DoInstall(merged)] && Contents() == old(Contents())
    {
      ghost var s, a := Abs(), DoInstall(merged);
      var next := job.tier + 1;
      tiers := Resized(tiers, next);
      if merged != [] {
        tiers := tiers[next := [Table(nextId, merged)] + tiers[next]];
        nextId := nextId + 1;
      }
      var remaining := FilterOut(tiers[job.tier], job.snapshot);
      tiers := tiers[job.tier := remaining];
      job := Idle;
      Record(s, a);
      DropLast(old(history), a);
    }

    lemma SnapshotAscending()
      requires Sound(Abs()) && job.Merging?
      ensures forall i | 0 <= i < |job.snapshot| :: Ascending(job.snapshot[i].items)
    {
      var tables := tiers[job.tier];
      assert TierOk(tables, nextId);
      forall i | 0 <= i < |job.snapshot| ensures Ascending(job.snapshot[i].items) {
        assert TableOk(tables[|tables| - |job.snapshot| + i], nextId);
      }
    }
  }

  /** The tables that are not in the snapshot, in order. */
  method FilterOut(tables: seq<Table>, snapshot: seq<Table>) returns (remaining: seq<Table>)
    ensures remaining == Remaining(tables, snapshot)
  {
    remaining := [];
    var i := 0;
    while i < |tables|
      invariant 0 <= i <= |tables| && remaining == Remaining(tables[..i], snapshot)
    {
      var found := false;
      var j := 0;
      while j < |snapshot|
        invariant 0 <= j <= |snapshot|
        invariant found <==> exists u :: 0 <= u < j && snapshot[u].id == tables[i].id
      {
        if snapshot[j].id == tables[i].id {
          found := true;
        }
        j := j + 1;
      }
      assert found == Among(tables[i], snapshot);
      if !found {
        remaining := remaining + [tables[i]];
      }
      assert tables[..i + 1] == tables[..i] + [tables[i]] && [tables[i]][1..] == [];
      RemainingConcat(tables[..i], [tables[i]], snapshot);
      i := i + 1;
    }
    assert tables[..i] == tables;
  }
}

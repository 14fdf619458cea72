/**
 The LSM store as a state machine over the regions its code runs under the lock:
 a client that puts, deletes and flushes in two steps (swap the memtable out,
 insert its table into the tiers), and a compaction, by whichever thread, in two
 steps (snapshot a tier, install the merged table in the next one). Between the
 steps of one the steps of the other may happen.
 */
module LsmModel {
  import opened Common
  import opened LsmTables

  datatype Table = Table(id: int, items: seq<Item>)

  /** The compaction under way, if any. `mark` is the next table id when it began. */
  datatype Job = Idle | Merging(tier: nat, snapshot: seq<Table>, bottommost: bool, mark: int)

  datatype Store = Store(
    mem: seq<Item>,
    limbo: Option<seq<Item>>,
    tiers: seq<seq<Table>>,
    nextId: int,
    job: Job)

  datatype Action =
    | DoPut(key: Key, text: string)
    | DoDelete(key: Key)
    | DoSwap
    | DoInsertTable
    | DoSnapshot(tier: nat)
    | DoInstall(merged: seq<Item>)

  const Empty: Store := Store([], None, [], 0, Idle)

  // ---------------------------------------------------------------------
  // What the store holds
  // ---------------------------------------------------------------------

  function InTier(tables: seq<Table>, k: Key): Option<Val> {
    if tables == [] then None else Over(Find(tables[0].items, k), InTier(tables[1..], k))
  }

  function InTiers(tiers: seq<seq<Table>>, k: Key): Option<Val> {
    if tiers == [] then None else Over(InTier(tiers[0], k), InTiers(tiers[1..], k))
  }

  function InLimbo(limbo: Option<seq<Item>>, k: Key): Option<Val> {
    if limbo.Some? then Find(limbo.value, k) else None
  }

  /** Newest first: the memtable, the one being flushed, then the tiers. */
  function Holds(s: Store, k: Key): Option<Val> {
    Over(Find(s.mem, k), Over(InLimbo(s.limbo, k), InTiers(s.tiers, k)))
  }

  // ---------------------------------------------------------------------
  // Steps
  // ---------------------------------------------------------------------

  /** `merged` is what compaction makes of a snapshot: its newest entries in order,
      without the tombstones if nothing older lies below. */
  ghost predicate MergedFrom(merged: seq<Item>, snapshot: seq<Table>, bottommost: bool) {
    && Ascending(merged)
    && forall k :: Find(merged, k) == Kept(InTier(snapshot, k), bottommost)
  }

  function Kept(o: Option<Val>, bottommost: bool): Option<Val> {
    if o == Some(Tombstone) && bottommost then None else o
  }

  predicate EmptyBelow(tiers: seq<seq<Table>>, tier: nat) {
    forall t | tier < t < |tiers| :: tiers[t] == []
  }

  ghost predicate Enabled(s: Store, a: Action) {
    match a
    case DoPut(_, _) => s.limbo.None?
    case DoDelete(_) => s.limbo.None?
    case DoSwap => s.limbo.None?
    case DoInsertTable => s.limbo.Some?
    case DoSnapshot(tier) => s.job.Idle? && tier < |s.tiers|
    case DoInstall(merged) => s.job.Merging? && MergedFrom(merged, s.job.snapshot, s.job.bottommost)
  }

  function Prepend(tiers: seq<seq<Table>>, t: nat, table: Table): seq<seq<Table>>
    requires t < |tiers|
  {
    tiers[t := [table] + tiers[t]]
  }

  /** Tiers up to and including `t` exist. */
  function Resized(tiers: seq<seq<Table>>, t: nat): (r: seq<seq<Table>>)
    ensures |r| == if t < |tiers| then |tiers| else t + 1
    ensures forall i | 0 <= i < |r| :: r[i] == if i < |tiers| then tiers[i] else []
  {
    if t < |tiers| then tiers else tiers + seq(t + 1 - |tiers|, _ => [])
  }

  predicate Among(table: Table, tables: seq<Table>) {
    exists i :: 0 <= i < |tables| && tables[i].id == table.id
  }

  /** The tables of a tier that were not in the snapshot. */
  function Remaining(tables: seq<Table>, snapshot: seq<Table>): seq<Table> {
    if tables == [] then []
    else (if Among(tables[0], snapshot) then [] else [tables[0]]) + Remaining(tables[1..], snapshot)
  }

  /** The tiers once a merged table, unless it is empty, replaces the snapshot. */
  function Installed(s: Store, merged: seq<Item>): seq<seq<Table>>
    requires s.job.Merging?
  {
    var next := s.job.tier + 1;
    var tiers := Resized(s.tiers, next);
    var tiers' := if merged == [] then tiers else Prepend(tiers, next, Table(s.nextId, merged));
    tiers'[s.job.tier := Remaining(tiers'[s.job.tier], s.job.snapshot)]
  }

  ghost function Do(s: Store, a: Action): Store
    requires Enabled(s, a)
  {
    match a
    case DoPut(k, text) => s.(mem := Upsert(s.mem, k, Live(text)))
    case DoDelete(k) => s.(mem := Upsert(s.mem, k, Tombstone))
    case DoSwap => s.(mem := [], limbo := Some(s.mem))
    case DoInsertTable =>
      if s.limbo.value == [] then s.(limbo := None)
      else s.(limbo := None,
              tiers := Prepend(Resized(s.tiers, 0), 0, Table(s.nextId, s.limbo.value)),
              nextId := s.nextId + 1)
    case DoSnapshot(tier) => s.(job := Merging(tier, s.tiers[tier], EmptyBelow(s.tiers, tier), s.nextId))
    case DoInstall(merged) =>
      s.(tiers := Installed(s, merged), nextId := if merged == [] then s.nextId else s.nextId + 1, job := Idle)
  }

  ghost function Exec(acts: seq<Action>): Option<Store> {
    if acts == [] then Some(Empty)
    else
      var s := Exec(acts[..|acts| - 1]);
      if s.Some? && Enabled(s.value, acts[|acts| - 1]) then Some(Do(s.value, acts[|acts| - 1])) else None
  }

  /** The plain map the client's puts and deletes describe. */
  function Wanted(acts: seq<Action>): map<Key, string> {
    if acts == [] then map[]
    else
      var m := Wanted(acts[..|acts| - 1]);
      match acts[|acts| - 1]
      case DoPut(k, text) => m[k := text]
      case DoDelete(k) => m - {k}
      case _ => m
  }

  // ---------------------------------------------------------------------
  // The invariant
  // ---------------------------------------------------------------------

  ghost predicate TableOk(table: Table, nextId: int) {
    table.id < nextId && Ascending(table.items) && table.items != []
  }

  ghost predicate TierOk(tables: seq<Table>, nextId: int) {
    forall i {:trigger TableOk(tables[i], nextId)} | 0 <= i < |tables| :: TableOk(tables[i], nextId)
  }

  /** The snapshot is still the oldest part of its tier, what has come since is newer,
      and what lay below it has not changed. */
  ghost predicate JobOk(s: Store) {
    s.job.Merging? ==>
      && s.job.tier < |s.tiers| && s.job.mark <= s.nextId
      && Suffix(s.tiers[s.job.tier], s.job.snapshot, s.job.mark)
      && (s.job.bottommost ==> EmptyBelow(s.tiers, s.job.tier))
  }

  /** `tables` ends in `snapshot`, and ids tell the two parts apart. */
  ghost predicate Suffix(tables: seq<Table>, snapshot: seq<Table>, mark: int) {
    && |snapshot| <= |tables| && tables[|tables| - |snapshot|..] == snapshot
    && (forall i | 0 <= i < |snapshot| :: snapshot[i].id < mark)
    && (forall i | 0 <= i < |tables| - |snapshot| :: tables[i].id >= mark)
  }

  ghost predicate Sound(s: Store) {
    && Ascending(s.mem) && (s.limbo.Some? ==> Ascending(s.limbo.value))
    && (forall t {:trigger TierOk(s.tiers[t], s.nextId)} | 0 <= t < |s.tiers| :: TierOk(s.tiers[t], s.nextId))
    && JobOk(s)
  }

  // ---------------------------------------------------------------------
  // Lookup in tiers
  // ---------------------------------------------------------------------

  lemma {:induction false} InTierConcat(x: seq<Table>, y: seq<Table>, k: Key)
    ensures InTier(x + y, k) == Over(InTier(x, k), InTier(y, k))
  {
    if x == [] {
      assert x + y == y;
    } else {
      assert (x + y)[1..] == x[1..] + y;
      InTierConcat(x[1..], y, k);
    }
  }

  lemma {:induction false} InTiersEmpty(tiers: seq<seq<Table>>, k: Key)
    requires forall t | 0 <= t < |tiers| :: tiers[t] == []
    ensures InTiers(tiers, k) == None
  {
    if tiers != [] {
      InTiersEmpty(tiers[1..], k);
    }
  }

  lemma {:induction false} InTiersConcat(x: seq<seq<Table>>, y: seq<seq<Table>>, k: Key)
    ensures InTiers(x + y, k) == Over(InTiers(x, k), InTiers(y, k))
  {
    if x == [] {
      assert x + y == y;
    } else {
      assert (x + y)[1..] == x[1..] + y;
      InTiersConcat(x[1..], y, k);
    }
  }

  lemma ResizedSame(tiers: seq<seq<Table>>, t: nat, k: Key)
    ensures InTiers(Resized(tiers, t), k) == InTiers(tiers, k)
  {
    if t >= |tiers| {
      InTiersConcat(tiers, Resized(tiers, t)[|tiers|..], k);
      InTiersEmpty(Resized(tiers, t)[|tiers|..], k);
      assert Resized(tiers, t) == tiers + Resized(tiers, t)[|tiers|..];
    }
  }

  /** A tier and what is above and below it. */
  lemma InTiersAround(tiers: seq<seq<Table>>, t: nat, k: Key)
    requires t < |tiers|
    ensures InTiers(tiers, k)
            == Over(InTiers(tiers[..t], k), Over(InTier(tiers[t], k), InTiers(tiers[t + 1..], k)))
  {
    assert tiers == tiers[..t] + tiers[t..] && tiers[t..][1..] == tiers[t + 1..];
    InTiersConcat(tiers[..t], tiers[t..], k);
  }

  lemma {:induction false} RemainingConcat(x: seq<Table>, y: seq<Table>, snapshot: seq<Table>)
    ensures Remaining(x + y, snapshot) == Remaining(x, snapshot) + Remaining(y, snapshot)
  {
    if x == [] {
      assert x + y == y;
    } else {
      assert (x + y)[1..] == x[1..] + y;
      RemainingConcat(x[1..], y, snapshot);
    }
  }

  lemma {:induction false} RemainingNone(x: seq<Table>, snapshot: seq<Table>)
    requires forall i | 0 <= i < |x| :: Among(x[i], snapshot)
    ensures Remaining(x, snapshot) == []
  {
    if x != [] { RemainingNone(x[1..], snapshot); }
  }

  lemma {:induction false} RemainingAll(x: seq<Table>, snapshot: seq<Table>)
    requires forall i | 0 <= i < |x| :: !Among(x[i], snapshot)
    ensures Remaining(x, snapshot) == x
  {
    if x != [] { RemainingAll(x[1..], snapshot); }
  }

  /** What remains is what has come since the snapshot. */
  lemma RemainingIs(tables: seq<Table>, snapshot: seq<Table>, mark: int)
    requires Suffix(tables, snapshot, mark)
    ensures Remaining(tables, snapshot) == tables[..|tables| - |snapshot|]
  {
    var newer := tables[..|tables| - |snapshot|];
    assert tables == newer + snapshot;
    RemainingConcat(newer, snapshot, snapshot);
    RemainingAll(newer, snapshot);
    RemainingNone(snapshot, snapshot);
  }

  // ---------------------------------------------------------------------
  // Every step keeps the invariant, and only puts and deletes are seen
  // ---------------------------------------------------------------------

  lemma SoundInsertTable(s: Store, a: Action)
    requires Sound(s) && Enabled(s, a) && a.DoInsertTable?
    ensures Sound(Do(s, a))
  {
    var s' := Do(s, a);
    forall t | 0 <= t < |s'.tiers| ensures TierOk(s'.tiers[t], s'.nextId) {
      if t < |s.tiers| { assert TierOk(s.tiers[t], s.nextId); }
      forall i | 0 <= i < |s'.tiers[t]| ensures TableOk(s'.tiers[t][i], s'.nextId) {
        if t > 0 || s.limbo.value == [] {
          assert TableOk(s.tiers[t][i], s.nextId);
        } else if i > 0 {
          assert s'.tiers[0][i] == s.tiers[0][i - 1];
          assert TableOk(s.tiers[0][i - 1], s.nextId);
        }
      }
    }
    if s.job.Merging? && s.job.tier == 0 && s.limbo.value != [] {
      var n := |s.tiers[0]| - |s.job.snapshot|;
      assert s'.tiers[0][n + 1..] == s.tiers[0][n..];
    }
  }

  lemma SoundSnapshot(s: Store, a: Action)
    requires Sound(s) && Enabled(s, a) && a.DoSnapshot?
    ensures Sound(Do(s, a))
  {
    var tables := s.tiers[a.tier];
    assert TierOk(tables, s.nextId);
    forall i | 0 <= i < |tables| ensures tables[i].id < s.nextId {
      assert TableOk(tables[i], s.nextId);
    }
  }

  lemma InstalledTiers(s: Store, merged: seq<Item>)
    requires Sound(s) && s.job.Merging?
    ensures var tiers, t := s.tiers[s.job.tier], s.job.tier;
            var tiers' := Installed(s, merged);
            && |tiers'| == |Resized(s.tiers, t + 1)|
            && tiers'[t] == tiers[..|tiers| - |s.job.snapshot|]
            && tiers'[t + 1] == (if merged == [] then [] else [Table(s.nextId, merged)]) + Resized(s.tiers, t + 1)[t + 1]
            && forall i | 0 <= i < |tiers'| && i != t && i != t + 1 :: tiers'[i] == s.tiers[i]
  {
    RemainingIs(s.tiers[s.job.tier], s.job.snapshot, s.job.mark);
  }

  lemma SoundInstall(s: Store, a: Action)
    requires Sound(s) && Enabled(s, a) && a.DoInstall?
    ensures Sound(Do(s, a))
  {
    var s', t, merged := Do(s, a), s.job.tier, a.merged;
    InstalledTiers(s, merged);
    forall u | 0 <= u < |s'.tiers| ensures TierOk(s'.tiers[u], s'.nextId) {
      if u < |s.tiers| { assert TierOk(s.tiers[u], s.nextId); }
      forall i | 0 <= i < |s'.tiers[u]| ensures TableOk(s'.tiers[u][i], s'.nextId) {
        if u == t + 1 && merged != [] {
          if i > 0 {
            assert s'.tiers[u][i] == Resized(s.tiers, t + 1)[u][i - 1];
            assert TableOk(s.tiers[u][i - 1], s.nextId);
          }
        } else {
          assert TableOk(s.tiers[u][i], s.nextId);
        }
      }
    }
  }

  /** What lies above the snapshot, in newer tiers and newer tables of its own. */
  function AboveSnapshot(s: Store, k: Key): Option<Val>
    requires s.job.Merging? && s.job.tier < |s.tiers| && |s.job.snapshot| <= |s.tiers[s.job.tier]|
  {
    var tables := s.tiers[s.job.tier];
    Over(InTiers(s.tiers[..s.job.tier], k), InTier(tables[..|tables| - |s.job.snapshot|], k))
  }

  lemma LookupBefore(s: Store, k: Key)
    requires Sound(s) && s.job.Merging?
    ensures InTiers(s.tiers, k)
            == Over(AboveSnapshot(s, k), Over(InTier(s.job.snapshot, k), InTiers(s.tiers[s.job.tier + 1..], k)))
  {
    var tables := s.tiers[s.job.tier];
    var newer := tables[..|tables| - |s.job.snapshot|];
    InTiersAround(s.tiers, s.job.tier, k);
    assert tables == newer + s.job.snapshot;
    InTierConcat(newer, s.job.snapshot, k);
  }

  lemma LookupAfter(s: Store, merged: seq<Item>, k: Key)
    requires Sound(s) && s.job.Merging?
    ensures InTiers(Installed(s, merged), k)
            == Over(AboveSnapshot(s, k), Over(Find(merged, k), InTiers(s.tiers[s.job.tier + 1..], k)))
  {
    var t, tiers, tiers' := s.job.tier, Resized(s.tiers, s.job.tier + 1), Installed(s, merged);
    InstalledTiers(s, merged);
    InTiersAround(tiers', t, k);
    assert tiers'[..t] == s.tiers[..t];
    assert tiers'[t + 1..][1..] == tiers[t + 1..][1..];
    BelowInstalled(tiers[t + 1..], tiers'[t + 1..], s.nextId, merged, k);
    if t + 1 == |s.tiers| { InTiersEmpty(tiers[t + 1..], k); }
  }

  /** Replacing a tier's snapshot by the merged table one tier down changes nothing a
      client can see. */
  lemma InstallUnseen(s: Store, a: Action, k: Key)
    requires Sound(s) && Enabled(s, a) && a.DoInstall?
    ensures Shown(Holds(Do(s, a), k)) == Shown(Holds(s, k))
  {
    LookupBefore(s, k);
    LookupAfter(s, a.merged, k);
    if s.job.bottommost {
      InTiersEmpty(s.tiers[s.job.tier + 1..], k);
    }
  }

  lemma BelowInstalled(below: seq<seq<Table>>, below': seq<seq<Table>>, id: int, merged: seq<Item>, k: Key)
    requires |below| == |below'| > 0 && below'[1..] == below[1..]
    requires below'[0] == (if merged == [] then [] else [Table(id, merged)]) + below[0]
    ensures InTiers(below', k) == Over(Find(merged, k), InTiers(below, k))
  {
    if merged == [] {
      assert below'[0] == below[0];
    } else {
      InTierConcat([Table(id, merged)], below[0], k);
    }
  }

  lemma InsertTableUnseen(s: Store, a: Action, k: Key)
    requires Sound(s) && Enabled(s, a) && a.DoInsertTable?
    ensures Holds(Do(s, a), k) == Holds(s, k)
  {
    var items, tiers := s.limbo.value, Resized(s.tiers, 0);
    ResizedSame(s.tiers, 0, k);
    if items != [] {
      var table := Table(s.nextId, items);
      InTierConcat([table], tiers[0], k);
      assert Prepend(tiers, 0, table)[1..] == tiers[1..];
    }
  }

  lemma SoundStep(s: Store, a: Action)
    requires Sound(s) && Enabled(s, a)
    ensures Sound(Do(s, a))
  {
    match a {
      case DoPut(k, text) => UpsertAscending(s.mem, k, Live(text));
      case DoDelete(k) => UpsertAscending(s.mem, k, Tombstone);
      case DoSwap =>
      case DoInsertTable => SoundInsertTable(s, a);
      case DoSnapshot(_) => SoundSnapshot(s, a);
      case DoInstall(_) => SoundInstall(s, a);
    }
  }

  /** What each step does to what a client sees under `k`. */
  lemma StepShows(s: Store, a: Action, k: Key)
    requires Sound(s) && Enabled(s, a)
    ensures Shown(Holds(Do(s, a), k)) ==
            if a.DoPut? && a.key == k then Some(a.text)
            else if a.DoDelete? && a.key == k then None
            else Shown(Holds(s, k))
  {
    match a {
      case DoPut(q, text) => FindUpsert(s.mem, q, Live(text), k);
      case DoDelete(q) => FindUpsert(s.mem, q, Tombstone, k);
      case DoSwap =>
      case DoInsertTable => InsertTableUnseen(s, a, k);
      case DoSnapshot(_) =>
      case DoInstall(_) => InstallUnseen(s, a, k);
    }
  }

  /** However flushes and compactions interleave with the client's operations, the
      store holds exactly the map those operations describe. */
  lemma {:induction false} RunIsAMap(acts: seq<Action>, k: Key)
    requires Exec(acts).Some?
    ensures Sound(Exec(acts).value)
    ensures Shown(Holds(Exec(acts).value, k)) == Get(Wanted(acts), k)
    decreases |acts|
  {
    if acts != [] {
      var rest, a := acts[..|acts| - 1], acts[|acts| - 1];
      RunIsAMap(rest, k);
      SoundStep(Exec(rest).value, a);
      StepShows(Exec(rest).value, a, k);
    }
  }

  // ---------------------------------------------------------------------
  // A second client
  // ---------------------------------------------------------------------

  /** What a reader sees: it takes the memtable and the tiers, never the memtable
      being flushed. */
  function Reads(s: Store, k: Key): Option<string> {
    Shown(Over(Find(s.mem, k), InTiers(s.tiers, k)))
  }

  /** A memtable has been swapped out and its table not yet inserted. */
  predicate Flushing(acts: seq<Action>) {
    acts != [] &&
    match acts[|acts| - 1]
    case DoSwap => true
    case DoInsertTable => false
    case _ => Flushing(acts[..|acts| - 1])
  }

  /** The client's map as it was when a table was last inserted. */
  function Flushed(acts: seq<Action>): map<Key, string> {
    if acts == [] then map[]
    else if acts[|acts| - 1].DoInsertTable? then Wanted(acts[..|acts| - 1])
    else Flushed(acts[..|acts| - 1])
  }

  /** Compaction changes nothing that is seen in the tiers alone. */
  lemma InstallUnseenBelow(s: Store, a: Action, k: Key)
    requires Sound(s) && Enabled(s, a) && a.DoInstall?
    ensures Shown(InTiers(Do(s, a).tiers, k)) == Shown(InTiers(s.tiers, k))
  {
    LookupBefore(s, k);
    LookupAfter(s, a.merged, k);
    if s.job.bottommost {
      InTiersEmpty(s.tiers[s.job.tier + 1..], k);
    }
  }

  /** The tiers by themselves hold the map of the last flush, through every compaction,
      and nothing is written while a memtable is being flushed. */
  lemma {:induction false} TiersHoldTheFlushed(acts: seq<Action>, k: Key)
    requires Exec(acts).Some?
    ensures var s := Exec(acts).value;
            && Shown(InTiers(s.tiers, k)) == Get(Flushed(acts), k)
            && (s.limbo.Some? <==> Flushing(acts)) && (s.limbo.Some? ==> s.mem == [])
    decreases |acts|
  {
    if acts != [] {
      var rest, a := acts[..|acts| - 1], acts[|acts| - 1];
      var s := Exec(rest).value;
      TiersHoldTheFlushed(rest, k);
      RunIsAMap(rest, k);
      if a.DoInstall? { InstallUnseenBelow(s, a, k); }
      if a.DoInsertTable? { InsertTableUnseen(s, a, k); }
    }
  }

  /** What a reader sees at any point of any run: while a memtable is being flushed, the
      map of the flush before. It is right about a key if and only if no flush is half
      done or the key has not changed since the last one. */
  lemma ReaderIsRightIff(acts: seq<Action>, k: Key)
    requires Exec(acts).Some?
    ensures var s := Exec(acts).value;
            && Reads(s, k) == Get(if Flushing(acts) then Flushed(acts) else Wanted(acts), k)
            && (Reads(s, k) == Get(Wanted(acts), k) <==> !Flushing(acts) || Get(Flushed(acts), k) == Get(Wanted(acts), k))
  {
    TiersHoldTheFlushed(acts, k);
    RunIsAMap(acts, k);
  }

  /** It is not always right: between the two steps of the flush a key just written
      is nowhere to be seen. */
  lemma FlushHidesAKey(k: Key, text: string)
    ensures var acts := [DoPut(k, text), DoSwap];
            && Exec(acts).Some? && Get(Wanted(acts), k) == Some(text)
            && Reads(Exec(acts).value, k) == None
  {
    var a, b := DoPut(k, text), DoSwap;
    assert [a, b][..1] == [a] && [a][..0] == [];
    assert Exec([a]) == Some(Do(Empty, a));
    assert Wanted([a]) == map[k := text];
  }
}

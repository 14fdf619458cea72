/**
 The engine's runs as they are kept: the memtable in a skip list, each table in a
 file with its index and filter. A lookup through them is a lookup in the client's
 map, and flushing a skip list into a file loses nothing.
 */
module LsmStorage {
  import opened Common
  import opened LsmTables
  import opened LsmModel
  import opened LsmTree
  import opened LsmSSTable
  import opened LsmSkipList

  /** Searches one tier's files, newest first. */
  method LookupTier(files: seq<SSTable>, ghost tier: seq<Table>, k: Key) returns (r: Option<Val>)
    requires |files| == |tier|
    requires forall i | 0 <= i < |files| :: files[i].Valid() && files[i].Entries() == tier[i].items
    ensures r == InTier(tier, k)
  {
    var i := 0;
    while i < |files|
      invariant 0 <= i <= |files| && InTier(tier[i..], k) == InTier(tier, k)
    {
      assert tier[i..][0] == tier[i] && tier[i..][1..] == tier[i + 1..];
      r := files[i].Lookup(k);
      if r.Some? {
        return;
      }
      i := i + 1;
    }
    r := None;
  }

  /** The engine's lookup, through the skip list and the files that hold its runs. */
  method LookupStored(engine: LSMTree, memtable: SkipList, files: seq<seq<SSTable>>, k: Key) returns (r: Option<string>)
    requires engine.Valid() && engine.limbo.None?
    requires memtable.Valid() && memtable.Contents() == engine.mem
    requires |files| == |engine.tiers|
    requires forall t | 0 <= t < |files| :: |files[t]| == |engine.tiers[t]|
    requires forall t, i | 0 <= t < |files| && 0 <= i < |files[t]| ::
               files[t][i].Valid() && files[t][i].Entries() == engine.tiers[t][i].items
    ensures r == Get(engine.Contents(), k)
  {
    RunIsAMap(engine.history, k);
    var v := memtable.Find(k);
    if v.Some? {
      return Shown(v);
    }
    var t := 0;
    while t < |files|
      invariant 0 <= t <= |files| && InTiers(engine.tiers[t..], k) == InTiers(engine.tiers, k)
    {
      assert engine.tiers[t..][0] == engine.tiers[t] && engine.tiers[t..][1..] == engine.tiers[t + 1..];
      v := LookupTier(files[t], engine.tiers[t], k);
      if v.Some? {
        return Shown(v);
      }
      t := t + 1;
    }
    r := None;
  }

  /** All entries of a memtable, by its iterator. */
  method Drain(memtable: SkipList) returns (entries: seq<Item>)
    requires memtable.Valid()
    ensures entries == memtable.Contents()
  {
    entries := [];
    var node := memtable.Begin();
    ghost var i := 0;
    while node != null
      invariant 0 <= i <= |memtable.Contents()| && entries == memtable.Contents()[..i] && node == memtable.Ref(i + 1)
      decreases |memtable.Contents()| - i
    {
      entries := entries + [Item(node.key, node.val)];
      node := memtable.Next(node, i);
      i := i + 1;
    }
    assert i == |memtable.Contents()|;
  }

  /** A flush: the file built from a memtable holds what the memtable held, unless a
      value is too long for it. */
  method FlushStored(memtable: SkipList, numBits: nat, numHashes: nat, mix: Mix) returns (file: SSTable?)
    requires memtable.Valid() && numBits > 0
    ensures file != null <==> forall a | 0 <= a < |memtable.Contents()| :: Fits(memtable.Contents()[a].val)
    ensures file != null ==> file.Valid() && file.Entries() == memtable.Contents() && fresh(file)
  {
    memtable.ContentsAscending();
    ghost var run := memtable.Contents();
    var entries := Drain(memtable);
    file := BuildAndOpen(entries, numBits, numHashes, mix);
    assert memtable.Contents() == run;
  }

  /** What a scan takes from a file: its entries from `start` on, by its iterator. */
  method ReadFrom(file: SSTable, start: Key) returns (items: seq<Item>)
    requires file.Valid()
    ensures items == From(file.Entries(), start)
  {
    var c := file.NewIterator(start);
    items := Exhaust(file, c, file.Rest(c));
  }

  /** Everything from the cursor on. */
  method Exhaust(file: SSTable, start: Cursor, ghost all: seq<Item>) returns (items: seq<Item>)
    requires file.Valid() && file.InTable(start) && all == file.Rest(start)
    ensures items == all
  {
    items := [];
    var c := start;
    ghost var rest := all;
    while c.At?
      invariant file.InTable(c) && rest == file.Rest(c) && items + rest == all
      decreases |rest|
    {
      var item;
      ghost var before := rest;
      item, c, rest := Take(file, c, rest);
      StepPast(items, item, rest, before);
      items := items + [item];
    }
  }

  /** The entry under the cursor, and the cursor past it. */
  method Take(file: SSTable, c: Cursor, ghost rest: seq<Item>) returns (item: Item, c': Cursor, ghost rest': seq<Item>)
    requires file.Valid() && c.At? && file.InTable(c) && rest == file.Rest(c)
    ensures file.InTable(c') && rest' == file.Rest(c') && rest == [item] + rest'
  {
    item := file.ItemAt(c);
    c' := file.Next(c);
    rest' := rest[1..];
    assert rest == [rest[0]] + rest[1..];
  }

  lemma StepPast(items: seq<Item>, item: Item, rest: seq<Item>, before: seq<Item>)
    requires before == [item] + rest
    ensures (items + [item]) + rest == items + before && |rest| < |before|
  {
  }
}

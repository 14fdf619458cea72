/**
 Sorted runs of entries, what a run holds under a key, and what a stack of runs
 holds when the newest entry wins.
 */
module LsmTables {
  import opened Common

  type Key = int

  /** A delete is recorded as an entry of its own that shadows older ones. */
  datatype Val = Live(text: string) | Tombstone

  datatype Item = Item(key: Key, val: Val)

  predicate Ascending(items: seq<Item>) {
    forall a, b | 0 <= a < b < |items| :: items[a].key < items[b].key
  }

  /** What a run holds under a key. */
  function Find(items: seq<Item>, k: Key): Option<Val> {
    if items == [] then None
    else if items[0].key == k then Some(items[0].val)
    else Find(items[1..], k)
  }

  /** The newer answer if there is one. */
  function Over(a: Option<Val>, b: Option<Val>): Option<Val> {
    if a.Some? then a else b
  }

  /** What a stack of runs holds under a key, the first run being the newest. */
  function Newest(runs: seq<seq<Item>>, k: Key): Option<Val> {
    if runs == [] then None else Over(Find(runs[0], k), Newest(runs[1..], k))
  }

  /** What a client sees: a tombstone shows as nothing. */
  function Shown(o: Option<Val>): Option<string> {
    if o.Some? && o.value.Live? then Some(o.value.text) else None
  }

  // ---------------------------------------------------------------------
  // Lookup by position
  // ---------------------------------------------------------------------

  lemma {:induction false} FindAt(items: seq<Item>, a: nat)
    requires Ascending(items) && a < |items|
    ensures Find(items, items[a].key) == Some(items[a].val)
  {
    if a > 0 {
      assert items[0].key < items[a].key;
      assert items[1..][a - 1] == items[a];
      FindAt(items[1..], a - 1);
    }
  }

  lemma {:induction false} FindNone(items: seq<Item>, k: Key)
    requires forall a | 0 <= a < |items| :: items[a].key != k
    ensures Find(items, k) == None
  {
    if items != [] {
      FindNone(items[1..], k);
    }
  }

  lemma {:induction false} FindSome(items: seq<Item>, k: Key) returns (a: nat)
    requires Find(items, k).Some?
    ensures a < |items| && items[a] == Item(k, Find(items, k).value)
  {
    if items[0].key == k {
      a := 0;
    } else {
      var b := FindSome(items[1..], k);
      a := b + 1;
    }
  }

  lemma {:induction false} FindConcat(x: seq<Item>, y: seq<Item>, k: Key)
    ensures Find(x + y, k) == Over(Find(x, k), Find(y, k))
  {
    if x == [] {
      assert x + y == y;
    } else {
      assert (x + y)[1..] == x[1..] + y;
      FindConcat(x[1..], y, k);
    }
  }

  // ---------------------------------------------------------------------
  // Stacks of runs
  // ---------------------------------------------------------------------

  lemma {:induction false} NewestConcat(x: seq<seq<Item>>, y: seq<seq<Item>>, k: Key)
    ensures Newest(x + y, k) == Over(Newest(x, k), Newest(y, k))
  {
    if x == [] {
      assert x + y == y;
    } else {
      assert (x + y)[1..] == x[1..] + y;
      NewestConcat(x[1..], y, k);
    }
  }

  /** The first run that holds the key decides. */
  lemma {:induction false} NewestIs(runs: seq<seq<Item>>, w: nat, k: Key)
    requires w < |runs| && Find(runs[w], k).Some? && forall i | 0 <= i < w :: Find(runs[i], k) == None
    ensures Newest(runs, k) == Find(runs[w], k)
  {
    if w > 0 {
      assert runs[1..][w - 1] == runs[w];
      NewestIs(runs[1..], w - 1, k);
    }
  }

  lemma {:induction false} NewestSame(x: seq<seq<Item>>, y: seq<seq<Item>>, k: Key)
    requires |x| == |y| && forall i | 0 <= i < |x| :: Find(x[i], k) == Find(y[i], k)
    ensures Newest(x, k) == Newest(y, k)
  {
    if x != [] {
      NewestSame(x[1..], y[1..], k);
    }
  }

  lemma {:induction false} NewestNone(runs: seq<seq<Item>>, k: Key)
    requires forall i | 0 <= i < |runs| :: Find(runs[i], k) == None
    ensures Newest(runs, k) == None
  {
    if runs != [] {
      NewestNone(runs[1..], k);
    }
  }

  // ---------------------------------------------------------------------
  // The memtable
  // ---------------------------------------------------------------------

  /** The position of `k`, or where it belongs. */
  function Place(items: seq<Item>, k: Key): (i: nat)
    ensures i <= |items|
    ensures forall a | 0 <= a < i :: items[a].key < k
    ensures i < |items| ==> k <= items[i].key
  {
    if items == [] || k <= items[0].key then 0 else 1 + Place(items[1..], k)
  }

  /** An upsert into a sorted run. */
  function Upsert(items: seq<Item>, k: Key, v: Val): seq<Item> {
    var i := Place(items, k);
    if i < |items| && items[i].key == k then items[i := Item(k, v)]
    else items[..i] + [Item(k, v)] + items[i..]
  }

  lemma UpsertAscending(items: seq<Item>, k: Key, v: Val)
    requires Ascending(items)
    ensures Ascending(Upsert(items, k, v))
  {
  }

  lemma {:induction false} FindUpsert(items: seq<Item>, k: Key, v: Val, q: Key)
    requires Ascending(items)
    ensures Find(Upsert(items, k, v), q) == if q == k then Some(v) else Find(items, q)
  {
    var i, out := Place(items, k), Upsert(items, k, v);
    UpsertAscending(items, k, v);
    if q == k {
      assert out[i] == Item(k, v);
      FindAt(out, i);
    } else if i < |items| && items[i].key == k {
      assert items == items[..i] + [items[i]] + items[i + 1..];
      assert out == items[..i] + [Item(k, v)] + items[i + 1..];
      FindThree(items[..i], items[i], items[i + 1..], q);
      FindThree(items[..i], Item(k, v), items[i + 1..], q);
    } else {
      assert items == items[..i] + items[i..];
      FindConcat(items[..i], items[i..], q);
      FindThree(items[..i], Item(k, v), items[i..], q);
    }
  }

  lemma FindThree(x: seq<Item>, e: Item, y: seq<Item>, q: Key)
    requires e.key != q
    ensures Find(x + [e] + y, q) == Over(Find(x, q), Find(y, q))
  {
    FindConcat(x + [e], y, q);
    FindConcat(x, [e], q);
  }

  // ---------------------------------------------------------------------
  // Part of a run
  // ---------------------------------------------------------------------

  /** The part of a run from the first key that is not below `start`. */
  function From(items: seq<Item>, start: Key): seq<Item> {
    items[Place(items, start)..]
  }

  lemma FindFrom(items: seq<Item>, start: Key, k: Key)
    requires Ascending(items)
    ensures Ascending(From(items, start))
    ensures Find(From(items, start), k) == if start <= k then Find(items, k) else None
  {
    var i := Place(items, start);
    if start <= k {
      assert items == items[..i] + items[i..];
      FindConcat(items[..i], items[i..], k);
      FindNone(items[..i], k);
    } else {
      FindNone(items[i..], k);
    }
  }

  lemma EndsBefore(items: seq<Item>, start: Key, k: Key)
    requires Ascending(items) && items != [] && items[|items| - 1].key < start <= k
    ensures Find(items, k) == None
  {
    forall a | 0 <= a < |items| ensures items[a].key != k {
      assert a < |items| - 1 ==> items[a].key < items[|items| - 1].key;
    }
    FindNone(items, k);
  }

  lemma {:induction false} PlaceIs(items: seq<Item>, k: Key, i: nat)
    requires i <= |items| && (forall a | 0 <= a < i :: items[a].key < k) && (i < |items| ==> k <= items[i].key)
    ensures Place(items, k) == i
  {
    if i > 0 {
      assert items[0].key < k;
      PlaceIs(items[1..], k, i - 1);
    }
  }
}

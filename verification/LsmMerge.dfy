/**
 The k-way merge of sorted runs through a heap of their heads. Among runs standing
 at the same key the one of highest priority (lowest index) is emitted and the
 others are advanced past it.
 */
module LsmMerge {
  import opened Common
  import opened LsmTables

  datatype HeapItem = HeapItem(key: Key, priority: nat)

  /** Heap order: by key, then by priority. */
  predicate Before(a: HeapItem, b: HeapItem) {
    if a.key != b.key then a.key < b.key else a.priority < b.priority
  }

  /** The heap's top. */
  method Top(heap: set<HeapItem>) returns (top: HeapItem)
    requires heap != {}
    ensures top in heap && forall h | h in heap :: h == top || Before(top, h)
  {
    ghost var some := Member(heap);
    top :| top in heap;
    var rest := heap - {top};
    while rest != {}
      invariant rest <= heap && top in heap
      invariant forall h | h in heap && h !in rest :: h == top || Before(top, h)
      decreases rest
    {
      ghost var one := Member(rest);
      var h :| h in rest;
      rest := rest - {h};
      if Before(h, top) {
        top := h;
      }
    }
  }

  ghost function AtKey(heap: set<HeapItem>, k: Key): set<HeapItem> {
    set h | h in heap && h.key == k
  }

  /** A run once it has been advanced past `k`, if it stands there. */
  function PastOne(run: seq<Item>, k: Key): seq<Item> {
    if run != [] && run[0].key == k then run[1..] else run
  }

  function Past(runs: seq<seq<Item>>, k: Key): seq<seq<Item>> {
    seq(|runs|, i requires 0 <= i < |runs| => PastOne(runs[i], k))
  }

  ghost predicate AllAscending(runs: seq<seq<Item>>) {
    forall i | 0 <= i < |runs| :: Ascending(runs[i])
  }

  ghost predicate NoneBelow(runs: seq<seq<Item>>, k: Key) {
    forall i | 0 <= i < |runs| && runs[i] != [] :: k <= runs[i][0].key
  }

  lemma FindFromHead(run: seq<Item>, k: Key)
    requires Ascending(run) && run != [] && k <= run[0].key
    ensures Find(run, k) == if run[0].key == k then Some(run[0].val) else None
  {
    if run[0].key != k { FindNone(run, k); }
  }

  /** Emitting the least key and advancing past it takes that key out of the union
      and leaves the rest. */
  lemma PastLeaves(runs: seq<seq<Item>>, k: Key, q: Key)
    requires AllAscending(runs) && NoneBelow(runs, k)
    ensures AllAscending(Past(runs, k))
    ensures Newest(Past(runs, k), q) == if q == k then None else Newest(runs, q)
  {
    var past: seq<seq<Item>> := Past(runs, k);
    forall i | 0 <= i < |runs| ensures Find(past[i], q) == if q == k then None else Find(runs[i], q) {
      if runs[i] != [] {
        FindFromHead(runs[i], k);
        if q == k && runs[i][0].key == k { FindNone(runs[i][1..], k); }
      }
    }
    if q == k { NewestNone(past, q); } else { NewestSame(past, runs, q); }
  }

  /** The head the heap order puts first is the newest entry of the least key. */
  lemma WinnerIsNewest(runs: seq<seq<Item>>, w: nat)
    requires AllAscending(runs) && w < |runs| && runs[w] != []
    requires forall i | 0 <= i < |runs| && i != w && runs[i] != [] ::
               Before(HeapItem(runs[w][0].key, w), HeapItem(runs[i][0].key, i))
    ensures NoneBelow(runs, runs[w][0].key)
    ensures Newest(runs, runs[w][0].key) == Some(runs[w][0].val)
  {
    var k := runs[w][0].key;
    forall i | 0 <= i < w ensures Find(runs[i], k) == None {
      if runs[i] != [] { FindFromHead(runs[i], k); }
    }
    FindFromHead(runs[w], k);
    NewestIs(runs, w, k);
  }

  class MergeIterator {
    var cursors: seq<seq<Item>>
    var heap: set<HeapItem>
    var valid: bool
    var current: Item

    /** The heap holds the head of every cursor that is not exhausted. */
    ghost predicate HeapOk()
      reads this
    {
      && AllAscending(cursors)
      && forall h: HeapItem :: h in heap <==> h.priority < |cursors| && cursors[h.priority] != []
                                              && h.key == cursors[h.priority][0].key
    }

    lemma HeadInHeap(i: nat)
      requires HeapOk() && i < |cursors| && cursors[i] != []
      ensures HeapItem(cursors[i][0].key, i) in heap
    {
    }

    /** Positioned at the least key of `runs`, the cursors standing just past it; or
        exhausted. */
    ghost predicate At(runs: seq<seq<Item>>)
      reads this
    {
      && HeapOk()
      && if valid then
           && AllAscending(runs) && NoneBelow(runs, current.key)
           && Newest(runs, current.key) == Some(current.val) && cursors == Past(runs, current.key)
         else forall i | 0 <= i < |runs| :: runs[i] == []
    }

    constructor (runs: seq<seq<Item>>)
      requires AllAscending(runs)
      ensures At(runs)
    {
      cursors, heap, valid, current := runs, {}, false, Item(0, Tombstone);
      new;
      var i := 0;
      while i < |runs|
        invariant 0 <= i <= |runs| && cursors == runs
        invariant forall h: HeapItem :: h in heap <==> h.priority < i && runs[h.priority] != []
                                                       && h.key == runs[h.priority][0].key
      {
        if runs[i] != [] {
          heap := heap + {HeapItem(runs[i][0].key, i)};
        }
        i := i + 1;
      }
      Advance();
    }

    method Advance()
      requires HeapOk()
      modifies this
      ensures At(old(cursors))
    {
      ghost var runs: seq<seq<Item>> := cursors;
      if heap == {} {
        valid := false;
        forall i | 0 <= i < |runs| ensures runs[i] == [] {
          if runs[i] != [] { HeadInHeap(i); }
        }
        return;
      }
      var winner := Top(heap);
      var w := winner.priority;
      forall i | 0 <= i < |runs| && i != w && runs[i] != []
        ensures Before(winner, HeapItem(runs[i][0].key, i))
      {
        HeadInHeap(i);
      }
      WinnerIsNewest(runs, w);
      current := cursors[w][0];
      Step(winner);
      SkipShadowed(runs);
      valid := true;
    }

    /** Pops `h` and moves its cursor on, pushing the cursor's new head. */
    method Step(h: HeapItem)
      requires HeapOk() && h in heap
      modifies this`heap, this`cursors
      ensures HeapOk() && cursors == old(cursors)[h.priority := old(cursors)[h.priority][1..]]
      ensures forall x: HeapItem | x in heap && x !in old(heap) :: x.key > h.key
      ensures h !in heap
    {
      var i := h.priority;
      var rest := cursors[i][1..];
      heap := heap - {h};
      cursors := cursors[i := rest];
      if rest != [] {
        heap := heap + {HeapItem(rest[0].key, i)};
      }
    }

    /** Advances every other cursor that stands at the current key. */
    method SkipShadowed(ghost runs: seq<seq<Item>>)
      requires HeapOk() && Passing(runs)
      modifies this`heap, this`cursors
      ensures HeapOk() && cursors == Past(runs, current.key)
    {
      while heap != {}
        invariant HeapOk() && Passing(runs)
        decreases AtKey(heap, current.key)
      {
        var top := Top(heap);
        if top.key != current.key {
          break;
        }
        ghost var before := AtKey(heap, current.key);
        var i := top.priority;
        assert Ascending(runs[i]);
        assert cursors[i] == runs[i];
        Step(top);
        assert top in before && AtKey(heap, current.key) <= before;
      }
      forall i | 0 <= i < |runs| ensures cursors[i] == PastOne(runs[i], current.key) {
        if cursors[i] != [] { HeadInHeap(i); }
      }
    }

    /** Each cursor is where it was in `runs`, or one past the current key. */
    ghost predicate Passing(runs: seq<seq<Item>>)
      reads this
    {
      && |cursors| == |runs| && AllAscending(runs) && NoneBelow(runs, current.key)
      && forall i | 0 <= i < |runs| :: cursors[i] == runs[i] || cursors[i] == PastOne(runs[i], current.key)
    }
  }

  /** Draining the merge gives the newest-wins union, in ascending order. */
  method Merge(runs: seq<seq<Item>>) returns (out: seq<Item>)
    requires AllAscending(runs)
    ensures Ascending(out)
    ensures forall k :: Find(out, k) == Newest(runs, k)
  {
    var it := new MergeIterator(runs);
    out := [];
    ghost var rest := runs;
    while it.valid
      invariant it.At(rest) && Ascending(out)
      invariant forall a | 0 <= a < |out| :: AllAbove(rest, out[a].key)
      invariant forall k :: Over(Find(out, k), Newest(rest, k)) == Newest(runs, k)
      invariant fresh(it)
      decreases Total(rest)
    {
      var e := it.current;
      ghost var out0: seq<Item>, rest0: seq<seq<Item>> := out, rest;
      out := out + [e];
      rest := it.cursors;
      Emitted(out0, e, rest0, runs);
      ghost var i, a := NewestSomewhere(rest0, e.key);
      assert Ascending(rest0[i]) && rest0[i][0].key == e.key;
      TotalPast(rest0, e.key);
      it.Advance();
    }
    forall k ensures Find(out, k) == Newest(runs, k) {
      NewestNone(rest, k);
    }
  }

  function Total(runs: seq<seq<Item>>): nat {
    if runs == [] then 0 else |runs[0]| + Total(runs[1..])
  }

  /** Every entry yet to come has a key above `k`. */
  ghost predicate AllAbove(runs: seq<seq<Item>>, k: Key) {
    forall i, a | 0 <= i < |runs| && 0 <= a < |runs[i]| :: k < runs[i][a].key
  }

  lemma {:induction false} NewestSomewhere(runs: seq<seq<Item>>, k: Key) returns (i: nat, a: nat)
    requires Newest(runs, k).Some?
    ensures i < |runs| && a < |runs[i]| && runs[i][a].key == k
  {
    if Find(runs[0], k).Some? {
      i := 0;
      a := FindSome(runs[0], k);
    } else {
      var j, b := NewestSomewhere(runs[1..], k);
      i, a := j + 1, b;
    }
  }

  /** Emitting the least entry keeps the output ascending and below what is left, and
      the two together still make up the union. */
  lemma Emitted(out: seq<Item>, e: Item, rest: seq<seq<Item>>, runs: seq<seq<Item>>)
    requires Ascending(out) && AllAscending(rest) && NoneBelow(rest, e.key) && Newest(rest, e.key) == Some(e.val)
    requires forall a | 0 <= a < |out| :: AllAbove(rest, out[a].key)
    requires forall k :: Over(Find(out, k), Newest(rest, k)) == Newest(runs, k)
    ensures Ascending(out + [e])
    ensures forall a | 0 <= a < |out + [e]| :: AllAbove(Past(rest, e.key), (out + [e])[a].key)
    ensures forall k :: Over(Find(out + [e], k), Newest(Past(rest, e.key), k)) == Newest(runs, k)
  {
    var past: seq<seq<Item>> := Past(rest, e.key);
    var i, b := NewestSomewhere(rest, e.key);
    forall a | 0 <= a < |out| ensures out[a].key < e.key && AllAbove(past, out[a].key) {
      assert AllAbove(rest, out[a].key);
      PastAbove(rest, e.key, out[a].key);
    }
    HeadsPassed(rest, e.key);
    forall k ensures Over(Find(out + [e], k), Newest(past, k)) == Newest(runs, k) {
      assert Over(Find(out, k), Newest(rest, k)) == Newest(runs, k);
      FindConcat(out, [e], k);
      PastLeaves(rest, e.key, k);
    }
  }

  lemma PastAbove(runs: seq<seq<Item>>, k: Key, low: Key)
    requires AllAbove(runs, low)
    ensures AllAbove(Past(runs, k), low)
  {
    var past: seq<seq<Item>> := Past(runs, k);
    forall i, a | 0 <= i < |past| && 0 <= a < |past[i]| ensures low < past[i][a].key {
      assert past[i][a] == runs[i][if past[i] == runs[i] then a else a + 1];
    }
  }

  lemma HeadsPassed(runs: seq<seq<Item>>, k: Key)
    requires AllAscending(runs) && NoneBelow(runs, k)
    ensures AllAbove(Past(runs, k), k)
  {
    var past: seq<seq<Item>> := Past(runs, k);
    forall i, a | 0 <= i < |past| && 0 <= a < |past[i]| ensures k < past[i][a].key {
      assert Ascending(runs[i]);
      if runs[i][0].key == k {
        assert past[i][a] == runs[i][a + 1];
      } else {
        assert past[i][a] == runs[i][a] && runs[i][0].key <= runs[i][a].key;
      }
    }
  }

  lemma {:induction false} TotalPast(runs: seq<seq<Item>>, k: Key)
    ensures Total(Past(runs, k)) <= Total(runs)
    ensures (exists i :: 0 <= i < |runs| && runs[i] != [] && runs[i][0].key == k) ==> Total(Past(runs, k)) < Total(runs)
  {
    if runs != [] {
      assert Past(runs, k)[1..] == Past(runs[1..], k);
      TotalPast(runs[1..], k);
      if i :| 0 <= i < |runs| && runs[i] != [] && runs[i][0].key == k {
        if i > 0 { assert runs[1..][i - 1] == runs[i]; }
      }
    }
  }
}

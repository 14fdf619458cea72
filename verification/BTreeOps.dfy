/**
 The structural changes a B+-tree goes through, each shown to keep the structural
 invariant and the contents: a page is split in two and its parent told, two
 adjacent siblings are merged and their parent told, a root is put on top or
 taken off. Moving entries between siblings is a merge followed by a split.
 */
module BTreeOps {
  import opened BTreeShape

  function InsertSlot(slots: seq<Slot>, j: nat, sl: Slot): seq<Slot>
    requires j < |slots|
  {
    slots[..j + 1] + [sl] + slots[j + 1..]
  }

  function RemoveSlot(slots: seq<Slot>, j: nat): seq<Slot>
    requires j < |slots|
  {
    slots[..j] + slots[j + 1..]
  }

  /** Points the given children at a new parent. */
  ghost function Reparent(pages: map<Pid, Page>, slots: seq<Slot>, p: Pid): map<Pid, Page> {
    map q | q in pages :: if HasChild(slots, q) then pages[q].(parent := p) else pages[q]
  }

  /** Slots that differ at most in the placeholder key of the first one. */
  predicate SameSlots(a: seq<Slot>, b: seq<Slot>) {
    && |a| == |b|
    && (forall t | 0 <= t < |a| :: a[t].child == b[t].child)
    && (forall t | 1 <= t < |a| :: a[t].key == b[t].key)
  }

  /** The slots of two adjacent siblings strung together, the separator serving as
      the key of the second one's first slot. */
  function Join(xs: seq<Slot>, sep: Key, ys: seq<Slot>): seq<Slot>
    requires ys != []
  {
    xs + [Slot(sep, ys[0].child)] + ys[1..]
  }

  // ---------------------------------------------------------------------
  // Frames
  // ---------------------------------------------------------------------

  /** What page `q` and its neighbours look like is as before. */
  ghost predicate Undisturbed(s: Shape, s': Shape, q: Pid)
    requires q in s.pages
  {
    && q in s'.pages && q in s.range && q in s'.range && s'.range[q] == s.range[q]
    && match s.pages[q]
       case Leaf(_, next, es) =>
         && s'.pages[q].Leaf? && s'.pages[q].next == next && s'.pages[q].entries == es
         && (next in s.pages && s.pages[next].Leaf? && next in s.range ==>
               && next in s'.pages && s'.pages[next].Leaf?
               && next in s'.range && s'.range[next].lo == s.range[next].lo)
       case Internal(_, slots) =>
         && s'.pages[q].Internal? && s'.pages[q].slots == slots
         && forall j {:trigger slots[j]} | 0 <= j < |slots| ::
              var c := slots[j].child;
              c in s.pages && c in s.range && s.pages[c].parent == q ==>
                c in s'.pages && c in s'.range && s'.pages[c].parent == q && s'.range[c] == s.range[c]
  }

  lemma BodyKept(s: Shape, s': Shape, q: Pid)
    requires q in s.pages && q in s.range && BodyOk(s, q) && Undisturbed(s, s', q)
    ensures BodyOk(s', q)
  {
    if s.pages[q].Internal? {
      var slots := s.pages[q].slots;
      forall j | 0 <= j < |slots| ensures ChildOk(s', q, s'.range[q], slots, j) {
        assert ChildOk(s, q, s.range[q], slots, j);
      }
    }
  }

  // ---------------------------------------------------------------------
  // Changes to the parent's slots
  // ---------------------------------------------------------------------

  /** The new page `y`, cut off from `x` at `m`, gets the slot after `x`'s. */
  lemma SlotsInserted(s: Shape, s': Shape, p: Pid, j: nat, x: Pid, y: Pid, m: Key)
    requires Struct(s) && p in s.pages && s.pages[p].Internal? && p in s'.range && s'.range[p] == s.range[p]
    requires j < |s.pages[p].slots| && s.pages[p].slots[j].child == x
    requires forall c | c in s.pages && c != x && s.pages[c].parent == p ::
               c in s'.pages && c in s'.range && s'.pages[c].parent == p && s'.range[c] == s.range[c]
    requires x in s'.pages && x in s'.range && s'.pages[x].parent == p
    requires y in s'.pages && y in s'.range && s'.pages[y].parent == p
    requires x in s.range && s'.range[x] == s.range[x].(hi := m) && s'.range[y] == s.range[x].(lo := m)
    ensures SlotsOk(s', p, s.range[p], InsertSlot(s.pages[p].slots, j, Slot(m, y)))
    ensures forall c | HasChild(s.pages[p].slots, c) || c == y :: HasChild(InsertSlot(s.pages[p].slots, j, Slot(m, y)), c)
  {
    var r, slots := s.range[p], s.pages[p].slots;
    var slots' := InsertSlot(slots, j, Slot(m, y));
    assert NodeOk(s, p);
    assert ChildOk(s, p, r, slots, j);
    forall t | 0 <= t < |slots'| ensures ChildOk(s', p, r, slots', t) {
      var u := if t <= j then t else t - 1;
      if t != j + 1 {
        assert slots'[t] == slots[u];
        assert ChildOk(s, p, r, slots, u);
        if u != j { SlotsDiffer(s, p, u, j); }
      }
    }
    forall c | HasChild(slots, c) || c == y ensures HasChild(slots', c) {
      if c == y {
        assert slots'[j + 1].child == y;
      } else {
        var t :| 0 <= t < |slots| && slots[t].child == c;
        assert slots'[if t <= j then t else t + 1].child == c;
      }
    }
  }

  /** The page after `x`'s slot is gone; `x` covers its range as well. */
  lemma SlotsRemoved(s: Shape, s': Shape, p: Pid, j: nat, x: Pid, y: Pid)
    requires Struct(s) && p in s.pages && s.pages[p].Internal? && p in s'.range && s'.range[p] == s.range[p]
    requires j + 1 < |s.pages[p].slots| && s.pages[p].slots[j].child == x && s.pages[p].slots[j + 1].child == y
    requires forall c | c in s.pages && c != x && c != y && s.pages[c].parent == p ::
               c in s'.pages && c in s'.range && s'.pages[c].parent == p && s'.range[c] == s.range[c]
    requires x in s.range && y in s.range && x in s'.pages && x in s'.range && s'.pages[x].parent == p
    requires s'.range[x] == s.range[x].(hi := s.range[y].hi)
    ensures SlotsOk(s', p, s.range[p], RemoveSlot(s.pages[p].slots, j + 1))
    ensures forall c | HasChild(s.pages[p].slots, c) && c != y :: HasChild(RemoveSlot(s.pages[p].slots, j + 1), c)
  {
    var r, slots := s.range[p], s.pages[p].slots;
    var slots' := RemoveSlot(slots, j + 1);
    assert NodeOk(s, p);
    assert ChildOk(s, p, r, slots, j) && ChildOk(s, p, r, slots, j + 1);
    forall t | 0 <= t < |slots'| ensures ChildOk(s', p, r, slots', t) {
      var u := if t <= j then t else t + 1;
      assert slots'[t] == slots[u];
      assert ChildOk(s, p, r, slots, u);
      if u != j { SlotsDiffer(s, p, u, j); }
      SlotsDiffer(s, p, u, j + 1);
    }
    forall c | HasChild(slots, c) && c != y ensures HasChild(slots', c) {
      var t :| 0 <= t < |slots| && slots[t].child == c;
      assert slots'[if t <= j then t else t - 1].child == c;
    }
  }

  // ---------------------------------------------------------------------
  // Leaves
  // ---------------------------------------------------------------------

  /** Replaces a leaf's entries. */
  function SetEntries(s: Shape, x: Pid, es: seq<Entry>): Shape
    requires x in s.pages && s.pages[x].Leaf?
  {
    s.(pages := s.pages[x := s.pages[x].(entries := es)])
  }

  lemma SetEntriesOk(s: Shape, x: Pid, es: seq<Entry>)
    requires Struct(s) && x in s.pages && s.pages[x].Leaf? && EntriesIn(es, s.range[x])
    ensures Struct(SetEntries(s, x, es))
  {
    var s' := SetEntries(s, x, es);
    forall q | q in s'.pages ensures NodeOk(s', q) {
      assert NodeOk(s, q);
      if q != x { BodyKept(s, s', q); }
    }
  }

  /** Splits leaf `x` before its entry `i`; `y` takes the rest and becomes the next
      leaf, in the slot after `x`'s slot `j`. */
  function LeafSplit(s: Shape, x: Pid, y: Pid, i: nat, j: nat): Shape
    requires x in s.pages && x in s.range && s.pages[x].Leaf? && 0 < i < |s.pages[x].entries|
    requires s.pages[x].parent in s.pages && s.pages[s.pages[x].parent].Internal?
    requires j < |s.pages[s.pages[x].parent].slots|
  {
    var Leaf(p, next, es) := s.pages[x];
    var m := es[i].key;
    s.(pages := s.pages[x := Leaf(p, y, es[..i])]
                       [y := Leaf(p, next, es[i..])]
                       [p := s.pages[p].(slots := InsertSlot(s.pages[p].slots, j, Slot(m, y)))],
       range := s.range[x := s.range[x].(hi := m)][y := s.range[x].(lo := m)])
  }

  ghost predicate CanSplit(s: Shape, x: Pid, y: Pid, j: nat) {
    && Struct(s) && x in s.pages && x != s.root && y >= 0 && y !in s.pages
    && var p := s.pages[x].parent;
       && p in s.pages && s.pages[p].Internal?
       && j < |s.pages[p].slots| && s.pages[p].slots[j].child == x
  }

  lemma LeafSplitElsewhere(s: Shape, x: Pid, y: Pid, i: nat, j: nat, q: Pid)
    requires CanSplit(s, x, y, j) && s.pages[x].Leaf? && 0 < i < |s.pages[x].entries|
    requires q in s.pages && q !in {x, y, s.pages[x].parent}
    ensures NodeOk(LeafSplit(s, x, y, i, j), q)
  {
    var s', p := LeafSplit(s, x, y, i, j), s.pages[x].parent;
    assert NodeOk(s, x) && NodeOk(s, p) && NodeOk(s, q);
    assert Undisturbed(s, s', q);
    BodyKept(s, s', q);
    if s.pages[q].parent == p {
      assert ChildOk(s, p, s.range[p], s.pages[p].slots, j);
      SlotsInserted(s, s', p, j, x, y, s.pages[x].entries[i].key);
    }
  }

  lemma LeafSplitNode(s: Shape, x: Pid, y: Pid, i: nat, j: nat, q: Pid)
    requires CanSplit(s, x, y, j) && s.pages[x].Leaf? && 0 < i < |s.pages[x].entries|
    requires q in LeafSplit(s, x, y, i, j).pages
    ensures NodeOk(LeafSplit(s, x, y, i, j), q)
  {
    var s' := LeafSplit(s, x, y, i, j);
    var Leaf(p, next, es) := s.pages[x];
    assert NodeOk(s, x) && NodeOk(s, p);
    assert p != x;
    assert ChildOk(s, p, s.range[p], s.pages[p].slots, j);
    assert s'.pages[x] == Leaf(p, y, es[..i]) && s'.pages[y] == Leaf(p, next, es[i..]);
    if q == p {
      SlotsInserted(s, s', p, j, x, y, es[i].key);
      assert NodeOk(s, q);
    } else if q == x {
      SlotsInserted(s, s', p, j, x, y, es[i].key);
      assert s.range[x].lo <= es[0].key < es[i].key;
      assert EntriesIn(es[..i], s'.range[x]) && NextOk(s', s'.range[x], y);
      assert HasChild(s.pages[p].slots, x);
    } else if q == y {
      SlotsInserted(s, s', p, j, x, y, es[i].key);
      assert EntriesIn(es[i..], s'.range[y]);
      assert next != x && next != p;
    } else {
      LeafSplitElsewhere(s, x, y, i, j, q);
    }
  }

  lemma LeafSplitOk(s: Shape, x: Pid, y: Pid, i: nat, j: nat)
    requires CanSplit(s, x, y, j) && s.pages[x].Leaf? && 0 < i < |s.pages[x].entries|
    ensures Struct(LeafSplit(s, x, y, i, j))
    ensures forall k, v :: Holds(LeafSplit(s, x, y, i, j), k, v) <==> Holds(s, k, v)
  {
    var s' := LeafSplit(s, x, y, i, j);
    assert NodeOk(s, x) && NodeOk(s, s.pages[x].parent);
    forall q | q in s'.pages ensures NodeOk(s', q) {
      LeafSplitNode(s, x, y, i, j, q);
    }
    var es := s.pages[x].entries;
    assert es == es[..i] + es[i..];
    forall k, v ensures Holds(s', k, v) <==> Holds(s, k, v) {
      HasEntryConcat(es[..i], es[i..], k, v);
      assert HoldsAt(s, x, k, v) <==> HoldsAt(s', x, k, v) || HoldsAt(s', y, k, v);
      if q :| HoldsAt(s, q, k, v) {
        assert q != x ==> HoldsAt(s', q, k, v);
      }
      if q :| HoldsAt(s', q, k, v) {
        assert q != x && q != y ==> HoldsAt(s, q, k, v);
      }
    }
  }

  lemma HasEntryConcat(a: seq<Entry>, b: seq<Entry>, k: Key, v: Value)
    ensures HasEntry(a + b, k, v) <==> HasEntry(a, k, v) || HasEntry(b, k, v)
  {
    var c := a + b;
    if t :| 0 <= t < |a| && a[t] == Entry(k, v) { assert c[t] == Entry(k, v); }
    if t :| 0 <= t < |b| && b[t] == Entry(k, v) { assert c[|a| + t] == Entry(k, v); }
    if t :| 0 <= t < |c| && c[t] == Entry(k, v) {
      assert if t < |a| then a[t] == Entry(k, v) else b[t - |a|] == Entry(k, v);
    }
  }

  /** Merges leaf `y`, in slot `j + 1` of their parent, into its left sibling `x`. */
  function LeafMerge(s: Shape, x: Pid, y: Pid, j: nat): Shape
    requires x in s.pages && s.pages[x].Leaf? && y in s.pages && s.pages[y].Leaf? && x in s.range && y in s.range
    requires s.pages[x].parent in s.pages && s.pages[s.pages[x].parent].Internal?
    requires j + 1 < |s.pages[s.pages[x].parent].slots|
  {
    var p := s.pages[x].parent;
    s.(pages := s.pages[x := Leaf(p, s.pages[y].next, s.pages[x].entries + s.pages[y].entries)]
                       [p := s.pages[p].(slots := RemoveSlot(s.pages[p].slots, j + 1))] - {y},
       range := s.range[x := s.range[x].(hi := s.range[y].hi)] - {y})
  }

  /** `x` and `y` are adjacent siblings, in slots `j` and `j + 1` of their parent. */
  ghost predicate Siblings(s: Shape, x: Pid, y: Pid, j: nat) {
    && Struct(s) && x in s.pages && y in s.pages && x != s.root && y != s.root
    && var p := s.pages[x].parent;
       && p in s.pages && s.pages[p].Internal? && s.pages[y].parent == p
       && j + 1 < |s.pages[p].slots| && s.pages[p].slots[j].child == x && s.pages[p].slots[j + 1].child == y
  }

  lemma SiblingsMeet(s: Shape, x: Pid, y: Pid, j: nat)
    requires Siblings(s, x, y, j)
    ensures var p := s.pages[x].parent;
            && x != y && x != p && y != p
            && s.range[x].hi == s.range[y].lo == s.pages[p].slots[j + 1].key
            && s.range[x].height == s.range[y].height == s.range[p].height - 1
            && (s.pages[x].Leaf? <==> s.pages[y].Leaf?)
            && s.range[x].lo < s.range[x].hi < s.range[y].hi
  {
    var p := s.pages[x].parent;
    assert NodeOk(s, p) && NodeOk(s, x) && NodeOk(s, y);
    assert ChildOk(s, p, s.range[p], s.pages[p].slots, j) && ChildOk(s, p, s.range[p], s.pages[p].slots, j + 1);
    SlotsDiffer(s, p, j, j + 1);
  }

  /** Only the left sibling's successor link points at `y`. */
  lemma OnePredecessor(s: Shape, x: Pid, y: Pid, q: Pid)
    requires Struct(s) && x in s.pages && s.pages[x].Leaf? && y in s.pages
    requires s.range[x].hi == s.range[y].lo < HIGH
    requires q in s.pages && s.pages[q].Leaf? && s.pages[q].next == y
    ensures q == x
  {
    assert NodeOk(s, x) && NodeOk(s, y) && NodeOk(s, q);
    if q != x { LevelsApart(s, x, q); }
  }

  lemma LeafMergeNode(s: Shape, x: Pid, y: Pid, j: nat, q: Pid)
    requires Siblings(s, x, y, j) && s.pages[x].Leaf? && s.pages[y].Leaf?
    requires q in LeafMerge(s, x, y, j).pages
    ensures NodeOk(LeafMerge(s, x, y, j), q)
  {
    var s', p := LeafMerge(s, x, y, j), s.pages[x].parent;
    SiblingsMeet(s, x, y, j);
    assert NodeOk(s, x) && NodeOk(s, y) && NodeOk(s, p);
    if q in {x, p} {
      SlotsRemoved(s, s', p, j, x, y);
      assert NodeOk(s, q);
    } else {
      LeafMergeElsewhere(s, x, y, j, q);
    }
  }

  lemma LeafMergeElsewhere(s: Shape, x: Pid, y: Pid, j: nat, q: Pid)
    requires Siblings(s, x, y, j) && s.pages[x].Leaf? && s.pages[y].Leaf?
    requires q in s.pages && q !in {x, y, s.pages[x].parent}
    ensures NodeOk(LeafMerge(s, x, y, j), q)
  {
    var s', p := LeafMerge(s, x, y, j), s.pages[x].parent;
    SiblingsMeet(s, x, y, j);
    assert NodeOk(s, x) && NodeOk(s, y) && NodeOk(s, q);
    if s.pages[q].Leaf? && s.pages[q].next == y { OnePredecessor(s, x, y, q); }
    assert Undisturbed(s, s', q);
    BodyKept(s, s', q);
    if s.pages[q].parent == p { SlotsRemoved(s, s', p, j, x, y); }
  }

  lemma LeafMergeOk(s: Shape, x: Pid, y: Pid, j: nat)
    requires Siblings(s, x, y, j) && s.pages[x].Leaf? && s.pages[y].Leaf?
    ensures Struct(LeafMerge(s, x, y, j))
    ensures forall k, v :: Holds(LeafMerge(s, x, y, j), k, v) <==> Holds(s, k, v)
  {
    var s' := LeafMerge(s, x, y, j);
    SiblingsMeet(s, x, y, j);
    assert NodeOk(s, x) && NodeOk(s, s.pages[x].parent);
    forall q | q in s'.pages ensures NodeOk(s', q) {
      LeafMergeNode(s, x, y, j, q);
    }
    forall k, v ensures Holds(s', k, v) <==> Holds(s, k, v) {
      HasEntryConcat(s.pages[x].entries, s.pages[y].entries, k, v);
      assert HoldsAt(s', x, k, v) <==> HoldsAt(s, x, k, v) || HoldsAt(s, y, k, v);
      if q :| HoldsAt(s, q, k, v) {
        assert q != x && q != y ==> HoldsAt(s', q, k, v);
      }
      if q :| HoldsAt(s', q, k, v) {
        assert q != x ==> HoldsAt(s, q, k, v);
      }
    }
  }

  // ---------------------------------------------------------------------
  // Internal pages
  // ---------------------------------------------------------------------

  /** Changing no leaf's entries changes nothing that is held. */
  lemma SameLeaves(s: Shape, s': Shape)
    requires forall q | q in s.pages && s.pages[q].Leaf? ::
               q in s'.pages && s'.pages[q].Leaf? && s'.pages[q].entries == s.pages[q].entries
    requires forall q | q in s'.pages && s'.pages[q].Leaf? ::
               q in s.pages && s.pages[q].Leaf? && s.pages[q].entries == s'.pages[q].entries
    ensures forall k, v :: Holds(s', k, v) <==> Holds(s, k, v)
  {
    forall k, v ensures Holds(s', k, v) <==> Holds(s, k, v) {
      if q :| HoldsAt(s, q, k, v) { assert HoldsAt(s', q, k, v); }
      if q :| HoldsAt(s', q, k, v) { assert HoldsAt(s, q, k, v); }
    }
  }

  /** The children in part of a page's slots. */
  lemma ChildrenOf(s: Shape, x: Pid, i: nat, ys: seq<Slot>, c: Pid)
    requires Struct(s) && x in s.pages && s.pages[x].Internal? && i <= |s.pages[x].slots|
    requires SameSlots(ys, s.pages[x].slots[i..]) && HasChild(ys, c)
    ensures c in s.pages && s.pages[c].parent == x && c != x && s.range[c].height == s.range[x].height - 1
    ensures c != s.root
  {
    var t :| 0 <= t < |ys| && ys[t].child == c;
    var slots := s.pages[x].slots;
    assert slots[i..][t] == slots[i + t];
    assert NodeOk(s, x);
    assert ChildOk(s, x, s.range[x], slots, i + t);
    assert NodeOk(s, c) && NodeOk(s, s.root);
  }

  /** Splits internal page `x` before its slot `i`; `y` takes the rest, `ys`. */
  ghost function InternalSplit(s: Shape, x: Pid, y: Pid, i: nat, j: nat, ys: seq<Slot>): Shape
    requires x in s.pages && x in s.range && s.pages[x].Internal? && 0 < i < |s.pages[x].slots|
    requires s.pages[x].parent in s.pages && s.pages[s.pages[x].parent].Internal?
    requires j < |s.pages[s.pages[x].parent].slots|
  {
    var Internal(p, xs) := s.pages[x];
    var m := xs[i].key;
    s.(pages := Reparent(s.pages, ys, y)[x := Internal(p, xs[..i])]
                                        [y := Internal(p, ys)]
                                        [p := s.pages[p].(slots := InsertSlot(s.pages[p].slots, j, Slot(m, y)))],
       range := s.range[x := s.range[x].(hi := m)][y := s.range[x].(lo := m)])
  }

  ghost predicate CanSplitInternal(s: Shape, x: Pid, y: Pid, i: nat, j: nat, ys: seq<Slot>) {
    && CanSplit(s, x, y, j) && s.pages[x].Internal?
    && 0 < i < |s.pages[x].slots| && SameSlots(ys, s.pages[x].slots[i..])
  }

  lemma SplitChild(s: Shape, x: Pid, y: Pid, i: nat, j: nat, ys: seq<Slot>, t: nat)
    requires CanSplitInternal(s, x, y, i, j, ys) && t < |s.pages[x].slots|
    ensures var s', xs := InternalSplit(s, x, y, i, j, ys), s.pages[x].slots;
            && (t < i ==> ChildOk(s', x, s'.range[x], xs[..i], t))
            && (t >= i ==> ChildOk(s', y, s'.range[y], ys, t - i))
  {
    var s' := InternalSplit(s, x, y, i, j, ys);
    var Internal(p, xs) := s.pages[x];
    assert NodeOk(s, x) && NodeOk(s, p);
    assert ChildOk(s, p, s.range[p], s.pages[p].slots, j);
    assert ChildOk(s, x, s.range[x], xs, t);
    var c := xs[t].child;
    assert NodeOk(s, c);
    assert HasChild(ys, c) <==> t >= i by {
      if t >= i { assert xs[i..][t - i] == xs[t] && ys[t - i].child == c; }
      if u :| 0 <= u < |ys| && ys[u].child == c {
        assert xs[i..][u] == xs[i + u];
        if i + u != t { SlotsDiffer(s, x, i + u, t); }
      }
    }
  }

  lemma MiddleWithin(s: Shape, x: Pid, i: nat)
    requires Struct(s) && x in s.pages && s.pages[x].Internal? && 0 < i < |s.pages[x].slots|
    ensures s.range[x].lo < s.pages[x].slots[i].key < s.range[x].hi
  {
    SlotWithin(s, x, i);
    SlotHead(s, x, i - 1);
  }

  lemma InternalSplitNode(s: Shape, x: Pid, y: Pid, i: nat, j: nat, ys: seq<Slot>, q: Pid)
    requires CanSplitInternal(s, x, y, i, j, ys) && q in InternalSplit(s, x, y, i, j, ys).pages
    ensures NodeOk(InternalSplit(s, x, y, i, j, ys), q)
  {
    var s' := InternalSplit(s, x, y, i, j, ys);
    var Internal(p, xs) := s.pages[x];
    assert NodeOk(s, x) && NodeOk(s, p);
    assert ChildOk(s, p, s.range[p], s.pages[p].slots, j);
    MiddleWithin(s, x, i);
    forall c | HasChild(ys, c) ensures c in s.pages && s.pages[c].parent == x && c != x && c != p && c != s.root {
      ChildrenOf(s, x, i, ys, c);
    }
    if q == p {
      assert NodeOk(s, q);
      SlotsInserted(s, s', p, j, x, y, xs[i].key);
    } else if q == x {
      SlotsInserted(s, s', p, j, x, y, xs[i].key);
      forall t | 0 <= t < i ensures ChildOk(s', x, s'.range[x], xs[..i], t) {
        SplitChild(s, x, y, i, j, ys, t);
      }
    } else if q == y {
      SlotsInserted(s, s', p, j, x, y, xs[i].key);
      forall t | 0 <= t < |ys| ensures ChildOk(s', y, s'.range[y], ys, t) {
        SplitChild(s, x, y, i, j, ys, i + t);
      }
    } else {
      InternalSplitElsewhere(s, x, y, i, j, ys, q);
    }
  }

  lemma InternalSplitElsewhere(s: Shape, x: Pid, y: Pid, i: nat, j: nat, ys: seq<Slot>, q: Pid)
    requires CanSplitInternal(s, x, y, i, j, ys) && q in s.pages && q !in {x, y, s.pages[x].parent}
    ensures NodeOk(InternalSplit(s, x, y, i, j, ys), q)
  {
    var s' := InternalSplit(s, x, y, i, j, ys);
    var Internal(p, xs) := s.pages[x];
    assert NodeOk(s, x) && NodeOk(s, p) && NodeOk(s, q);
    assert ChildOk(s, p, s.range[p], s.pages[p].slots, j);
    forall c | HasChild(ys, c) ensures c in s.pages && s.pages[c].parent == x && c != x && c != p && c != s.root {
      ChildrenOf(s, x, i, ys, c);
    }
    assert Undisturbed(s, s', q);
    BodyKept(s, s', q);
    if s.pages[q].parent == x {
      SplitParent(s, x, y, i, j, ys, q);
    } else if s.pages[q].parent == p {
      SlotsInserted(s, s', p, j, x, y, xs[i].key);
    }
  }

  /** A child of the split page is found under whichever half it went to. */
  lemma SplitParent(s: Shape, x: Pid, y: Pid, i: nat, j: nat, ys: seq<Slot>, c: Pid)
    requires CanSplitInternal(s, x, y, i, j, ys) && c in s.pages && s.pages[c].parent == x && c != s.root
    ensures HasChild(ys, c) || HasChild(s.pages[x].slots[..i], c)
  {
    assert NodeOk(s, c);
    var xs := s.pages[x].slots;
    var t :| 0 <= t < |xs| && xs[t].child == c;
    if t < i { assert xs[..i][t].child == c; } else { assert xs[i..][t - i] == xs[t] && ys[t - i].child == c; }
  }

  lemma InternalSplitOk(s: Shape, x: Pid, y: Pid, i: nat, j: nat, ys: seq<Slot>)
    requires CanSplitInternal(s, x, y, i, j, ys)
    ensures Struct(InternalSplit(s, x, y, i, j, ys))
    ensures forall k, v :: Holds(InternalSplit(s, x, y, i, j, ys), k, v) <==> Holds(s, k, v)
  {
    var s' := InternalSplit(s, x, y, i, j, ys);
    assert NodeOk(s, x) && NodeOk(s, s.pages[x].parent);
    forall q | q in s'.pages ensures NodeOk(s', q) {
      InternalSplitNode(s, x, y, i, j, ys, q);
    }
    InternalSplitHolds(s, x, y, i, j, ys);
  }

  lemma InternalSplitHolds(s: Shape, x: Pid, y: Pid, i: nat, j: nat, ys: seq<Slot>)
    requires CanSplitInternal(s, x, y, i, j, ys) && x in s.range
    ensures forall k, v :: Holds(InternalSplit(s, x, y, i, j, ys), k, v) <==> Holds(s, k, v)
  {
    SameLeaves(s, InternalSplit(s, x, y, i, j, ys));
  }

  /** Merges internal page `y` into its left sibling `x`, pulling their separator
      down from the parent. */
  ghost function InternalMerge(s: Shape, x: Pid, y: Pid, j: nat): Shape
    requires x in s.pages && s.pages[x].Internal? && y in s.pages && s.pages[y].Internal?
    requires x in s.range && y in s.range && s.pages[y].slots != []
    requires s.pages[x].parent in s.pages && s.pages[s.pages[x].parent].Internal?
    requires j + 1 < |s.pages[s.pages[x].parent].slots|
  {
    var Internal(p, xs) := s.pages[x];
    var ys, slots := s.pages[y].slots, s.pages[p].slots;
    s.(pages := Reparent(s.pages, ys, x)[x := Internal(p, Join(xs, slots[j + 1].key, ys))]
                                        [p := s.pages[p].(slots := RemoveSlot(slots, j + 1))] - {y},
       range := s.range[x := s.range[x].(hi := s.range[y].hi)] - {y})
  }

  ghost predicate CanMergeInternal(s: Shape, x: Pid, y: Pid, j: nat) {
    Siblings(s, x, y, j) && s.pages[x].Internal? && s.pages[y].Internal? && s.pages[y].slots != []
  }

  lemma ChildPointsBack(s: Shape, p: Pid, c: Pid)
    requires Struct(s) && p in s.pages && s.pages[p].Internal? && HasChild(s.pages[p].slots, c)
    ensures c in s.pages && s.pages[c].parent == p
  {
    var t :| 0 <= t < |s.pages[p].slots| && s.pages[p].slots[t].child == c;
    assert NodeOk(s, p);
    assert ChildOk(s, p, s.range[p], s.pages[p].slots, t);
  }

  lemma MergeChild(s: Shape, x: Pid, y: Pid, j: nat, t: nat)
    requires CanMergeInternal(s, x, y, j) && t < |s.pages[x].slots| + |s.pages[y].slots|
    ensures var s' := InternalMerge(s, x, y, j);
            x in s'.pages && x in s'.range && s'.pages[x].Internal? && t < |s'.pages[x].slots|
            && ChildOk(s', x, s'.range[x], s'.pages[x].slots, t)
  {
    var s', p := InternalMerge(s, x, y, j), s.pages[x].parent;
    var xs, ys := s.pages[x].slots, s.pages[y].slots;
    SiblingsMeet(s, x, y, j);
    assert NodeOk(s, x) && NodeOk(s, y) && NodeOk(s, p);
    var fs := Join(xs, s.pages[p].slots[j + 1].key, ys);
    assert s'.pages[x] == Internal(p, fs);
    var c := fs[t].child;
    if t < |xs| {
      assert fs[t] == xs[t];
      assert ChildOk(s, x, s.range[x], xs, t);
      if HasChild(ys, c) { ChildPointsBack(s, y, c); }
      if t == |xs| - 1 { assert fs[t + 1].key == s.range[x].hi; }
    } else {
      var u := t - |xs|;
      assert fs[t].child == ys[u].child && (u > 0 ==> fs[t] == ys[u]);
      assert ChildOk(s, y, s.range[y], ys, u);
      assert HasChild(ys, c);
      if u + 1 < |ys| { assert fs[t + 1] == ys[u + 1]; }
    }
    assert NodeOk(s, c);
  }

  lemma InternalMergeNode(s: Shape, x: Pid, y: Pid, j: nat, q: Pid)
    requires CanMergeInternal(s, x, y, j) && q in InternalMerge(s, x, y, j).pages
    ensures NodeOk(InternalMerge(s, x, y, j), q)
  {
    var s', p := InternalMerge(s, x, y, j), s.pages[x].parent;
    var xs, ys := s.pages[x].slots, s.pages[y].slots;
    SiblingsMeet(s, x, y, j);
    assert NodeOk(s, x) && NodeOk(s, y) && NodeOk(s, p);
    assert ys[0..] == ys;
    forall c | HasChild(ys, c) ensures c in s.pages && s.pages[c].parent == y && c != y && c != p && c != x && c != s.root {
      ChildrenOf(s, y, 0, ys, c);
    }
    if q == x {
      SlotsRemoved(s, s', p, j, x, y);
      forall t | 0 <= t < |xs| + |ys| ensures ChildOk(s', x, s'.range[x], s'.pages[x].slots, t) {
        MergeChild(s, x, y, j, t);
      }
    } else if q == p {
      SlotsRemoved(s, s', p, j, x, y);
      if q != s.root { var t := ParentSlot(s, q); }
    } else {
      InternalMergeElsewhere(s, x, y, j, q);
    }
  }

  lemma InternalMergeElsewhere(s: Shape, x: Pid, y: Pid, j: nat, q: Pid)
    requires CanMergeInternal(s, x, y, j) && q in s.pages && q !in {x, y, s.pages[x].parent}
    ensures NodeOk(InternalMerge(s, x, y, j), q)
  {
    var s', p := InternalMerge(s, x, y, j), s.pages[x].parent;
    var ys := s.pages[y].slots;
    SiblingsMeet(s, x, y, j);
    assert NodeOk(s, x) && NodeOk(s, y) && NodeOk(s, p) && NodeOk(s, q);
    assert ys[0..] == ys;
    forall c | HasChild(ys, c) ensures c in s.pages && s.pages[c].parent == y && c != y && c != p && c != x && c != s.root {
      ChildrenOf(s, y, 0, ys, c);
    }
    if q != s.root { var t := ParentSlot(s, q); }
    assert Undisturbed(s, s', q);
    BodyKept(s, s', q);
    if s.pages[q].parent == x || s.pages[q].parent == y {
      MergeParent(s, x, y, j, q);
    } else if s.pages[q].parent == p {
      SlotsRemoved(s, s', p, j, x, y);
    }
  }

  lemma MergeParent(s: Shape, x: Pid, y: Pid, j: nat, c: Pid)
    requires CanMergeInternal(s, x, y, j) && c in s.pages && c != s.root
    requires s.pages[c].parent == x || s.pages[c].parent == y
    ensures var fs := Join(s.pages[x].slots, s.pages[s.pages[x].parent].slots[j + 1].key, s.pages[y].slots);
            HasChild(fs, c) && (s.pages[c].parent == y ==> HasChild(s.pages[y].slots, c))
  {
    assert NodeOk(s, c);
    var xs, ys := s.pages[x].slots, s.pages[y].slots;
    var fs := Join(xs, s.pages[s.pages[x].parent].slots[j + 1].key, ys);
    if s.pages[c].parent == x {
      var t :| 0 <= t < |xs| && xs[t].child == c;
      assert fs[t].child == c;
    } else {
      var t :| 0 <= t < |ys| && ys[t].child == c;
      assert fs[|xs| + t].child == c;
    }
  }

  lemma InternalMergeStruct(s: Shape, x: Pid, y: Pid, j: nat)
    requires CanMergeInternal(s, x, y, j)
    ensures Struct(InternalMerge(s, x, y, j))
  {
    var s' := InternalMerge(s, x, y, j);
    SiblingsMeet(s, x, y, j);
    assert NodeOk(s, x) && NodeOk(s, s.pages[x].parent);
    forall q | q in s'.pages ensures NodeOk(s', q) {
      InternalMergeNode(s, x, y, j, q);
    }
  }

  lemma InternalMergeOk(s: Shape, x: Pid, y: Pid, j: nat)
    requires CanMergeInternal(s, x, y, j)
    ensures Struct(InternalMerge(s, x, y, j))
    ensures forall k, v :: Holds(InternalMerge(s, x, y, j), k, v) <==> Holds(s, k, v)
  {
    InternalMergeStruct(s, x, y, j);
    SameLeaves(s, InternalMerge(s, x, y, j));
  }

  // ---------------------------------------------------------------------
  // The root
  // ---------------------------------------------------------------------

  /** Puts a new root `z` on top, with the old root as its only child. */
  function Grow(s: Shape, z: Pid, key: Key): Shape
    requires s.root in s.pages && s.root in s.range
  {
    Shape(s.pages[s.root := s.pages[s.root].(parent := z)][z := Internal(INVALID_PAGE, [Slot(key, s.root)])],
          s.range[z := Range(LOW, HIGH, s.range[s.root].height + 1)],
          z)
  }

  lemma GrowOk(s: Shape, z: Pid, key: Key)
    requires Struct(s) && z >= 0 && z !in s.pages
    ensures Struct(Grow(s, z, key))
    ensures forall k, v :: Holds(Grow(s, z, key), k, v) <==> Holds(s, k, v)
  {
    var s' := Grow(s, z, key);
    assert NodeOk(s, s.root);
    forall q | q in s'.pages ensures NodeOk(s', q) {
      if q == z {
        assert ChildOk(s', z, s'.range[z], s'.pages[z].slots, 0);
      } else {
        assert NodeOk(s, q);
        if s.pages[q].Internal? {
          forall t | 0 <= t < |s.pages[q].slots| ensures s.pages[q].slots[t].child != s.root {
            assert ChildOk(s, q, s.range[q], s.pages[q].slots, t);
          }
        }
        assert Undisturbed(s, s', q);
        BodyKept(s, s', q);
        if q == s.root { assert s'.pages[z].slots[0].child == q; }
      }
    }
    SameLeaves(s, s');
  }

  /** Takes off a root that has only one child. */
  function Shrink(s: Shape): Shape
    requires s.root in s.pages && s.pages[s.root].Internal? && |s.pages[s.root].slots| == 1
    requires s.pages[s.root].slots[0].child in s.pages
  {
    var c := s.pages[s.root].slots[0].child;
    Shape(s.pages[c := s.pages[c].(parent := INVALID_PAGE)] - {s.root}, s.range - {s.root}, c)
  }

  lemma ShrinkOk(s: Shape)
    requires Struct(s) && s.pages[s.root].Internal? && |s.pages[s.root].slots| == 1
    ensures s.pages[s.root].slots[0].child in s.pages
    ensures Struct(Shrink(s))
    ensures forall k, v :: Holds(Shrink(s), k, v) <==> Holds(s, k, v)
  {
    var slots := s.pages[s.root].slots;
    var c := slots[0].child;
    assert NodeOk(s, s.root);
    assert ChildOk(s, s.root, s.range[s.root], slots, 0);
    assert NodeOk(s, c);
    var s' := Shrink(s);
    forall q | q in s'.pages ensures NodeOk(s', q) {
      assert NodeOk(s, q);
      if s.pages[q].Internal? {
        forall t | 0 <= t < |s.pages[q].slots| ensures s.pages[q].slots[t].child !in {s.root, c} {
          assert ChildOk(s, q, s.range[q], s.pages[q].slots, t);
        }
      }
      assert Undisturbed(s, s', q);
      BodyKept(s, s', q);
      if q != c {
        var t := ParentSlot(s, q);
        assert s.pages[q].parent == s.root ==> t == 0;
        assert NodeOk(s, s.pages[q].parent);
      }
    }
    SameLeaves(s, s');
  }
}

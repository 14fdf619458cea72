/**
 A B+-tree as a store of pages that refer to each other by page id.

 What makes the pages a tree is stated page by page. Each page is assigned the
 half-open range of keys it covers and its height; an internal page's slots cut
 its range into the ranges of its children, children point back at their parent,
 and a leaf's successor covers the range that starts where the leaf's ends.
 */
module BTreeShape {
  const LOW: int := -0x8000_0000_0000_0000
  const HIGH: int := 0x8000_0000_0000_0000

  type Key = k: int | LOW <= k < HIGH witness 0
  type Value = string
  type Pid = int

  const INVALID_PAGE: Pid := -1

  datatype Entry = Entry(key: Key, value: Value)

  /** The key of a page's first slot is a placeholder. */
  datatype Slot = Slot(key: Key, child: Pid)

  datatype Page =
    | Leaf(parent: Pid, next: Pid, entries: seq<Entry>)
    | Internal(parent: Pid, slots: seq<Slot>)

  datatype Range = Range(lo: int, hi: int, height: int)

  datatype Shape = Shape(pages: map<Pid, Page>, range: map<Pid, Range>, root: Pid)

  // ---------------------------------------------------------------------
  // The structural invariant
  // ---------------------------------------------------------------------

  function SlotLo(r: Range, slots: seq<Slot>, j: nat): int
    requires j < |slots|
  {
    if j == 0 then r.lo else slots[j].key
  }

  function SlotHi(r: Range, slots: seq<Slot>, j: nat): int
    requires j < |slots|
  {
    if j == |slots| - 1 then r.hi else slots[j + 1].key
  }

  /** The page in slot `j` of a page `p` with range `r` is there, covers the slot's
      range, and points back. */
  ghost predicate ChildOk(s: Shape, p: Pid, r: Range, slots: seq<Slot>, j: nat)
    requires j < |slots|
  {
    var c := slots[j].child;
    && c in s.pages && c in s.range && s.pages[c].parent == p
    && s.range[c] == Range(SlotLo(r, slots, j), SlotHi(r, slots, j), r.height - 1)
  }

  ghost predicate HasChild(slots: seq<Slot>, c: Pid) {
    exists j :: 0 <= j < |slots| && slots[j].child == c
  }

  ghost predicate ParentOk(s: Shape, p: Pid)
    requires p in s.pages
  {
    var q := s.pages[p].parent;
    if p == s.root then q == INVALID_PAGE
    else q in s.pages && s.pages[q].Internal? && HasChild(s.pages[q].slots, p)
  }

  predicate Sorted(es: seq<Entry>) {
    forall a, b | 0 <= a < b < |es| :: es[a].key < es[b].key
  }

  ghost predicate EntriesIn(es: seq<Entry>, r: Range) {
    Sorted(es) && forall a | 0 <= a < |es| :: r.lo <= es[a].key < r.hi
  }

  ghost predicate NextOk(s: Shape, r: Range, next: Pid) {
    if r.hi == HIGH then next == INVALID_PAGE
    else next in s.pages && s.pages[next].Leaf? && next in s.range && s.range[next].lo == r.hi
  }

  ghost predicate SlotsOk(s: Shape, p: Pid, r: Range, slots: seq<Slot>) {
    slots != [] && forall j {:trigger ChildOk(s, p, r, slots, j)} | 0 <= j < |slots| :: ChildOk(s, p, r, slots, j)
  }

  ghost predicate RangeOk(s: Shape, p: Pid)
    requires p in s.pages
  {
    && p >= 0 && p in s.range && s.root in s.range
    && LOW <= s.range[p].lo < s.range[p].hi <= HIGH
    && (s.range[p].height >= s.range[s.root].height ==> p == s.root)
    && if s.pages[p].Leaf? then s.range[p].height == 0 else s.range[p].height > 0
  }

  ghost predicate BodyOk(s: Shape, p: Pid)
    requires p in s.pages && p in s.range
  {
    match s.pages[p]
    case Leaf(_, next, es) => EntriesIn(es, s.range[p]) && NextOk(s, s.range[p], next)
    case Internal(_, slots) => SlotsOk(s, p, s.range[p], slots)
  }

  ghost predicate NodeOk(s: Shape, p: Pid)
    requires p in s.pages
  {
    RangeOk(s, p) && ParentOk(s, p) && BodyOk(s, p)
  }

  ghost predicate Struct(s: Shape) {
    && s.root in s.pages && s.root in s.range
    && s.range[s.root].lo == LOW && s.range[s.root].hi == HIGH
    && s.pages.Keys == s.range.Keys
    && forall p {:trigger NodeOk(s, p)} | p in s.pages :: NodeOk(s, p)
  }

  // ---------------------------------------------------------------------
  // Consequences
  // ---------------------------------------------------------------------

  /** The slots of a page cut its range into non-empty pieces. */
  lemma SlotWithin(s: Shape, p: Pid, j: nat)
    requires Struct(s) && p in s.pages && s.pages[p].Internal? && j < |s.pages[p].slots|
    ensures var r, slots := s.range[p], s.pages[p].slots;
            r.lo <= SlotLo(r, slots, j) < SlotHi(r, slots, j) <= r.hi
  {
    SlotHead(s, p, j);
    SlotTail(s, p, j);
  }

  lemma {:induction false} SlotHead(s: Shape, p: Pid, j: nat)
    requires Struct(s) && p in s.pages && s.pages[p].Internal? && j < |s.pages[p].slots|
    ensures var r, slots := s.range[p], s.pages[p].slots;
            r.lo <= SlotLo(r, slots, j) < SlotHi(r, slots, j)
  {
    var r, slots := s.range[p], s.pages[p].slots;
    assert NodeOk(s, p);
    assert ChildOk(s, p, r, slots, j);
    assert NodeOk(s, slots[j].child);
    if j > 0 { SlotHead(s, p, j - 1); }
  }

  lemma {:induction false} SlotTail(s: Shape, p: Pid, j: nat)
    requires Struct(s) && p in s.pages && s.pages[p].Internal? && j < |s.pages[p].slots|
    ensures var r, slots := s.range[p], s.pages[p].slots;
            SlotHi(r, slots, j) <= r.hi
    decreases |s.pages[p].slots| - j
  {
    var slots := s.pages[p].slots;
    if j < |slots| - 1 {
      SlotTail(s, p, j + 1);
      SlotHead(s, p, j + 1);
    }
  }

  lemma {:induction false} SlotsAscend(s: Shape, p: Pid, i: nat, j: nat)
    requires Struct(s) && p in s.pages && s.pages[p].Internal? && i < j < |s.pages[p].slots|
    ensures var r, slots := s.range[p], s.pages[p].slots;
            SlotHi(r, slots, i) <= SlotLo(r, slots, j)
    decreases j - i
  {
    if j > i + 1 {
      SlotsAscend(s, p, i, j - 1);
      SlotHead(s, p, j - 1);
    }
  }

  /** A page that is not the root sits in exactly one slot of its parent. */
  lemma ParentSlot(s: Shape, c: Pid) returns (j: nat)
    requires Struct(s) && c in s.pages && c != s.root
    ensures var q := s.pages[c].parent;
            && q in s.pages && s.pages[q].Internal? && q != c
            && j < |s.pages[q].slots| && s.pages[q].slots[j].child == c
            && ChildOk(s, q, s.range[q], s.pages[q].slots, j)
            && s.range[q].height == s.range[c].height + 1
  {
    assert NodeOk(s, c);
    var q := s.pages[c].parent;
    var i :| 0 <= i < |s.pages[q].slots| && s.pages[q].slots[i].child == c;
    assert NodeOk(s, q);
    assert ChildOk(s, q, s.range[q], s.pages[q].slots, i);
    j := i;
  }

  /** Different slots of a page hold different children. */
  lemma SlotsDiffer(s: Shape, p: Pid, i: nat, j: nat)
    requires Struct(s) && p in s.pages && s.pages[p].Internal?
    requires i < |s.pages[p].slots| && j < |s.pages[p].slots| && i != j
    ensures s.pages[p].slots[i].child != s.pages[p].slots[j].child
  {
    var r, slots := s.range[p], s.pages[p].slots;
    assert NodeOk(s, p);
    assert ChildOk(s, p, r, slots, i) && ChildOk(s, p, r, slots, j);
    SlotHead(s, p, i);
    SlotHead(s, p, j);
    if i < j { SlotsAscend(s, p, i, j); } else { SlotsAscend(s, p, j, i); }
  }

  ghost predicate Apart(a: Range, b: Range) {
    a.hi <= b.lo || b.hi <= a.lo
  }

  /** Pages of the same height cover disjoint ranges. */
  lemma {:induction false} LevelsApart(s: Shape, p: Pid, q: Pid)
    requires Struct(s) && p in s.pages && q in s.pages && p != q && s.range[p].height == s.range[q].height
    ensures Apart(s.range[p], s.range[q])
    decreases s.range[s.root].height - s.range[p].height
  {
    assert NodeOk(s, p) && NodeOk(s, q);
    var i := ParentSlot(s, p);
    var j := ParentSlot(s, q);
    var a, b := s.pages[p].parent, s.pages[q].parent;
    SlotWithin(s, a, i);
    SlotWithin(s, b, j);
    if a == b {
      if i < j { SlotsAscend(s, a, i, j); } else { SlotsAscend(s, a, j, i); }
    } else {
      assert NodeOk(s, a) && NodeOk(s, b);
      LevelsApart(s, a, b);
    }
  }

  // ---------------------------------------------------------------------
  // Contents
  // ---------------------------------------------------------------------

  ghost predicate HasEntry(es: seq<Entry>, k: Key, v: Value) {
    exists a :: 0 <= a < |es| && es[a] == Entry(k, v)
  }

  ghost predicate HoldsAt(s: Shape, p: Pid, k: Key, v: Value) {
    p in s.pages && s.pages[p].Leaf? && HasEntry(s.pages[p].entries, k, v)
  }

  ghost predicate Holds(s: Shape, k: Key, v: Value) {
    exists p :: HoldsAt(s, p, k, v)
  }

  /** The tree's leaves hold exactly the given map. */
  ghost predicate Represents(s: Shape, m: map<Key, Value>) {
    forall k, v {:trigger Holds(s, k, v)} :: Holds(s, k, v) <==> k in m && m[k] == v
  }

  /** An entry is in the leaf covering its key or nowhere. */
  lemma OnlyInItsLeaf(s: Shape, p: Pid, q: Pid, k: Key, v: Value)
    requires Struct(s) && p in s.pages && s.pages[p].Leaf? && s.range[p].lo <= k < s.range[p].hi
    requires HoldsAt(s, q, k, v)
    ensures q == p
  {
    assert NodeOk(s, p) && NodeOk(s, q);
    if q != p { LevelsApart(s, p, q); }
  }
}

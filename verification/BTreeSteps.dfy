/**
 The page updates of Insert and Remove, as the code writes them, related to the
 steps of the tree's shape: an upsert, a removal, halving a page, a new root,
 borrowing an entry or a child from a sibling.
 */
module BTreeSteps {
  import opened Common
  import opened BTreeShape
  import opened BTreeOps
  import opened BTreeSizes

  // ---------------------------------------------------------------------
  // Entries of a leaf
  // ---------------------------------------------------------------------

  /** The entries after writing `key` at its position `i`. */
  function Upserted(es: seq<Entry>, i: nat, key: Key, value: Value): seq<Entry>
    requires i <= |es|
  {
    if i < |es| && es[i].key == key then es[i := Entry(key, value)]
    else es[..i] + [Entry(key, value)] + es[i..]
  }

  lemma UpsertedOk(es: seq<Entry>, r: Range, i: nat, key: Key, value: Value)
    requires EntriesIn(es, r) && r.lo <= key < r.hi && i <= |es|
    requires (forall a | 0 <= a < i :: es[a].key < key) && forall a | i <= a < |es| :: key <= es[a].key
    ensures EntriesIn(Upserted(es, i, key, value), r)
    ensures forall k, v :: HasEntry(Upserted(es, i, key, value), k, v) <==>
                           if k == key then v == value else HasEntry(es, k, v)
    ensures |Upserted(es, i, key, value)| == |es| <==> exists v :: HasEntry(es, key, v)
  {
    var es' := Upserted(es, i, key, value);
    if i < |es| && es[i].key == key {
      assert HasEntry(es, key, es[i].value);
    }
    forall k, v ensures HasEntry(es', k, v) <==> if k == key then v == value else HasEntry(es, k, v) {
      UpsertedEntry(es, i, key, value, k, v);
    }
  }

  lemma UpsertedEntry(es: seq<Entry>, i: nat, key: Key, value: Value, k: Key, v: Value)
    requires Sorted(es) && i <= |es|
    requires (forall a | 0 <= a < i :: es[a].key < key) && forall a | i <= a < |es| :: key <= es[a].key
    ensures HasEntry(Upserted(es, i, key, value), k, v) <==> if k == key then v == value else HasEntry(es, k, v)
  {
    var es' := Upserted(es, i, key, value);
    var found := i < |es| && es[i].key == key;
    assert es'[i] == Entry(key, value);
    if k != key && HasEntry(es, k, v) {
      var a :| 0 <= a < |es| && es[a] == Entry(k, v);
      assert es'[if found || a < i then a else a + 1] == es[a];
    }
    if HasEntry(es', k, v) {
      var a :| 0 <= a < |es'| && es'[a] == Entry(k, v);
      if a != i { UpsertedFrom(es, i, key, value, a); }
    }
  }

  /** Every other entry was there before, under another key. */
  lemma UpsertedFrom(es: seq<Entry>, i: nat, key: Key, value: Value, a: nat)
    requires Sorted(es) && i <= |es| && a < |Upserted(es, i, key, value)| && a != i
    requires (forall a | 0 <= a < i :: es[a].key < key) && forall a | i <= a < |es| :: key <= es[a].key
    ensures var e := Upserted(es, i, key, value)[a]; e.key != key && HasEntry(es, e.key, e.value)
  {
    var found := i < |es| && es[i].key == key;
    var b := if found || a < i then a else a - 1;
    assert es[b] == Upserted(es, i, key, value)[a];
    if found && i < b { assert es[i].key < es[b].key; }
  }

  /** The entries after taking out position `i`. */
  function Removed(es: seq<Entry>, i: nat): seq<Entry>
    requires i < |es|
  {
    es[..i] + es[i + 1..]
  }

  lemma RemovedOk(es: seq<Entry>, r: Range, i: nat)
    requires EntriesIn(es, r) && i < |es|
    ensures EntriesIn(Removed(es, i), r)
    ensures forall k, v :: HasEntry(Removed(es, i), k, v) <==> k != es[i].key && HasEntry(es, k, v)
  {
    var es' := Removed(es, i);
    forall k, v ensures HasEntry(es', k, v) <==> k != es[i].key && HasEntry(es, k, v) {
      if a :| 0 <= a < |es'| && es'[a] == Entry(k, v) {
        assert es[if a < i then a else a + 1] == es'[a];
      }
      if a :| 0 <= a < |es| && es[a] == Entry(k, v) {
        assert a != i ==> es'[if a < i then a else a - 1] == es[a];
      }
    }
  }

  /** Changing the leaf that covers `key` changes what is held under `key` only. */
  lemma SetEntriesRepresents(s: Shape, x: Pid, es': seq<Entry>, m: map<Key, Value>, m': map<Key, Value>, key: Key)
    requires Struct(s) && Represents(s, m) && x in s.pages && s.pages[x].Leaf?
    requires s.range[x].lo <= key < s.range[x].hi
    requires forall k, v | k != key :: HasEntry(es', k, v) <==> HasEntry(s.pages[x].entries, k, v)
    requires forall v :: HasEntry(es', key, v) <==> key in m' && m'[key] == v
    requires forall k | k != key :: Get(m', k) == Get(m, k)
    ensures Represents(SetEntries(s, x, es'), m')
  {
    var s' := SetEntries(s, x, es');
    forall k: Key, v: Value ensures Holds(s', k, v) <==> k in m' && m'[k] == v {
      assert k != key ==> Get(m', k) == Get(m, k);
      assert Holds(s, k, v) <==> k in m && m[k] == v;
      if k == key {
        if q :| HoldsAt(s', q, k, v) {
          if q != x {
            assert HoldsAt(s, q, k, v);
            OnlyInItsLeaf(s, x, q, k, v);
          }
        }
        if HasEntry(es', k, v) { assert HoldsAt(s', x, k, v); }
      } else {
        if q :| HoldsAt(s, q, k, v) { assert HoldsAt(s', q, k, v); }
        if q :| HoldsAt(s', q, k, v) { assert HoldsAt(s, q, k, v); }
      }
    }
  }

  /** What the covering leaf says about a key is what the whole tree says. */
  lemma LeafDecides(s: Shape, x: Pid, m: map<Key, Value>, key: Key, i: nat)
    requires Struct(s) && Represents(s, m) && x in s.pages && s.pages[x].Leaf?
    requires s.range[x].lo <= key < s.range[x].hi && i <= |s.pages[x].entries|
    requires var es := s.pages[x].entries;
             (forall a | 0 <= a < i :: es[a].key < key) && forall a | i <= a < |es| :: key <= es[a].key
    ensures var es := s.pages[x].entries;
            Get(m, key) == if i < |es| && es[i].key == key then Some(es[i].value) else None
  {
    var es := s.pages[x].entries;
    assert NodeOk(s, x);
    if i < |es| && es[i].key == key {
      assert HoldsAt(s, x, key, es[i].value);
      assert Holds(s, key, es[i].value);
    } else if key in m {
      assert Holds(s, key, m[key]);
      var q :| HoldsAt(s, q, key, m[key]);
      OnlyInItsLeaf(s, x, q, key, m[key]);
    }
  }

  lemma SlotKeysAscend(s: Shape, p: Pid)
    requires Struct(s) && p in s.pages && s.pages[p].Internal?
    ensures s.pages[p].slots != []
    ensures forall a, b | 1 <= a < b < |s.pages[p].slots| :: s.pages[p].slots[a].key < s.pages[p].slots[b].key
  {
    assert NodeOk(s, p);
    forall a, b | 1 <= a < b < |s.pages[p].slots| ensures s.pages[p].slots[a].key < s.pages[p].slots[b].key {
      SlotHead(s, p, a);
      SlotsAscend(s, p, a, b);
    }
  }

  // ---------------------------------------------------------------------
  // Page moves
  // ---------------------------------------------------------------------

  /** The pages once the upper half of `x` has moved to `y`, the parent untold. */
  ghost function Halved(s: Shape, x: Pid, y: Pid): map<Pid, Page>
    requires x in s.pages
  {
    var i := Size(s.pages[x]) / 2;
    match s.pages[x]
    case Leaf(p, next, es) => s.pages[x := Leaf(p, y, es[..i])][y := Leaf(p, next, es[i..])]
    case Internal(p, xs) => Reparent(s.pages, xs[i..], y)[x := Internal(p, xs[..i])][y := Internal(p, xs[i..])]
  }

  ghost function MiddleKey(p: Page): Key
    requires Size(p) >= 2
  {
    if p.Leaf? then p.entries[|p.entries| / 2].key else p.slots[|p.slots| / 2].key
  }

  /** Telling the parent of a halved page completes the split. */
  lemma HalvedIsSplit(s: Shape, x: Pid, y: Pid, j: nat)
    requires CanSplit(s, x, y, j) && x in s.range && Size(s.pages[x]) >= 2
    ensures var p, h := s.pages[x].parent, Halved(s, x, y);
            && p in h && h[p] == s.pages[p]
            && h[p := s.pages[p].(slots := InsertSlot(s.pages[p].slots, j, Slot(MiddleKey(s.pages[x]), y)))]
               == Split(s, x, y, j).pages
  {
    var p, i := s.pages[x].parent, Size(s.pages[x]) / 2;
    var t := ParentSlot(s, x);
    assert NodeOk(s, p);
    if s.pages[x].Internal? {
      var ys := s.pages[x].slots[i..];
      if HasChild(ys, p) { ChildrenOf(s, x, i, ys, p); }
    }
  }

  /** A new root over a halved root. */
  lemma HalvedIsGrownSplit(s: Shape, y: Pid, z: Pid)
    requires Struct(s) && Size(s.pages[s.root]) >= 2 && y >= 0 && z >= 0 && y !in s.pages && z !in s.pages && y != z
    ensures s.root in s.range
    ensures var x, g, h := s.root, Grow(s, z, 0), Halved(s, s.root, y);
            && CanSplit(g, x, y, 0) && x in g.range && Size(g.pages[x]) >= 2
            && x in h && y in h
            && h[z := Internal(INVALID_PAGE, [Slot(0, x), Slot(MiddleKey(s.pages[x]), y)])]
                [x := h[x].(parent := z)][y := h[y].(parent := z)]
               == Split(g, x, y, 0).pages
  {
    var x, g := s.root, Grow(s, z, 0);
    GrowOk(s, z, 0);
    assert NodeOk(s, x);
    var i := Size(s.pages[x]) / 2;
    assert InsertSlot([Slot(0, x)], 0, Slot(MiddleKey(s.pages[x]), y)) == [Slot(0, x), Slot(MiddleKey(s.pages[x]), y)];
    if s.pages[x].Internal? {
      var ys := s.pages[x].slots[i..];
      forall c | HasChild(ys, c) ensures c in s.pages && c != x && c != z {
        ChildrenOf(s, x, i, ys, c);
      }
    }
  }

  lemma SplitWhere(s: Shape, x: Pid, y: Pid) returns (j: nat)
    requires Struct(s) && x in s.pages && x != s.root && y >= 0 && y !in s.pages
    ensures CanSplit(s, x, y, j)
  {
    j := ParentSlot(s, x);
  }

  lemma HasChildNext(slots: seq<Slot>, j: nat, q: Pid)
    requires j < |slots|
    ensures HasChild(slots[..j + 1], q) <==> q == slots[j].child || HasChild(slots[..j], q)
  {
    var now, next := slots[..j], slots[..j + 1];
    assert next == now + [slots[j]];
    assert next[j].child == slots[j].child;
    if HasChild(now, q) {
      var t :| 0 <= t < |now| && now[t].child == q;
      assert next[t].child == q;
    }
  }

  lemma NotOverfull(c: Limits, s: Shape, x: Pid)
    requires Sized(c, s, x, INVALID_PAGE) && x in s.pages && Size(s.pages[x]) <= MaxSize(c, s.pages[x])
    ensures Sized(c, s, INVALID_PAGE, INVALID_PAGE)
  {
    assert SizeOk(c, s, x, x, INVALID_PAGE);
    SizedExcept(c, s, s, x, INVALID_PAGE, INVALID_PAGE, INVALID_PAGE, {x});
  }

  /** An upsert in the covering leaf is an upsert in the map; the leaf may come to hold
      one entry too many. */
  lemma UpsertedInTree(c: Limits, s: Shape, x: Pid, i: nat, key: Key, value: Value, m: map<Key, Value>)
    requires LimitsOk(c) && Struct(s) && Sized(c, s, INVALID_PAGE, INVALID_PAGE) && Represents(s, m)
    requires x in s.pages && s.pages[x].Leaf? && s.range[x].lo <= key < s.range[x].hi && i <= |s.pages[x].entries|
    requires var es := s.pages[x].entries;
             (forall a | 0 <= a < i :: es[a].key < key) && forall a | i <= a < |es| :: key <= es[a].key
    ensures var es, es' := s.pages[x].entries, Upserted(s.pages[x].entries, i, key, value);
            var s' := SetEntries(s, x, es');
            && Struct(s') && Represents(s', m[key := value])
            && |es'| == |es| + (if key in m then 0 else 1) && |es'| <= c.leafMax + 1
            && Sized(c, s', if |es'| > c.leafMax then x else INVALID_PAGE, INVALID_PAGE)
  {
    var es := s.pages[x].entries;
    var es' := Upserted(es, i, key, value);
    assert NodeOk(s, x);
    assert SizeOk(c, s, x, INVALID_PAGE, INVALID_PAGE);
    LeafDecides(s, x, m, key, i);
    UpsertedOk(es, s.range[x], i, key, value);
    SetEntriesOk(s, x, es');
    SetEntriesRepresents(s, x, es', m, m[key := value], key);
    UpsertedSized(c, s, x, es');
  }

  lemma UpsertedSized(c: Limits, s: Shape, x: Pid, es: seq<Entry>)
    requires LimitsOk(c) && Struct(s) && Sized(c, s, INVALID_PAGE, INVALID_PAGE)
    requires x in s.pages && s.pages[x].Leaf? && |s.pages[x].entries| <= |es| <= |s.pages[x].entries| + 1
    ensures Sized(c, SetEntries(s, x, es), if |es| > c.leafMax then x else INVALID_PAGE, INVALID_PAGE)
  {
    assert SizeOk(c, s, x, INVALID_PAGE, INVALID_PAGE);
    NoInvalidPage(s);
    SizedExcept(c, s, SetEntries(s, x, es), INVALID_PAGE, INVALID_PAGE,
                if |es| > c.leafMax then x else INVALID_PAGE, INVALID_PAGE, {x});
  }

  // ---------------------------------------------------------------------
  // Borrowing
  // ---------------------------------------------------------------------

  /** `ys` with `c` put in front; the separator becomes the key of what was first. */
  function Fronted(ys: seq<Slot>, c: Pid, sep: Key): seq<Slot>
    requires ys != []
  {
    [Slot(ys[0].key, c), Slot(sep, ys[0].child)] + ys[1..]
  }

  /** Moving the last entry of a leaf to its right sibling. */
  ghost function LeafBorrowLeft(s: Shape, x: Pid, y: Pid, j: nat): map<Pid, Page>
    requires Siblings(s, x, y, j) && s.pages[x].Leaf? && s.pages[y].Leaf? && s.pages[x].entries != []
  {
    var p, xs, ys := s.pages[x].parent, s.pages[x].entries, s.pages[y].entries;
    var last := xs[|xs| - 1];
    s.pages[x := s.pages[x].(entries := xs[..|xs| - 1])][y := s.pages[y].(entries := [last] + ys)]
           [p := s.pages[p].(slots := s.pages[p].slots[j + 1 := Slot(last.key, y)])]
  }

  ghost function LeafBorrowRight(s: Shape, x: Pid, y: Pid, j: nat): map<Pid, Page>
    requires Siblings(s, x, y, j) && s.pages[x].Leaf? && s.pages[y].Leaf? && |s.pages[y].entries| >= 2
  {
    var p, xs, ys := s.pages[x].parent, s.pages[x].entries, s.pages[y].entries;
    s.pages[x := s.pages[x].(entries := xs + [ys[0]])][y := s.pages[y].(entries := ys[1..])]
           [p := s.pages[p].(slots := s.pages[p].slots[j + 1 := Slot(ys[1].key, y)])]
  }

  ghost function InternalBorrowLeft(s: Shape, x: Pid, y: Pid, j: nat): map<Pid, Page>
    requires CanMergeInternal(s, x, y, j) && |s.pages[x].slots| >= 2
  {
    var p, xs, ys := s.pages[x].parent, s.pages[x].slots, s.pages[y].slots;
    var slots, last := s.pages[p].slots, xs[|xs| - 1];
    Reparent(s.pages, [last], y)[x := Internal(p, xs[..|xs| - 1])][y := Internal(p, Fronted(ys, last.child, slots[j + 1].key))]
           [p := s.pages[p].(slots := slots[j + 1 := Slot(last.key, y)])]
  }

  ghost function InternalBorrowRight(s: Shape, x: Pid, y: Pid, j: nat): map<Pid, Page>
    requires CanMergeInternal(s, x, y, j) && |s.pages[y].slots| >= 2
  {
    var p, xs, ys := s.pages[x].parent, s.pages[x].slots, s.pages[y].slots;
    var slots := s.pages[p].slots;
    Reparent(s.pages, [ys[0]], x)[x := Internal(p, xs + [Slot(slots[j + 1].key, ys[0].child)])][y := Internal(p, ys[1..])]
           [p := s.pages[p].(slots := slots[j + 1 := Slot(ys[1].key, y)])]
  }

  lemma SlotReplaced(slots: seq<Slot>, j: nat, sl: Slot)
    requires j + 1 < |slots|
    ensures InsertSlot(RemoveSlot(slots, j + 1), j, sl) == slots[j + 1 := sl]
  {
  }

  /** A leaf links to its right sibling. */
  lemma LinkedToSibling(s: Shape, x: Pid, y: Pid, j: nat)
    requires Siblings(s, x, y, j) && s.pages[x].Leaf?
    ensures s.pages[x].next == y
  {
    SiblingsMeet(s, x, y, j);
    assert NodeOk(s, x) && NodeOk(s, y);
    var next := s.pages[x].next;
    assert NodeOk(s, next);
    if next != y { LevelsApart(s, next, y); }
  }

  lemma LeafBorrowLeftIsShare(s: Shape, x: Pid, y: Pid, j: nat)
    requires Siblings(s, x, y, j) && s.pages[x].Leaf? && s.pages[y].Leaf? && |s.pages[x].entries| >= 2
    ensures x in s.range && y in s.range
    ensures Share(s, x, y, j, |s.pages[x].entries| - 1, []).pages == LeafBorrowLeft(s, x, y, j)
  {
    var p, xs, ys := s.pages[x].parent, s.pages[x].entries, s.pages[y].entries;
    SiblingsMeet(s, x, y, j);
    LinkedToSibling(s, x, y, j);
    var i, all := |xs| - 1, xs + ys;
    assert all[..i] == xs[..i] && all[i..] == [xs[i]] + ys && all[i] == xs[i];
    SlotReplaced(s.pages[p].slots, j, Slot(xs[i].key, y));
  }

  lemma LeafBorrowRightIsShare(s: Shape, x: Pid, y: Pid, j: nat)
    requires Siblings(s, x, y, j) && s.pages[x].Leaf? && s.pages[y].Leaf? && |s.pages[y].entries| >= 2
    ensures x in s.range && y in s.range
    ensures Share(s, x, y, j, |s.pages[x].entries| + 1, []).pages == LeafBorrowRight(s, x, y, j)
  {
    var p, xs, ys := s.pages[x].parent, s.pages[x].entries, s.pages[y].entries;
    SiblingsMeet(s, x, y, j);
    LinkedToSibling(s, x, y, j);
    var i, all := |xs| + 1, xs + ys;
    assert all[..i] == xs + [ys[0]] && all[i..] == ys[1..] && all[i] == ys[1];
    SlotReplaced(s.pages[p].slots, j, Slot(ys[1].key, y));
  }

  /** Children of two siblings are neither of the two, nor their parent. */
  lemma ChildOfSibling(s: Shape, x: Pid, y: Pid, j: nat, w: Pid, c: Pid)
    requires CanMergeInternal(s, x, y, j) && w in {x, y} && HasChild(s.pages[w].slots, c)
    ensures c in s.pages && c !in {x, y, s.pages[x].parent} && s.pages[c].parent == w
  {
    SiblingsMeet(s, x, y, j);
    var t :| 0 <= t < |s.pages[w].slots| && s.pages[w].slots[t].child == c;
    assert NodeOk(s, w);
    assert ChildOk(s, w, s.range[w], s.pages[w].slots, t);
  }

  /** What sharing does to a page that is neither of the siblings, nor their parent. */
  lemma SharedPage(s: Shape, x: Pid, y: Pid, j: nat, i: nat, zs: seq<Slot>, q: Pid)
    requires CanMergeInternal(s, x, y, j) && 0 < i < |s.pages[x].slots| + |s.pages[y].slots|
    requires q in s.pages && q !in {x, y, s.pages[x].parent}
    ensures x in s.range && y in s.range && q in Share(s, x, y, j, i, zs).pages
    ensures Share(s, x, y, j, i, zs).pages[q]
            == if HasChild(zs, q) then s.pages[q].(parent := y)
               else if HasChild(s.pages[y].slots, q) then s.pages[q].(parent := x)
               else s.pages[q]
  {
    SiblingsMeet(s, x, y, j);
    MergeOk(s, x, y, j);
  }

  lemma FrontedIsJoinTail(xs: seq<Slot>, sep: Key, ys: seq<Slot>)
    requires xs != [] && ys != []
    ensures var all, i := Join(xs, sep, ys), |xs| - 1;
            all[..i] == xs[..i] && all[i] == xs[i] && SameSlots(Fronted(ys, xs[i].child, sep), all[i..])
  {
  }

  lemma InternalBorrowLeftIsShare(s: Shape, x: Pid, y: Pid, j: nat)
    requires CanMergeInternal(s, x, y, j) && |s.pages[x].slots| >= 2
    ensures x in s.range && y in s.range
    ensures var p, xs, ys := s.pages[x].parent, s.pages[x].slots, s.pages[y].slots;
            var sep, i := s.pages[p].slots[j + 1].key, |xs| - 1;
            var zs := Fronted(ys, xs[i].child, sep);
            && SameSlots(zs, Join(xs, sep, ys)[i..])
            && Share(s, x, y, j, i, zs).pages == InternalBorrowLeft(s, x, y, j)
  {
    var p, xs, ys := s.pages[x].parent, s.pages[x].slots, s.pages[y].slots;
    var sep, i := s.pages[p].slots[j + 1].key, |xs| - 1;
    var zs, all := Fronted(ys, xs[i].child, sep), Join(xs, sep, ys);
    SiblingsMeet(s, x, y, j);
    MergeOk(s, x, y, j);
    FrontedIsJoinTail(xs, sep, ys);
    SlotReplaced(s.pages[p].slots, j, Slot(xs[i].key, y));
    forall q | q in s.pages && q !in {x, y, p}
      ensures Share(s, x, y, j, i, zs).pages[q] == InternalBorrowLeft(s, x, y, j)[q]
    {
      BorrowedLeftChild(s, x, y, j, q);
    }
  }

  lemma BorrowedLeftChild(s: Shape, x: Pid, y: Pid, j: nat, q: Pid)
    requires CanMergeInternal(s, x, y, j) && |s.pages[x].slots| >= 2
    requires q in s.pages && q !in {x, y, s.pages[x].parent}
    ensures x in s.range && y in s.range
    ensures var p, xs, ys := s.pages[x].parent, s.pages[x].slots, s.pages[y].slots;
            var sep, i := s.pages[p].slots[j + 1].key, |xs| - 1;
            Share(s, x, y, j, i, Fronted(ys, xs[i].child, sep)).pages[q] == InternalBorrowLeft(s, x, y, j)[q]
  {
    var p, xs, ys := s.pages[x].parent, s.pages[x].slots, s.pages[y].slots;
    var sep, i := s.pages[p].slots[j + 1].key, |xs| - 1;
    var zs := Fronted(ys, xs[i].child, sep);
    SiblingsMeet(s, x, y, j);
    SharedPage(s, x, y, j, i, zs, q);
    assert HasChild(zs, q) <==> q == xs[i].child || HasChild(ys, q) by {
      assert zs[0].child == xs[i].child && zs[1].child == ys[0].child;
      if t :| 0 <= t < |ys| && ys[t].child == q { assert zs[t + 1].child == q; }
      if t :| 0 <= t < |zs| && zs[t].child == q { assert t > 0 ==> ys[t - 1].child == q; }
    }
    assert [xs[i]][0].child == xs[i].child;
    assert HasChild([xs[i]], q) <==> q == xs[i].child;
    if HasChild(ys, q) { ChildOfSibling(s, x, y, j, y, q); }
    if q == xs[i].child { ChildOfSibling(s, x, y, j, x, q); }
  }

  lemma InternalBorrowRightIsShare(s: Shape, x: Pid, y: Pid, j: nat)
    requires CanMergeInternal(s, x, y, j) && |s.pages[y].slots| >= 2
    ensures x in s.range && y in s.range
    ensures var p, xs, ys := s.pages[x].parent, s.pages[x].slots, s.pages[y].slots;
            var sep, i := s.pages[p].slots[j + 1].key, |xs| + 1;
            && SameSlots(ys[1..], Join(xs, sep, ys)[i..])
            && Share(s, x, y, j, i, ys[1..]).pages == InternalBorrowRight(s, x, y, j)
  {
    var p, xs, ys := s.pages[x].parent, s.pages[x].slots, s.pages[y].slots;
    var sep, i := s.pages[p].slots[j + 1].key, |xs| + 1;
    var all := Join(xs, sep, ys);
    SiblingsMeet(s, x, y, j);
    MergeOk(s, x, y, j);
    assert all[..i] == xs + [Slot(sep, ys[0].child)] && all[i] == ys[1];
    SlotReplaced(s.pages[p].slots, j, Slot(ys[1].key, y));
    forall q | q in s.pages && q !in {x, y, p}
      ensures Share(s, x, y, j, i, ys[1..]).pages[q] == InternalBorrowRight(s, x, y, j)[q]
    {
      BorrowedRightChild(s, x, y, j, q);
    }
  }

  lemma BorrowedRightChild(s: Shape, x: Pid, y: Pid, j: nat, q: Pid)
    requires CanMergeInternal(s, x, y, j) && |s.pages[y].slots| >= 2
    requires q in s.pages && q !in {x, y, s.pages[x].parent}
    ensures x in s.range && y in s.range
    ensures Share(s, x, y, j, |s.pages[x].slots| + 1, s.pages[y].slots[1..]).pages[q] == InternalBorrowRight(s, x, y, j)[q]
  {
    var xs, ys := s.pages[x].slots, s.pages[y].slots;
    SiblingsMeet(s, x, y, j);
    SharedPage(s, x, y, j, |xs| + 1, ys[1..], q);
    assert [ys[0]][0].child == ys[0].child;
    assert HasChild([ys[0]], q) <==> q == ys[0].child;
    TailChildren(s, y, q);
    if HasChild(ys, q) { ChildOfSibling(s, x, y, j, y, q); }
  }

  lemma TailChildren(s: Shape, y: Pid, q: Pid)
    requires Struct(s) && y in s.pages && s.pages[y].Internal? && s.pages[y].slots != []
    ensures var ys := s.pages[y].slots;
            && (HasChild(ys, q) <==> q == ys[0].child || HasChild(ys[1..], q))
            && !(q == ys[0].child && HasChild(ys[1..], q))
  {
    var ys := s.pages[y].slots;
    if t :| 0 <= t < |ys| && ys[t].child == q {
      assert t > 0 ==> ys[1..][t - 1].child == q;
    }
    if t :| 0 <= t < |ys[1..]| && ys[1..][t].child == q {
      assert ys[t + 1].child == q;
      SlotsDiffer(s, y, 0, t + 1);
    }
  }

  // ---------------------------------------------------------------------
  // Removal
  // ---------------------------------------------------------------------

  /** Taking an entry out of a leaf removes its key from the map; the leaf may come to
      hold one entry too few. */
  lemma RemovedInTree(c: Limits, s: Shape, x: Pid, i: nat, m: map<Key, Value>)
    requires LimitsOk(c) && Struct(s) && Sized(c, s, INVALID_PAGE, INVALID_PAGE) && Represents(s, m)
    requires x in s.pages && s.pages[x].Leaf? && i < |s.pages[x].entries|
    ensures var s' := SetEntries(s, x, Removed(s.pages[x].entries, i));
            && Struct(s') && Represents(s', m - {s.pages[x].entries[i].key})
            && Sized(c, s', INVALID_PAGE, x)
  {
    var es := s.pages[x].entries;
    var es', key := Removed(es, i), es[i].key;
    assert NodeOk(s, x);
    RemovedOk(es, s.range[x], i);
    SetEntriesOk(s, x, es');
    SetEntriesRepresents(s, x, es', m, m - {key}, key);
    assert SizeOk(c, s, x, INVALID_PAGE, INVALID_PAGE);
    NoInvalidPage(s);
    SizedExcept(c, s, SetEntries(s, x, es'), INVALID_PAGE, INVALID_PAGE, INVALID_PAGE, x, {x});
  }

  lemma NotUnderfull(c: Limits, s: Shape, x: Pid)
    requires Sized(c, s, INVALID_PAGE, x) && x in s.pages
    requires Size(s.pages[x]) >= if x == s.root then (if s.pages[x].Leaf? then 1 else 2) else MinSize(c, s.pages[x])
    ensures Sized(c, s, INVALID_PAGE, INVALID_PAGE)
  {
    assert SizeOk(c, s, x, INVALID_PAGE, x);
    SizedExcept(c, s, s, INVALID_PAGE, x, INVALID_PAGE, INVALID_PAGE, {x});
  }

  lemma HeldSomewhere(s: Shape, m: map<Key, Value>, k: Key) returns (p: Pid)
    requires Represents(s, m) && k in m
    ensures HoldsAt(s, p, k, m[k])
  {
    assert Holds(s, k, m[k]);
    p :| HoldsAt(s, p, k, m[k]);
  }

  /** A root leaf without entries is all there is, and holds nothing. */
  lemma NothingLeft(s: Shape, m: map<Key, Value>)
    requires Struct(s) && Represents(s, m) && s.pages[s.root].Leaf? && s.pages[s.root].entries == []
    ensures s.pages - {s.root} == map[] && s.range - {s.root} == map[] && m == map[]
  {
    assert NodeOk(s, s.root);
    forall p | p in s.pages ensures p == s.root {
      assert NodeOk(s, p);
    }
    forall k | k in m ensures false {
      var p := HeldSomewhere(s, m, k);
    }
  }

  /** An underfull page that is not the root has a sibling on one side at least. */
  lemma HasSibling(c: Limits, s: Shape, x: Pid, j: nat)
    requires LimitsOk(c) && Struct(s) && Sized(c, s, INVALID_PAGE, x) && x in s.pages && x != s.root
    requires s.pages[x].parent in s.pages && s.pages[s.pages[x].parent].Internal?
    requires j < |s.pages[s.pages[x].parent].slots| && s.pages[s.pages[x].parent].slots[j].child == x
    ensures |s.pages[s.pages[x].parent].slots| >= 2 && Size(s.pages[x]) >= MinSize(c, s.pages[x]) - 1
    ensures j > 0 ==>
              var y := s.pages[s.pages[x].parent].slots[j - 1].child;
              Siblings(s, y, x, j - 1) && (s.pages[y].Leaf? <==> s.pages[x].Leaf?) && Size(s.pages[y]) >= MinSize(c, s.pages[y])
    ensures j + 1 < |s.pages[s.pages[x].parent].slots| ==>
              var y := s.pages[s.pages[x].parent].slots[j + 1].child;
              Siblings(s, x, y, j) && (s.pages[y].Leaf? <==> s.pages[x].Leaf?) && Size(s.pages[y]) >= MinSize(c, s.pages[y])
  {
    var p := s.pages[x].parent;
    var slots := s.pages[p].slots;
    var _ := ParentSlot(s, x);
    assert SizeOk(c, s, p, INVALID_PAGE, x) && SizeOk(c, s, x, INVALID_PAGE, x);
    assert NodeOk(s, p) && NodeOk(s, s.root);
    if j > 0 {
      var y := slots[j - 1].child;
      assert ChildOk(s, p, s.range[p], slots, j - 1);
      SlotsDiffer(s, p, j - 1, j);
      SiblingsMeet(s, y, x, j - 1);
      assert SizeOk(c, s, y, INVALID_PAGE, x);
    }
    if j + 1 < |slots| {
      var y := slots[j + 1].child;
      assert ChildOk(s, p, s.range[p], slots, j + 1);
      SlotsDiffer(s, p, j, j + 1);
      SiblingsMeet(s, x, y, j);
      assert SizeOk(c, s, y, INVALID_PAGE, x);
    }
  }

  ghost predicate CanBorrow(s: Shape, x: Pid, y: Pid, j: nat) {
    && Siblings(s, x, y, j) && (s.pages[x].Leaf? <==> s.pages[y].Leaf?)
    && Size(s.pages[x]) >= 1 && Size(s.pages[y]) >= 1
  }

  ghost function BorrowLeft(s: Shape, x: Pid, y: Pid, j: nat): map<Pid, Page>
    requires CanBorrow(s, x, y, j) && Size(s.pages[x]) >= 2
  {
    if s.pages[x].Leaf? then LeafBorrowLeft(s, x, y, j) else InternalBorrowLeft(s, x, y, j)
  }

  ghost function BorrowRight(s: Shape, x: Pid, y: Pid, j: nat): map<Pid, Page>
    requires CanBorrow(s, x, y, j) && Size(s.pages[y]) >= 2
  {
    if s.pages[x].Leaf? then LeafBorrowRight(s, x, y, j) else InternalBorrowRight(s, x, y, j)
  }

  /** Borrowing from the left mends the tree. */
  lemma BorrowLeftOk(c: Limits, s: Shape, x: Pid, y: Pid, j: nat) returns (s': Shape)
    requires LimitsOk(c) && Sized(c, s, INVALID_PAGE, y) && CanBorrow(s, x, y, j)
    requires Size(s.pages[x]) > MinSize(c, s.pages[x]) && Size(s.pages[y]) == MinSize(c, s.pages[y]) - 1
    ensures s'.pages == BorrowLeft(s, x, y, j) && s'.root == s.root
    ensures Struct(s') && Sized(c, s', INVALID_PAGE, INVALID_PAGE)
    ensures forall k, v :: Holds(s', k, v) <==> Holds(s, k, v)
  {
    MergeReady(s, x, y, j);
    assert SizeOk(c, s, x, INVALID_PAGE, y);
    var i := Size(s.pages[x]) - 1;
    if s.pages[x].Leaf? {
      LeafBorrowLeftIsShare(s, x, y, j);
      ShareOk(c, s, x, y, j, i, [], y);
      s' := Share(s, x, y, j, i, []);
    } else {
      s' := BorrowLeftChild(c, s, x, y, j);
    }
  }

  lemma BorrowLeftChild(c: Limits, s: Shape, x: Pid, y: Pid, j: nat) returns (s': Shape)
    requires LimitsOk(c) && Sized(c, s, INVALID_PAGE, y) && CanMergeInternal(s, x, y, j)
    requires Size(s.pages[x]) > MinSize(c, s.pages[x]) && Size(s.pages[y]) == MinSize(c, s.pages[y]) - 1
    ensures s'.pages == InternalBorrowLeft(s, x, y, j) && s'.root == s.root
    ensures Struct(s') && Sized(c, s', INVALID_PAGE, INVALID_PAGE)
    ensures forall k, v :: Holds(s', k, v) <==> Holds(s, k, v)
  {
    MergeReady(s, x, y, j);
    assert SizeOk(c, s, x, INVALID_PAGE, y);
    var i := Size(s.pages[x]) - 1;
    var zs := Fronted(s.pages[y].slots, s.pages[x].slots[i].child, s.pages[s.pages[x].parent].slots[j + 1].key);
    InternalBorrowLeftIsShare(s, x, y, j);
    ShareOk(c, s, x, y, j, i, zs, y);
    s' := Share(s, x, y, j, i, zs);
  }

  lemma BorrowRightOk(c: Limits, s: Shape, x: Pid, y: Pid, j: nat) returns (s': Shape)
    requires LimitsOk(c) && Sized(c, s, INVALID_PAGE, x) && CanBorrow(s, x, y, j)
    requires Size(s.pages[y]) > MinSize(c, s.pages[y]) && Size(s.pages[x]) == MinSize(c, s.pages[x]) - 1
    ensures s'.pages == BorrowRight(s, x, y, j) && s'.root == s.root
    ensures Struct(s') && Sized(c, s', INVALID_PAGE, INVALID_PAGE)
    ensures forall k, v :: Holds(s', k, v) <==> Holds(s, k, v)
  {
    MergeReady(s, x, y, j);
    assert SizeOk(c, s, y, INVALID_PAGE, x);
    var i := Size(s.pages[x]) + 1;
    if s.pages[x].Leaf? {
      LeafBorrowRightIsShare(s, x, y, j);
      ShareOk(c, s, x, y, j, i, [], x);
      s' := Share(s, x, y, j, i, []);
    } else {
      InternalBorrowRightIsShare(s, x, y, j);
      ShareOk(c, s, x, y, j, i, s.pages[y].slots[1..], x);
      s' := Share(s, x, y, j, i, s.pages[y].slots[1..]);
    }
  }

  // ---------------------------------------------------------------------
  // The leaf chain
  // ---------------------------------------------------------------------

  lemma EntryOf(s: Shape, p: Pid, m: map<Key, Value>, k: Key) returns (a: nat)
    requires Struct(s) && Represents(s, m) && p in s.pages && s.pages[p].Leaf?
    requires k in m && s.range[p].lo <= k < s.range[p].hi
    ensures a < |s.pages[p].entries| && s.pages[p].entries[a] == Entry(k, m[k])
  {
    var q := HeldSomewhere(s, m, k);
    OnlyInItsLeaf(s, p, q, k, m[k]);
    a :| 0 <= a < |s.pages[p].entries| && s.pages[p].entries[a] == Entry(k, m[k]);
  }

  /** From a leaf where the entries from `i` on are those not below `from`: the first
      key not below `from` is at `i`, or failing that heads the next leaf. */
  lemma FirstInChain(s: Shape, m: map<Key, Value>, p: Pid, i: nat, from: int, k: Key)
    requires Struct(s) && Represents(s, m) && p in s.pages && s.pages[p].Leaf? && i <= |s.pages[p].entries|
    requires s.range[p].lo <= from <= s.range[p].hi
    requires forall a | 0 <= a < i :: s.pages[p].entries[a].key < from
    requires k in m && from <= k
    requires forall q | q in s.pages && s.pages[q].Leaf? :: q == p || s.pages[q].entries != []
    ensures if i < |s.pages[p].entries| then s.pages[p].entries[i].key <= k
            else var next := s.pages[p].next;
                 && next in s.pages && s.pages[next].Leaf? && s.pages[next].entries != []
                 && s.pages[next].entries[0].key <= k
  {
    var es := s.pages[p].entries;
    assert NodeOk(s, p);
    if k < s.range[p].hi {
      var a := EntryOf(s, p, m, k);
    } else if i == |es| {
      var next := s.pages[p].next;
      assert NodeOk(s, next);
      if k < s.range[next].hi {
        var a := EntryOf(s, next, m, k);
      }
    }
  }

  lemma LeafHolds(s: Shape, m: map<Key, Value>, p: Pid, i: nat)
    requires Represents(s, m) && p in s.pages && s.pages[p].Leaf? && i < |s.pages[p].entries|
    ensures var e := s.pages[p].entries[i]; e.key in m && m[e.key] == e.value
  {
    var e := s.pages[p].entries[i];
    assert HoldsAt(s, p, e.key, e.value);
    assert Holds(s, e.key, e.value);
  }

  lemma LeavesFilled(c: Limits, s: Shape, p: Pid)
    requires LimitsOk(c) && Struct(s) && Sized(c, s, INVALID_PAGE, INVALID_PAGE) && p in s.pages && s.pages[p].Leaf?
    ensures s.pages[p].entries != []
  {
    NoInvalidPage(s);
    assert SizeOk(c, s, p, INVALID_PAGE, INVALID_PAGE);
  }
}

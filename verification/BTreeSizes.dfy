/** Page occupancy, and how the steps of Insert and Remove restore it. */
module BTreeSizes {
  import opened BTreeShape
  import opened BTreeOps

  datatype Limits = Limits(leafMax: int, internalMax: int)

  /** How many entries of 80 bytes a leaf has room for after 32 bytes of header, and how
      many slots of 16 bytes an internal page has room for after 24. */
  const LEAF_CAPACITY: nat := (4096 - 32) / 80
  const INTERNAL_CAPACITY: nat := (4096 - 24) / 16

  /** There is room on a page for one entry more than the limit. */
  predicate LimitsOk(c: Limits) {
    3 <= c.leafMax < LEAF_CAPACITY && 3 <= c.internalMax < INTERNAL_CAPACITY
  }

  function Capacity(p: Page): nat {
    if p.Leaf? then LEAF_CAPACITY else INTERNAL_CAPACITY
  }

  function MaxSize(c: Limits, p: Page): int {
    if p.Leaf? then c.leafMax else c.internalMax
  }

  function MinSize(c: Limits, p: Page): int {
    (MaxSize(c, p) + 1) / 2
  }

  function Size(p: Page): nat {
    if p.Leaf? then |p.entries| else |p.slots|
  }

  /** Page `q` is within its limits; page `over` may hold one entry too many and page
      `under` one too few. A root may hold less than half. */
  ghost predicate SizeOk(c: Limits, s: Shape, q: Pid, over: Pid, under: Pid)
    requires q in s.pages
  {
    var p := s.pages[q];
    && Size(p) <= MaxSize(c, p) + (if q == over then 1 else 0)
    && Size(p) >= (if q == s.root then (if p.Leaf? then 1 else 2) else MinSize(c, p)) - (if q == under then 1 else 0)
  }

  ghost predicate Sized(c: Limits, s: Shape, over: Pid, under: Pid) {
    forall q {:trigger SizeOk(c, s, q, over, under)} | q in s.pages :: SizeOk(c, s, q, over, under)
  }

  /** Pages other than those named are of the same size as before. */
  ghost predicate SameSizes(s: Shape, s': Shape, changed: set<Pid>) {
    forall q {:trigger s'.pages[q]} | q in s'.pages && q !in changed ::
      && q in s.pages && Size(s'.pages[q]) == Size(s.pages[q])
      && (s'.pages[q].Leaf? <==> s.pages[q].Leaf?) && (q == s'.root <==> q == s.root)
  }

  lemma SizedExcept(c: Limits, s: Shape, s': Shape, over: Pid, under: Pid, over': Pid, under': Pid, changed: set<Pid>)
    requires Sized(c, s, over, under) && SameSizes(s, s', changed)
    requires over in changed || over == over' || over !in s.pages
    requires under in changed || under == under' || under !in s.pages
    requires forall q | q in changed && q in s'.pages :: SizeOk(c, s', q, over', under')
    ensures Sized(c, s', over', under')
  {
    forall q | q in s'.pages ensures SizeOk(c, s', q, over', under') {
      if q !in changed { assert SizeOk(c, s, q, over, under); }
    }
  }

  lemma NoInvalidPage(s: Shape)
    requires Struct(s)
    ensures INVALID_PAGE !in s.pages
  {
    assert INVALID_PAGE in s.pages ==> NodeOk(s, INVALID_PAGE);
  }

  // ---------------------------------------------------------------------
  // Splitting an overfull page
  // ---------------------------------------------------------------------

  /** The shape after splitting page `x` in the middle. */
  ghost function Split(s: Shape, x: Pid, y: Pid, j: nat): Shape
    requires CanSplit(s, x, y, j) && x in s.range && Size(s.pages[x]) >= 2
  {
    var i := Size(s.pages[x]) / 2;
    if s.pages[x].Leaf? then LeafSplit(s, x, y, i, j)
    else InternalSplit(s, x, y, i, j, s.pages[x].slots[i..])
  }

  lemma SplitOk(c: Limits, s: Shape, x: Pid, y: Pid, j: nat)
    requires LimitsOk(c) && CanSplit(s, x, y, j) && Sized(c, s, x, INVALID_PAGE)
    requires Size(s.pages[x]) == MaxSize(c, s.pages[x]) + 1
    ensures x in s.range && Struct(Split(s, x, y, j))
    ensures forall k, v :: Holds(Split(s, x, y, j), k, v) <==> Holds(s, k, v)
    ensures Sized(c, Split(s, x, y, j), s.pages[x].parent, INVALID_PAGE)
  {
    var i, p := Size(s.pages[x]) / 2, s.pages[x].parent;
    assert NodeOk(s, x) && NodeOk(s, p);
    if s.pages[x].Leaf? {
      LeafSplitOk(s, x, y, i, j);
    } else {
      InternalSplitOk(s, x, y, i, j, s.pages[x].slots[i..]);
    }
    var t := ParentSlot(s, x);
    SplitSized(c, s, x, y, j);
  }

  lemma SplitSized(c: Limits, s: Shape, x: Pid, y: Pid, j: nat)
    requires LimitsOk(c) && CanSplit(s, x, y, j) && x in s.range && Sized(c, s, x, INVALID_PAGE)
    requires Size(s.pages[x]) == MaxSize(c, s.pages[x]) + 1 && s.pages[x].parent != x
    ensures Sized(c, Split(s, x, y, j), s.pages[x].parent, INVALID_PAGE)
  {
    var s', p := Split(s, x, y, j), s.pages[x].parent;
    assert SizeOk(c, s, x, x, INVALID_PAGE) && SizeOk(c, s, p, x, INVALID_PAGE);
    SizedExcept(c, s, s', x, INVALID_PAGE, p, INVALID_PAGE, {x, y, p});
  }

  /** A root of two children over an overfull root that was split. */
  lemma SplitRootOk(c: Limits, s: Shape, y: Pid, z: Pid)
    requires LimitsOk(c) && Struct(s) && Sized(c, s, s.root, INVALID_PAGE)
    requires Size(s.pages[s.root]) == MaxSize(c, s.pages[s.root]) + 1
    requires y >= 0 && y !in s.pages && z >= 0 && z !in s.pages && y != z
    ensures s.root in s.pages && s.root in s.range
    ensures var g := Grow(s, z, 0);
            && CanSplit(g, s.root, y, 0) && s.root in g.range && Size(g.pages[s.root]) >= 2
            && Struct(Split(g, s.root, y, 0))
            && (forall k, v :: Holds(Split(g, s.root, y, 0), k, v) <==> Holds(s, k, v))
            && Sized(c, Split(g, s.root, y, 0), INVALID_PAGE, INVALID_PAGE)
  {
    var x, g := s.root, Grow(s, z, 0);
    GrowOk(s, z, 0);
    assert NodeOk(s, x) && NodeOk(g, x);
    assert SizeOk(c, s, x, x, INVALID_PAGE);
    forall q | q in {x, z} && q in g.pages ensures SizeOk(c, g, q, x, z) {
    }
    NoInvalidPage(s);
    SizedExcept(c, s, g, x, INVALID_PAGE, x, z, {x, z});
    var s' := Split(g, x, y, 0);
    var i := Size(g.pages[x]) / 2;
    if g.pages[x].Leaf? {
      LeafSplitOk(g, x, y, i, 0);
    } else {
      InternalSplitOk(g, x, y, i, 0, g.pages[x].slots[i..]);
    }
    SizedExcept(c, g, s', x, z, INVALID_PAGE, INVALID_PAGE, {x, y, z});
  }

  // ---------------------------------------------------------------------
  // Mending an underfull page
  // ---------------------------------------------------------------------

  ghost function Merge(s: Shape, x: Pid, y: Pid, j: nat): Shape
    requires Siblings(s, x, y, j) && x in s.range && y in s.range && (s.pages[x].Leaf? <==> s.pages[y].Leaf?)
    requires s.pages[y].Internal? ==> s.pages[y].slots != []
  {
    if s.pages[x].Leaf? then LeafMerge(s, x, y, j) else InternalMerge(s, x, y, j)
  }

  lemma MergeReady(s: Shape, x: Pid, y: Pid, j: nat)
    requires Siblings(s, x, y, j)
    ensures x in s.range && y in s.range && (s.pages[x].Leaf? <==> s.pages[y].Leaf?)
    ensures s.pages[y].Internal? ==> s.pages[y].slots != []
  {
    SiblingsMeet(s, x, y, j);
    assert NodeOk(s, y);
  }

  lemma MergeOk(s: Shape, x: Pid, y: Pid, j: nat)
    requires Siblings(s, x, y, j) && x in s.range && y in s.range && (s.pages[x].Leaf? <==> s.pages[y].Leaf?)
    requires s.pages[y].Internal? ==> s.pages[y].slots != []
    ensures Struct(Merge(s, x, y, j))
    ensures forall k, v :: Holds(Merge(s, x, y, j), k, v) <==> Holds(s, k, v)
    ensures var m, p := Merge(s, x, y, j), s.pages[x].parent;
            && x in m.pages && x in m.range && p in m.pages && m.pages[p].Internal? && m.pages[x].parent == p
            && Size(m.pages[x]) == Size(s.pages[x]) + Size(s.pages[y])
            && (m.pages[x].Leaf? <==> s.pages[x].Leaf?)
            && Size(m.pages[p]) == Size(s.pages[p]) - 1 && m.root == s.root
            && CanSplit(m, x, y, j)
  {
    SiblingsMeet(s, x, y, j);
    if s.pages[x].Leaf? {
      LeafMergeOk(s, x, y, j);
    } else {
      InternalMergeOk(s, x, y, j);
    }
    assert NodeOk(s, y);
  }

  /** Two siblings that together fit on a page: merging them passes the shortage on
      to their parent. */
  lemma MergeSized(c: Limits, s: Shape, x: Pid, y: Pid, j: nat, under: Pid)
    requires LimitsOk(c) && Siblings(s, x, y, j) && Sized(c, s, INVALID_PAGE, under) && under in {x, y}
    requires x in s.range && y in s.range && (s.pages[x].Leaf? <==> s.pages[y].Leaf?)
    requires s.pages[y].Internal? ==> s.pages[y].slots != []
    requires Size(s.pages[x]) + Size(s.pages[y]) <= 2 * MinSize(c, s.pages[x]) - 1
    ensures Sized(c, Merge(s, x, y, j), INVALID_PAGE, s.pages[x].parent)
  {
    var s', p := Merge(s, x, y, j), s.pages[x].parent;
    MergeOk(s, x, y, j);
    SiblingsMeet(s, x, y, j);
    assert SizeOk(c, s, x, INVALID_PAGE, under) && SizeOk(c, s, y, INVALID_PAGE, under);
    assert SizeOk(c, s, p, INVALID_PAGE, under);
    SizedExcept(c, s, s', INVALID_PAGE, under, INVALID_PAGE, p, {x, y, p});
  }

  /** Sharing out what two siblings hold is a merge followed by a split at `i`. */
  ghost function Share(s: Shape, x: Pid, y: Pid, j: nat, i: nat, ys: seq<Slot>): Shape
    requires Siblings(s, x, y, j) && x in s.range && y in s.range && (s.pages[x].Leaf? <==> s.pages[y].Leaf?)
    requires s.pages[y].Internal? ==> s.pages[y].slots != []
    requires 0 < i < Size(s.pages[x]) + Size(s.pages[y])
  {
    MergeOk(s, x, y, j);
    var m := Merge(s, x, y, j);
    if s.pages[x].Leaf? then LeafSplit(m, x, y, i, j) else InternalSplit(m, x, y, i, j, ys)
  }

  lemma ShareOk(c: Limits, s: Shape, x: Pid, y: Pid, j: nat, i: nat, ys: seq<Slot>, under: Pid)
    requires LimitsOk(c) && Siblings(s, x, y, j) && Sized(c, s, INVALID_PAGE, under) && under in {x, y}
    requires x in s.range && y in s.range && (s.pages[x].Leaf? <==> s.pages[y].Leaf?)
    requires s.pages[y].Internal? ==> s.pages[y].slots != []
    requires var total, min := Size(s.pages[x]) + Size(s.pages[y]), MinSize(c, s.pages[x]);
             min <= i <= total - min && total <= MaxSize(c, s.pages[x]) + min
    requires s.pages[x].Internal? ==>
               SameSlots(ys, Join(s.pages[x].slots, s.pages[s.pages[x].parent].slots[j + 1].key, s.pages[y].slots)[i..])
    ensures Struct(Share(s, x, y, j, i, ys))
    ensures forall k, v :: Holds(Share(s, x, y, j, i, ys), k, v) <==> Holds(s, k, v)
    ensures Sized(c, Share(s, x, y, j, i, ys), INVALID_PAGE, INVALID_PAGE)
  {
    var m, p := Merge(s, x, y, j), s.pages[x].parent;
    MergeOk(s, x, y, j);
    SiblingsMeet(s, x, y, j);
    assert NodeOk(s, y);
    if s.pages[x].Leaf? {
      LeafSplitOk(m, x, y, i, j);
    } else {
      InternalSplitOk(m, x, y, i, j, ys);
    }
    ShareSized(c, s, x, y, j, i, ys, under);
  }

  lemma ShareSized(c: Limits, s: Shape, x: Pid, y: Pid, j: nat, i: nat, ys: seq<Slot>, under: Pid)
    requires LimitsOk(c) && Siblings(s, x, y, j) && Sized(c, s, INVALID_PAGE, under) && under in {x, y}
    requires x in s.range && y in s.range && (s.pages[x].Leaf? <==> s.pages[y].Leaf?)
    requires s.pages[y].Internal? ==> s.pages[y].slots != []
    requires var total, min := Size(s.pages[x]) + Size(s.pages[y]), MinSize(c, s.pages[x]);
             min <= i <= total - min && total <= MaxSize(c, s.pages[x]) + min
    requires s.pages[x].Internal? ==> |ys| == Size(s.pages[x]) + Size(s.pages[y]) - i
    ensures Sized(c, Share(s, x, y, j, i, ys), INVALID_PAGE, INVALID_PAGE)
  {
    var s', p := Share(s, x, y, j, i, ys), s.pages[x].parent;
    MergeOk(s, x, y, j);
    SiblingsMeet(s, x, y, j);
    assert SizeOk(c, s, p, INVALID_PAGE, under);
    assert NodeOk(s, s.root);
    SizedExcept(c, s, s', INVALID_PAGE, under, INVALID_PAGE, INVALID_PAGE, {x, y, p});
  }

  /** A root with one child left is replaced by that child. */
  lemma ShrinkSized(c: Limits, s: Shape)
    requires LimitsOk(c) && Struct(s) && Sized(c, s, INVALID_PAGE, s.root)
    requires s.pages[s.root].Internal? && |s.pages[s.root].slots| == 1
    ensures s.pages[s.root].slots[0].child in s.pages
    ensures Sized(c, Shrink(s), INVALID_PAGE, INVALID_PAGE)
  {
    ShrinkOk(s);
    var child := s.pages[s.root].slots[0].child;
    assert NodeOk(s, s.root);
    assert ChildOk(s, s.root, s.range[s.root], s.pages[s.root].slots, 0);
    assert SizeOk(c, s, child, INVALID_PAGE, s.root);
    SizedExcept(c, s, Shrink(s), INVALID_PAGE, s.root, INVALID_PAGE, INVALID_PAGE, {s.root, child});
  }
}

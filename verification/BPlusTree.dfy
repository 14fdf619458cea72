/**
 The B+-tree with its pages updated in place: descent by separator keys, splits
 that climb towards the root, and deletions mended by borrowing from or merging
 with a sibling. It refines a finite map.
 */
module BPlusTree {
  import opened Common
  import opened BTreeShape
  import opened BTreeOps
  import opened BTreePages
  import opened BTreeSizes
  import opened BTreeSteps

  const MAX_VALUE_SIZE := 64

  datatype InsertResult = Inserted | Updated | ValueTooLong

  // ---------------------------------------------------------------------
  // Searching within a page
  // ---------------------------------------------------------------------

  /** First position whose key is not below `key`. */
  method KeyIndex(es: seq<Entry>, key: Key) returns (i: nat)
    requires Sorted(es)
    ensures i <= |es|
    ensures forall a | 0 <= a < i :: es[a].key < key
    ensures forall a | i <= a < |es| :: key <= es[a].key
  {
    var lo, hi := 0, |es|;
    while lo < hi
      invariant 0 <= lo <= hi <= |es|
      invariant forall a | 0 <= a < lo :: es[a].key < key
      invariant forall a | hi <= a < |es| :: key <= es[a].key
    {
      var mid := (lo + hi) / 2;
      if es[mid].key < key {
        lo := mid + 1;
      } else {
        hi := mid;
      }
    }
    i := lo;
  }

  /** The last slot, from the second on, whose key does not exceed `key`; else the
      first slot. */
  method LookupSlot(slots: seq<Slot>, key: Key) returns (j: nat)
    requires slots != [] && forall a, b | 1 <= a < b < |slots| :: slots[a].key < slots[b].key
    ensures j < |slots|
    ensures j > 0 ==> slots[j].key <= key
    ensures j + 1 < |slots| ==> key < slots[j + 1].key
  {
    var lo, hi := 1, |slots|;
    while lo < hi
      invariant 1 <= lo <= hi <= |slots|
      invariant forall a | 1 <= a < lo :: slots[a].key <= key
      invariant forall a | hi <= a < |slots| :: key < slots[a].key
    {
      var mid := (lo + hi) / 2;
      if key < slots[mid].key {
        hi := mid;
      } else {
        lo := mid + 1;
      }
    }
    j := lo - 1;
  }

  /** Overwrites the entry at `i` if it has the key, else makes room for a new one. */
  method PutAt(es: seq<Entry>, i: nat, key: Key, value: Value) returns (r: seq<Entry>)
    requires i <= |es| < LEAF_CAPACITY
    ensures r == Upserted(es, i, key, value)
  {
    if i < |es| && es[i].key == key {
      return es[i := Entry(key, value)];
    }
    r := InsertInto(LEAF_CAPACITY, es, i, Entry(key, value));
  }

  method ValueIndex(slots: seq<Slot>, child: Pid) returns (j: nat)
    requires HasChild(slots, child)
    ensures j < |slots| && slots[j].child == child
  {
    j := 0;
    while slots[j].child != child
      invariant 0 <= j < |slots| && forall a | 0 <= a < j :: slots[a].child != child
      decreases |slots| - j
    {
      j := j + 1;
    }
  }

  /** A position in the leaf chain. */
  datatype Cursor = End | At(page: Pid, index: nat)

  class Tree {
    var pages: map<Pid, Page>
    var root: Pid
    var nextPid: Pid
    const limits: Limits
    ghost var range: map<Pid, Range>
    ghost var contents: map<Key, Value>

    ghost function Abs(): Shape
      reads this
    {
      Shape(pages, range, root)
    }

    /** A non-empty tree holding `contents`, but for the sizes of two pages. */
    ghost predicate Shaped(over: Pid, under: Pid)
      reads this
    {
      && LimitsOk(limits) && nextPid >= 0
      && Struct(Abs()) && Sized(limits, Abs(), over, under) && Represents(Abs(), contents)
      && forall p | p in pages :: p < nextPid
    }

    ghost predicate Valid()
      reads this
    {
      if root == INVALID_PAGE then LimitsOk(limits) && nextPid >= 0 && pages == map[] && range == map[] && contents == map[]
      else Shaped(INVALID_PAGE, INVALID_PAGE)
    }

    /** Every page but the root is at least half full, none holds more than its limit, and an
        internal root has at least two children. */
    lemma HalfFull(p: Pid)
      requires Valid() && p in pages
      ensures match pages[p]
              case Leaf(_, _, entries) =>
                1 <= |entries| <= limits.leafMax && (p != root ==> limits.leafMax <= 2 * |entries|)
              case Internal(_, slots) =>
                2 <= |slots| <= limits.internalMax && (p != root ==> limits.internalMax <= 2 * |slots|)
    {
      assert NodeOk(Abs(), p) && SizeOk(limits, Abs(), p, INVALID_PAGE, INVALID_PAGE);
    }

    constructor (limits: Limits)
      requires LimitsOk(limits)
      ensures Valid() && contents == map[] && this.limits == limits
    {
      this.limits := limits;
      pages, root, nextPid, range, contents := map[], INVALID_PAGE, 0, map[], map[];
    }

    // -------------------------------------------------------------------
    // Lookup
    // -------------------------------------------------------------------

    /** Descends to the leaf whose range covers `key`, or to the leftmost leaf. */
    method FindLeaf(key: Key, leftmost: bool) returns (leaf: Pid)
      requires Struct(Abs())
      ensures leaf in pages && pages[leaf].Leaf? && leaf in range
      ensures if leftmost then range[leaf].lo == LOW else range[leaf].lo <= key < range[leaf].hi
    {
      leaf := root;
      assert NodeOk(Abs(), leaf);
      while pages[leaf].Internal?
        invariant leaf in pages && leaf in range && range[leaf].height >= 0
        invariant if leftmost then range[leaf].lo == LOW else range[leaf].lo <= key < range[leaf].hi
        decreases range[leaf].height
      {
        var slots := pages[leaf].slots;
        SlotKeysAscend(Abs(), leaf);
        var j := 0;
        if !leftmost {
          j := LookupSlot(slots, key);
        }
        assert NodeOk(Abs(), leaf);
        assert ChildOk(Abs(), leaf, range[leaf], slots, j);
        leaf := slots[j].child;
        assert NodeOk(Abs(), leaf);
      }
    }

    method GetValue(key: Key) returns (r: Option<Value>)
      requires Valid()
      ensures r == Get(contents, key)
    {
      if root == INVALID_PAGE {
        return None;
      }
      var leaf := FindLeaf(key, false);
      var es := pages[leaf].entries;
      assert NodeOk(Abs(), leaf);
      var i := KeyIndex(es, key);
      LeafDecides(Abs(), leaf, contents, key, i);
      r := if i < |es| && es[i].key == key then Some(es[i].value) else None;
    }

    // -------------------------------------------------------------------
    // Insert
    // -------------------------------------------------------------------

    method Insert(key: Key, value: Value) returns (r: InsertResult)
      requires Valid()
      modifies this
      ensures Valid()
      ensures r == if |value| > MAX_VALUE_SIZE then ValueTooLong
                   else if key in old(contents) then Updated else Inserted
      ensures contents == if r == ValueTooLong then old(contents) else old(contents)[key := value]
    {
      if |value| > MAX_VALUE_SIZE {
        return ValueTooLong;
      }
      if root == INVALID_PAGE {
        StartTree(key, value);
        return Inserted;
      }
      var leaf := FindLeaf(key, false);
      var size := |pages[leaf].entries|;
      var size' := InsertInLeaf(leaf, key, value);
      r := if size' > size then Inserted else Updated;
      if size' > limits.leafMax {
        SplitPage(leaf);
      }
    }

    method StartTree(key: Key, value: Value)
      requires Valid() && root == INVALID_PAGE
      modifies this
      ensures Valid() && root != INVALID_PAGE && contents == map[key := value]
    {
      root := nextPid;
      nextPid := nextPid + 1;
      pages := map[root := Leaf(INVALID_PAGE, INVALID_PAGE, [Entry(key, value)])];
      range := map[root := Range(LOW, HIGH, 0)];
      contents := map[key := value];
      assert NodeOk(Abs(), root);
      assert SizeOk(limits, Abs(), root, INVALID_PAGE, INVALID_PAGE);
      forall k: Key, v: Value ensures Holds(Abs(), k, v) <==> k in contents && contents[k] == v {
        assert pages[root].entries[0] == Entry(key, value);
        if k == key && v == value { assert HoldsAt(Abs(), root, k, v); }
      }
    }

    /** Upsert in the covering leaf, which may come to hold one entry too many. */
    method InsertInLeaf(leaf: Pid, key: Key, value: Value) returns (size: nat)
      requires Shaped(INVALID_PAGE, INVALID_PAGE) && leaf in pages && pages[leaf].Leaf?
      requires range[leaf].lo <= key < range[leaf].hi
      modifies this`pages, this`contents
      ensures contents == old(contents)[key := value] && leaf in pages && pages[leaf].Leaf?
      ensures size == |pages[leaf].entries| <= limits.leafMax + 1
      ensures size == |old(pages)[leaf].entries| + (if key in old(contents) then 0 else 1)
      ensures Shaped(if size > limits.leafMax then leaf else INVALID_PAGE, INVALID_PAGE)
    {
      var es := pages[leaf].entries;
      assert NodeOk(Abs(), leaf);
      var i := KeyIndex(es, key);
      assert SizeOk(limits, Abs(), leaf, INVALID_PAGE, INVALID_PAGE);
      var es' := PutAt(es, i, key, value);
      UpsertedInTree(limits, Abs(), leaf, i, key, value, contents);
      pages := pages[leaf := pages[leaf].(entries := es')];
      contents := contents[key := value];
      size := |pages[leaf].entries|;
    }

    /** Points each child in `slots` at `p`. */
    method UpdateChildParents(slots: seq<Slot>, p: Pid)
      requires forall j | 0 <= j < |slots| :: slots[j].child in pages
      modifies this`pages
      ensures pages == Reparent(old(pages), slots, p)
    {
      var j := 0;
      while j < |slots|
        invariant 0 <= j <= |slots|
        invariant pages == Reparent(old(pages), slots[..j], p)
      {
        var c := slots[j].child;
        pages := pages[c := pages[c].(parent := p)];
        forall q | q in pages ensures HasChild(slots[..j + 1], q) <==> q == c || HasChild(slots[..j], q) {
          HasChildNext(slots, j, q);
        }
        j := j + 1;
      }
      assert slots[..j] == slots;
    }

    /** Moves the upper half of an overfull page to a new page. */
    method MoveHalf(x: Pid) returns (y: Pid, middle: Key)
      requires Struct(Abs()) && x in pages && (forall p | p in pages :: p < nextPid) && nextPid >= 0
      requires 2 <= Size(pages[x]) <= Capacity(pages[x])
      modifies this`pages, this`nextPid
      ensures y == old(nextPid) && nextPid == y + 1
      ensures pages == Halved(old(Abs()), x, y) && middle == MiddleKey(old(pages)[x])
    {
      y := nextPid;
      nextPid := nextPid + 1;
      match pages[x]
      case Leaf(p, next, es) =>
        var lower, upper := HalvesOf(LEAF_CAPACITY, es);
        middle := upper[0].key;
        pages := pages[x := Leaf(p, y, lower)][y := Leaf(p, next, upper)];
      case Internal(p, xs) =>
        var lower, upper := HalvesOf(INTERNAL_CAPACITY, xs);
        middle := upper[0].key;
        forall j | 0 <= j < |xs| ensures xs[j].child in pages {
          assert NodeOk(Abs(), x);
          assert ChildOk(Abs(), x, range[x], xs, j);
        }
        UpdateChildParents(upper, y);
        pages := pages[x := Internal(p, lower)][y := Internal(p, upper)];
    }

    method SplitPage(x: Pid)
      requires Shaped(x, INVALID_PAGE) && x in pages && Size(pages[x]) == MaxSize(limits, pages[x]) + 1
      modifies this
      ensures Valid() && root != INVALID_PAGE && contents == old(contents)
      decreases range[root].height - range[x].height, 1
    {
      ghost var s := Abs();
      assert NodeOk(s, x);
      var y, middle := MoveHalf(x);
      InsertIntoParent(x, middle, y, s);
    }

    /** Tells the parent of `x` about `y`, splitting the parent in turn if that makes
        it overfull, or puts a new root above the two. `s` is the tree before `x` was
        halved. */
    method InsertIntoParent(x: Pid, middle: Key, y: Pid, ghost s: Shape)
      requires JustHalved(x, middle, y, s)
      modifies this
      ensures Valid() && root != INVALID_PAGE && contents == old(contents)
      decreases s.range[s.root].height - s.range[x].height, 0
    {
      assert NodeOk(s, x);
      var parent := pages[x].parent;
      if parent == INVALID_PAGE {
        NewRoot(x, middle, y, s);
        return;
      }
      TellParent(x, middle, y, s);
      if |pages[parent].slots| > limits.internalMax {
        SplitPage(parent);
      } else {
        NotOverfull(limits, Abs(), parent);
        NoInvalidPage(Abs());
      }
    }

    method NewRoot(x: Pid, middle: Key, y: Pid, ghost s: Shape)
      requires JustHalved(x, middle, y, s) && s.pages[x].parent == INVALID_PAGE
      modifies this
      ensures Valid() && root != INVALID_PAGE && contents == old(contents)
    {
      assert NodeOk(s, x);
      NoInvalidPage(s);
      assert x == s.root;
      var z := nextPid;
      nextPid := nextPid + 1;
      HalvedIsGrownSplit(s, y, z);
      SplitRootOk(limits, s, y, z);
      pages := pages[z := Internal(INVALID_PAGE, [Slot(0, x), Slot(middle, y)])];
      pages := pages[x := pages[x].(parent := z)][y := pages[y].(parent := z)];
      root := z;
      range := Split(Grow(s, z, 0), x, y, 0).range;
      RepresentsSame(s, Abs());
    }

    method TellParent(x: Pid, middle: Key, y: Pid, ghost s: Shape)
      requires JustHalved(x, middle, y, s) && s.pages[x].parent != INVALID_PAGE
      modifies this`pages, this`range
      ensures var p := s.pages[x].parent;
              && Shaped(p, INVALID_PAGE) && p in pages && pages[p].Internal? && |pages[p].slots| <= limits.internalMax + 1
              && range[root] == s.range[root] && range[p].height == s.range[x].height + 1
    {
      assert NodeOk(s, x);
      var parent := pages[x].parent;
      ghost var t := SplitWhere(s, x, y);
      assert s.range[parent].height == s.range[x].height + 1 by { var _ := ParentSlot(s, x); }
      HalvedIsSplit(s, x, y, t);
      var j := ValueIndex(pages[parent].slots, x);
      HalvedIsSplit(s, x, y, j);
      SplitOk(limits, s, x, y, j);
      assert SizeOk(limits, s, parent, x, INVALID_PAGE);
      var slots := InsertInto(INTERNAL_CAPACITY, pages[parent].slots, j + 1, Slot(middle, y));
      pages := pages[parent := pages[parent].(slots := slots)];
      range := Split(s, x, y, j).range;
      RepresentsSame(s, Abs());
      assert SizeOk(limits, Abs(), parent, parent, INVALID_PAGE);
    }

    /** Page `x` of the tree `s` has been halved, and nothing else has happened. */
    ghost predicate JustHalved(x: Pid, middle: Key, y: Pid, s: Shape)
      reads this
    {
      && LimitsOk(limits) && Struct(s) && Sized(limits, s, x, INVALID_PAGE) && Represents(s, contents)
      && x in s.pages && Size(s.pages[x]) == MaxSize(limits, s.pages[x]) + 1 && middle == MiddleKey(s.pages[x])
      && (forall p | p in s.pages :: p < y) && 0 <= y < nextPid
      && root == s.root && range == s.range && pages == Halved(s, x, y)
    }

    // -------------------------------------------------------------------
    // Remove
    // -------------------------------------------------------------------

    method Remove(key: Key) returns (removed: bool)
      requires Valid()
      modifies this
      ensures Valid()
      ensures removed <==> key in old(contents)
      ensures contents == old(contents) - {key}
    {
      if root == INVALID_PAGE {
        return false;
      }
      var leaf := FindLeaf(key, false);
      var es := pages[leaf].entries;
      assert NodeOk(Abs(), leaf);
      var i := KeyIndex(es, key);
      LeafDecides(Abs(), leaf, contents, key, i);
      if i == |es| || es[i].key != key {
        return false;
      }
      assert SizeOk(limits, Abs(), leaf, INVALID_PAGE, INVALID_PAGE);
      var es' := RemoveFrom(LEAF_CAPACITY, es, i);
      RemovedInTree(limits, Abs(), leaf, i, contents);
      pages := pages[leaf := pages[leaf].(entries := es')];
      contents := contents - {key};
      HandleUnderflow(leaf);
      removed := true;
    }

    method HandleRootUnderflow()
      requires Shaped(INVALID_PAGE, root)
      modifies this
      ensures Valid() && contents == old(contents)
    {
      NoInvalidPage(Abs());
      match pages[root]
      case Leaf(_, _, es) =>
        if es == [] {
          NothingLeft(Abs(), contents);
          range := range - {root};
          pages := pages - {root};
          root := INVALID_PAGE;
        } else {
          NotUnderfull(limits, Abs(), root);
        }
      case Internal(_, slots) =>
        assert NodeOk(Abs(), root);
        if |slots| == 1 {
          ghost var s := Abs();
          ShrinkOk(s);
          ShrinkSized(limits, s);
          var child := slots[0].child;
          pages := pages[child := pages[child].(parent := INVALID_PAGE)] - {root};
          range := range - {root};
          root := child;
          RepresentsSame(s, Abs());
          NoInvalidPage(Abs());
        } else {
          NotUnderfull(limits, Abs(), root);
        }
    }

    /** Mends page `x`, which may hold one entry too few: borrows from a sibling that
        can spare one, left before right; else merges, left before right, which may
        leave the parent short in turn. */
    method HandleUnderflow(x: Pid)
      requires Shaped(INVALID_PAGE, x) && x in pages
      modifies this
      ensures Valid() && contents == old(contents)
      decreases range[root].height - range[x].height
    {
      NoInvalidPage(Abs());
      if pages[x].parent == INVALID_PAGE {
        assert x == root by { assert NodeOk(Abs(), x); }
        HandleRootUnderflow();
        return;
      }
      assert x != root by { assert NodeOk(Abs(), x); }
      if Size(pages[x]) >= MinSize(limits, pages[x]) {
        NotUnderfull(limits, Abs(), x);
        return;
      }
      var parent := pages[x].parent;
      assert NodeOk(Abs(), x) && NodeOk(Abs(), parent);
      ghost var height := range[parent].height;
      assert height == range[x].height + 1 by { var _ := ParentSlot(Abs(), x); }
      var slots := pages[parent].slots;
      var j := ValueIndex(slots, x);
      HasSibling(limits, Abs(), x, j);
      if j > 0 && Size(pages[slots[j - 1].child]) > MinSize(limits, pages[slots[j - 1].child]) {
        BorrowFromLeft(slots[j - 1].child, x, j - 1);
      } else if j + 1 < |slots| && Size(pages[slots[j + 1].child]) > MinSize(limits, pages[slots[j + 1].child]) {
        BorrowFromRight(x, slots[j + 1].child, j);
      } else {
        if j > 0 {
          MergeInto(slots[j - 1].child, x, j - 1, x);
        } else {
          MergeInto(x, slots[j + 1].child, j, x);
        }
        HandleUnderflow(parent);
      }
    }

    /** The last entry, or child, of `x` goes to the front of its right sibling `y`. */
    method MoveLastToFrontOf(x: Pid, y: Pid, j: nat)
      requires CanBorrow(Abs(), x, y, j) && 2 <= Size(pages[x]) <= Capacity(pages[x]) && Size(pages[y]) < Capacity(pages[y])
      modifies this`pages
      ensures pages == BorrowLeft(old(Abs()), x, y, j)
    {
      ghost var s := Abs();
      var parent := pages[x].parent;
      SiblingsMeet(s, x, y, j);
      var slots := pages[parent].slots;
      if pages[x].Leaf? {
        var xs, ys := pages[x].entries, pages[y].entries;
        var last := xs[|xs| - 1];
        var xs', ys' := LastToFront(LEAF_CAPACITY, xs, ys);
        pages := pages[x := pages[x].(entries := xs')][y := pages[y].(entries := ys')];
        pages := pages[parent := pages[parent].(slots := slots[j + 1 := Slot(last.key, y)])];
      } else {
        var xs, ys := pages[x].slots, pages[y].slots;
        var last := xs[|xs| - 1];
        assert HasChild(xs, last.child);
        ChildOfSibling(s, x, y, j, x, last.child);
        var ys' := InsertInto(INTERNAL_CAPACITY, ys, 0, Slot(ys[0].key, last.child));
        ys' := ys'[1 := Slot(slots[j + 1].key, ys'[1].child)];
        assert ys' == Fronted(ys, last.child, slots[j + 1].key);
        UpdateChildParents([last], y);
        pages := pages[x := Internal(parent, xs[..|xs| - 1])];
        pages := pages[y := Internal(parent, ys')];
        pages := pages[parent := pages[parent].(slots := slots[j + 1 := Slot(last.key, y)])];
      }
    }

    /** The first entry, or child, of `y` goes to the end of its left sibling `x`. */
    method MoveFirstToEndOf(x: Pid, y: Pid, j: nat)
      requires CanBorrow(Abs(), x, y, j) && 2 <= Size(pages[y]) <= Capacity(pages[y]) && Size(pages[x]) < Capacity(pages[x])
      modifies this`pages
      ensures pages == BorrowRight(old(Abs()), x, y, j)
    {
      ghost var s := Abs();
      var parent := pages[x].parent;
      SiblingsMeet(s, x, y, j);
      var slots := pages[parent].slots;
      if pages[x].Leaf? {
        var xs, ys := pages[x].entries, pages[y].entries;
        var xs', ys' := FirstToEnd(LEAF_CAPACITY, xs, ys);
        pages := pages[x := pages[x].(entries := xs')][y := pages[y].(entries := ys')];
        pages := pages[parent := pages[parent].(slots := slots[j + 1 := Slot(ys[1].key, y)])];
      } else {
        var xs, ys := pages[x].slots, pages[y].slots;
        assert HasChild(ys, ys[0].child);
        ChildOfSibling(s, x, y, j, y, ys[0].child);
        var xs' := InsertInto(INTERNAL_CAPACITY, xs, |xs|, Slot(slots[j + 1].key, ys[0].child));
        var ys' := RemoveFrom(INTERNAL_CAPACITY, ys, 0);
        assert xs' == xs + [Slot(slots[j + 1].key, ys[0].child)] && ys' == ys[1..];
        UpdateChildParents([ys[0]], x);
        pages := pages[x := Internal(parent, xs')];
        pages := pages[y := Internal(parent, ys')];
        pages := pages[parent := pages[parent].(slots := slots[j + 1 := Slot(ys[1].key, y)])];
      }
    }

    /** Everything on `y` goes to the end of its left sibling `x`, and `y` is deleted. */
    method MoveAllTo(x: Pid, y: Pid, j: nat)
      requires CanBorrow(Abs(), x, y, j) && x in range && y in range
      requires Size(pages[x]) + Size(pages[y]) <= Capacity(pages[x]) && |pages[pages[x].parent].slots| <= INTERNAL_CAPACITY
      modifies this`pages
      ensures pages == Merge(old(Abs()), x, y, j).pages
    {
      ghost var s := Abs();
      SiblingsMeet(s, x, y, j);
      var parent := pages[x].parent;
      var slots := pages[parent].slots;
      var slots' := RemoveFrom(INTERNAL_CAPACITY, slots, j + 1);
      if pages[x].Leaf? {
        var es := Joined(LEAF_CAPACITY, pages[x].entries, pages[y].entries);
        pages := pages[x := Leaf(parent, pages[y].next, es)];
        pages := pages[parent := pages[parent].(slots := slots')] - {y};
      } else {
        var xs, ys := pages[x].slots, pages[y].slots;
        forall t | 0 <= t < |ys| ensures ys[t].child in pages {
          ChildOfSibling(s, x, y, j, y, ys[t].child);
        }
        if HasChild(ys, parent) { ChildOfSibling(s, x, y, j, y, parent); }
        var joined := Joined(INTERNAL_CAPACITY, xs, ys);
        joined := joined[|xs| := Slot(slots[j + 1].key, ys[0].child)];
        assert joined == Join(xs, slots[j + 1].key, ys);
        UpdateChildParents(ys, x);
        pages := pages[x := Internal(parent, joined)];
        pages := pages[parent := pages[parent].(slots := slots')] - {y};
      }
    }

    method BorrowFromLeft(x: Pid, y: Pid, j: nat)
      requires Shaped(INVALID_PAGE, y) && CanBorrow(Abs(), x, y, j)
      requires Size(pages[x]) > MinSize(limits, pages[x]) && Size(pages[y]) == MinSize(limits, pages[y]) - 1
      modifies this`pages, this`range
      ensures Valid()
    {
      ghost var s := Abs();
      NoInvalidPage(s);
      ghost var s' := BorrowLeftOk(limits, s, x, y, j);
      assert SizeOk(limits, s, x, INVALID_PAGE, y) && SizeOk(limits, s, y, INVALID_PAGE, y);
      MoveLastToFrontOf(x, y, j);
      range := s'.range;
      RepresentsSame(s, Abs());
    }

    method BorrowFromRight(x: Pid, y: Pid, j: nat)
      requires Shaped(INVALID_PAGE, x) && CanBorrow(Abs(), x, y, j)
      requires Size(pages[y]) > MinSize(limits, pages[y]) && Size(pages[x]) == MinSize(limits, pages[x]) - 1
      modifies this`pages, this`range
      ensures Valid()
    {
      ghost var s := Abs();
      NoInvalidPage(s);
      ghost var s' := BorrowRightOk(limits, s, x, y, j);
      assert SizeOk(limits, s, x, INVALID_PAGE, x) && SizeOk(limits, s, y, INVALID_PAGE, x);
      MoveFirstToEndOf(x, y, j);
      range := s'.range;
      RepresentsSame(s, Abs());
    }

    method MergeInto(x: Pid, y: Pid, j: nat, ghost under: Pid)
      requires Shaped(INVALID_PAGE, under) && CanBorrow(Abs(), x, y, j) && under in {x, y}
      requires Size(pages[x]) + Size(pages[y]) <= 2 * MinSize(limits, pages[x]) - 1
      modifies this`pages, this`range
      ensures var p := old(pages)[x].parent;
              && Shaped(INVALID_PAGE, p) && p in pages && range[p] == old(range[p]) && range[root] == old(range[root])
    {
      ghost var s := Abs();
      MergeReady(s, x, y, j);
      MergeOk(s, x, y, j);
      MergeSized(limits, s, x, y, j, under);
      SiblingsMeet(s, x, y, j);
      assert SizeOk(limits, s, s.pages[x].parent, INVALID_PAGE, under);
      MoveAllTo(x, y, j);
      range := Merge(s, x, y, j).range;
      RepresentsSame(s, Abs());
    }

    // -------------------------------------------------------------------
    // Iteration
    // -------------------------------------------------------------------

    ghost predicate InTree(c: Cursor)
      reads this
    {
      c.At? && c.page in pages && pages[c.page].Leaf? && c.index < |pages[c.page].entries|
    }

    function EntryAt(c: Cursor): (e: Entry)
      requires InTree(c)
      reads this
    {
      pages[c.page].entries[c.index]
    }

    /** The cursor is at the first entry whose key is not below `from`, or at the end if
        there is none. */
    ghost predicate AtFirst(c: Cursor, from: int)
      reads this
    {
      if c.End? then forall k | k in contents :: k < from
      else
        && InTree(c) && EntryAt(c).key >= from
        && EntryAt(c).key in contents && contents[EntryAt(c).key] == EntryAt(c).value
        && forall k | k in contents && from <= k :: EntryAt(c).key <= k
    }

    method Begin() returns (c: Cursor)
      requires Valid()
      ensures AtFirst(c, LOW)
    {
      if root == INVALID_PAGE {
        return End;
      }
      var leaf := FindLeaf(LOW, true);
      assert NodeOk(Abs(), leaf);
      c := Onward(leaf, 0, LOW);
    }

    method BeginAt(key: Key) returns (c: Cursor)
      requires Valid()
      ensures AtFirst(c, key)
    {
      if root == INVALID_PAGE {
        return End;
      }
      var leaf := FindLeaf(key, false);
      assert NodeOk(Abs(), leaf);
      var i := KeyIndex(pages[leaf].entries, key);
      c := Onward(leaf, i, key);
    }

    method Next(c: Cursor) returns (c': Cursor)
      requires Valid() && root != INVALID_PAGE && InTree(c)
      ensures AtFirst(c', EntryAt(c).key + 1)
    {
      assert NodeOk(Abs(), c.page);
      c' := Onward(c.page, c.index + 1, EntryAt(c).key + 1);
    }

    /** Position `i` of a leaf, or the start of the next leaf when the leaf ends there. */
    method Onward(leaf: Pid, i: nat, ghost from: int) returns (c: Cursor)
      requires Shaped(INVALID_PAGE, INVALID_PAGE) && leaf in pages && pages[leaf].Leaf? && i <= |pages[leaf].entries|
      requires range[leaf].lo <= from <= range[leaf].hi
      requires var es := pages[leaf].entries;
               (forall a | 0 <= a < i :: es[a].key < from) && forall a | i <= a < |es| :: from <= es[a].key
      ensures AtFirst(c, from)
    {
      ghost var s := Abs();
      NoInvalidPage(s);
      assert NodeOk(s, leaf);
      var es, next := pages[leaf].entries, pages[leaf].next;
      forall q | q in pages && pages[q].Leaf? ensures pages[q].entries != [] { LeavesFilled(limits, s, q); }
      forall k | k in contents && from <= k
        ensures if i < |es| then es[i].key <= k
                else next in pages && pages[next].Leaf? && pages[next].entries != [] && pages[next].entries[0].key <= k
      {
        FirstInChain(s, contents, leaf, i, from, k);
      }
      if i < |es| {
        LeafHolds(s, contents, leaf, i);
        c := At(leaf, i);
      } else if next == INVALID_PAGE {
        c := End;
      } else {
        assert NodeOk(s, next);
        LeafHolds(s, contents, next, 0);
        c := At(next, 0);
      }
    }

    /** What a client sees that iterates from `start` until exhausted: the map's entries
        from that key on, in ascending order. */
    method Scan(start: Key) returns (out: seq<Entry>)
      requires Valid()
      ensures Sorted(out)
      ensures forall k, v :: HasEntry(out, k, v) <==> k in contents && contents[k] == v && start <= k
    {
      var c;
      if start == LOW {
        c := Begin();
      } else {
        c := BeginAt(start);
      }
      out := [];
      ghost var from: int := start;
      while c.At?
        invariant start <= from <= HIGH && AtFirst(c, from)
        invariant Sorted(out) && forall a | 0 <= a < |out| :: start <= out[a].key < from
        invariant forall k: Key, v :: HasEntry(out, k, v) <==> k in contents && contents[k] == v && start <= k < from
        decreases HIGH - from
      {
        var e := EntryAt(c);
        ghost var out0 := out;
        out := out + [e];
        forall k: Key, v ensures HasEntry(out, k, v) <==> k in contents && contents[k] == v && start <= k <= e.key {
          HasEntryConcat(out0, [e], k, v);
          assert HasEntry([e], k, v) <==> e == Entry(k, v) by { assert [e][0] == e; }
        }
        from := e.key + 1;
        c := Next(c);
      }
    }

    lemma RepresentsSame(s: Shape, s': Shape)
      requires Represents(s, contents) && forall k, v :: Holds(s', k, v) <==> Holds(s, k, v)
      ensures Represents(s', contents)
    {
    }
  }
}

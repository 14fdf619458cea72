/**
 The memtable's skip list, over linked nodes. A node of height h is linked on
 levels 0 to h - 1, on each to the next node at least that high. For every choice
 of heights the list is the sorted run of its entries: an insert is an upsert into
 that run, a search finds what the run holds.
 */
module LsmSkipList {
  import opened Common
  import opened LsmTables

  // ---------------------------------------------------------------------
  // Heights
  // ---------------------------------------------------------------------

  /** The next position after `i` that is higher than `l`, or the end. */
  function NextAt(tall: seq<nat>, i: nat, l: nat): (j: nat)
    requires i < |tall|
    ensures i < j <= |tall| && (j < |tall| ==> tall[j] > l)
    ensures forall m | i < m < j :: tall[m] <= l
    decreases |tall| - i
  {
    if i + 1 == |tall| || tall[i + 1] > l then i + 1 else NextAt(tall, i + 1, l)
  }

  lemma NextIs(tall: seq<nat>, i: nat, l: nat, j: nat)
    requires i < j <= |tall| && (j < |tall| ==> tall[j] > l)
    requires forall m | i < m < j :: tall[m] <= l
    ensures NextAt(tall, i, l) == j
  {
    var n := NextAt(tall, i, l);
    assert n < |tall| ==> tall[n] > l;
    assert j < |tall| ==> tall[j] > l;
  }

  /** The heights after a node of height `h` is put at position `p`. */
  function Inserted(tall: seq<nat>, p: nat, h: nat): (r: seq<nat>)
    requires p <= |tall|
    ensures |r| == |tall| + 1
    ensures forall i | 0 <= i < |r| :: r[i] == if i < p then tall[i] else if i == p then h else tall[i - 1]
  {
    tall[..p] + [h] + tall[p..]
  }

  /** No node is higher than the list, or the head. */
  predicate HeightsOk(tall: seq<nat>, maxHeight: nat, currentHeight: nat) {
    forall i | 0 <= i < |tall| :: 1 <= tall[i] <= maxHeight && (i > 0 ==> tall[i] <= currentHeight)
  }

  /** Where a node before the new one now leads. */
  lemma NextBefore(tall: seq<nat>, p: nat, h: nat, i: nat, l: nat)
    requires i < p <= |tall|
    ensures var j := NextAt(tall, i, l);
            NextAt(Inserted(tall, p, h), i, l) == if j < p then j else if l < h then p else j + 1
  {
    var tall', j := Inserted(tall, p, h), NextAt(tall, i, l);
    if j < p {
      NextIs(tall', i, l, j);
    } else if l < h {
      NextIs(tall', i, l, p);
    } else {
      NextIs(tall', i, l, j + 1);
    }
  }

  lemma NextAfter(tall: seq<nat>, p: nat, h: nat, i: nat, l: nat)
    requires p <= i < |tall|
    ensures NextAt(Inserted(tall, p, h), i + 1, l) == NextAt(tall, i, l) + 1
  {
    NextIs(Inserted(tall, p, h), i + 1, l, NextAt(tall, i, l) + 1);
  }

  /** Where the new node leads: past it, like its predecessor `u` on that level. */
  lemma NextOfNew(tall: seq<nat>, p: nat, h: nat, u: nat, l: nat)
    requires u < p <= |tall| && NextAt(tall, u, l) >= p
    ensures NextAt(Inserted(tall, p, h), p, l) == NextAt(tall, u, l) + 1
  {
    NextIs(Inserted(tall, p, h), p, l, NextAt(tall, u, l) + 1);
  }

  /** On each level there is one predecessor of position `p`. */
  lemma OnePredecessor(tall: seq<nat>, p: nat, u: nat, i: nat, l: nat)
    requires u < p <= |tall| && i < p && tall[u] > l && tall[i] > l && NextAt(tall, u, l) >= p
    ensures NextAt(tall, i, l) >= p <==> i == u
  {
  }

  // ---------------------------------------------------------------------
  // Nodes and the list
  // ---------------------------------------------------------------------

  class Node {
    const key: Key
    var val: Val
    var forward: seq<Node?>

    constructor (level: nat, key: Key, val: Val)
      ensures this.key == key && this.val == val && |forward| == level
      ensures forall l | 0 <= l < level :: forward[l] == null
    {
      this.key, this.val := key, val;
      forward := seq(level, _ => null);
    }
  }

  /** Positions `i < j` hold different nodes, the head aside in key order. */
  ghost predicate PairOk(nodes: seq<Node>, i: nat, j: nat)
    requires i < j < |nodes|
  {
    nodes[i] != nodes[j] && (i >= 1 ==> nodes[i].key < nodes[j].key)
  }

  ghost predicate Ordered(nodes: seq<Node>) {
    forall i, j {:trigger PairOk(nodes, i, j)} | 0 <= i < j < |nodes| :: PairOk(nodes, i, j)
  }

  lemma OrderedWith(nodes: seq<Node>, node: Node, p: nat)
    requires 1 <= p <= |nodes| && Ordered(nodes) && node !in nodes
    requires p > 1 ==> nodes[p - 1].key < node.key
    requires p < |nodes| ==> node.key < nodes[p].key
    ensures Ordered(With(nodes, p, node))
  {
    var w := With(nodes, p, node);
    forall i, j | 0 <= i < j < |w| ensures PairOk(w, i, j) {
      var a, b := if i < p then i else i - 1, if j < p then j else j - 1;
      if i != p && j != p {
        assert PairOk(nodes, a, b);
      } else if i == p {
        assert p < b ==> PairOk(nodes, p, b);
      } else {
        assert i < p - 1 ==> PairOk(nodes, i, p - 1);
      }
    }
  }

  ghost function RefIn(nodes: seq<Node>, j: nat): Node? {
    if j < |nodes| then nodes[j] else null
  }

  ghost function With(nodes: seq<Node>, p: nat, node: Node): seq<Node>
    requires p <= |nodes|
  {
    nodes[..p] + [node] + nodes[p..]
  }

  lemma LeadsBefore(nodes: seq<Node>, tall: seq<nat>, node: Node, h: nat, p: nat, u: nat, i: nat, l: nat)
    requires |nodes| == |tall| && i < p <= |tall| && tall[i] > l
    requires l < h ==> u < p && tall[u] > l && NextAt(tall, u, l) >= p
    ensures RefIn(With(nodes, p, node), NextAt(Inserted(tall, p, h), i, l))
            == if l < h && u == i then node else RefIn(nodes, NextAt(tall, i, l))
  {
    NextBefore(tall, p, h, i, l);
    if l < h { OnePredecessor(tall, p, u, i, l); }
  }

  lemma LeadsFromNew(nodes: seq<Node>, tall: seq<nat>, node: Node, h: nat, p: nat, u: nat, l: nat)
    requires |nodes| == |tall| && u < p <= |tall| && NextAt(tall, u, l) >= p
    ensures RefIn(With(nodes, p, node), NextAt(Inserted(tall, p, h), p, l)) == RefIn(nodes, NextAt(tall, u, l))
  {
    NextOfNew(tall, p, h, u, l);
  }

  lemma LeadsAfter(nodes: seq<Node>, tall: seq<nat>, node: Node, h: nat, p: nat, i: nat, l: nat)
    requires |nodes| == |tall| && p <= i < |tall|
    ensures RefIn(With(nodes, p, node), NextAt(Inserted(tall, p, h), i + 1, l)) == RefIn(nodes, NextAt(tall, i, l))
  {
    NextAfter(tall, p, h, i, l);
  }

  class SkipList {
    const maxHeight: nat
    const head: Node
    var currentHeight: nat
    var size: nat
    ghost var order: seq<Node>
    ghost var tall: seq<nat>

    ghost function Ref(j: nat): Node?
      reads this
    {
      RefIn(order, j)
    }

    ghost predicate Linked(i: nat, l: nat)
      requires |order| == |tall| && i < |order| && l < |order[i].forward|
      reads this, order
    {
      order[i].forward[l] == Ref(NextAt(tall, i, l))
    }

    ghost predicate NodeOk(i: nat)
      requires |order| == |tall| && i < |order|
      reads this, order
    {
      && |order[i].forward| == tall[i] && 1 <= tall[i] <= maxHeight && (i > 0 ==> tall[i] <= currentHeight)
      && forall l {:trigger Linked(i, l)} | 0 <= l < tall[i] :: Linked(i, l)
    }

    ghost predicate Valid()
      reads this, order
    {
      && |order| == |tall| >= 1 && order[0] == head && tall[0] == maxHeight
      && 1 <= currentHeight <= maxHeight && size == |order| - 1
      && Ordered(order)
      && (forall i {:trigger NodeOk(i)} | 0 <= i < |order| :: NodeOk(i))
    }

    /** The entries in order. */
    ghost function Contents(): (r: seq<Item>)
      requires |order| >= 1
      reads this, order
      ensures |r| == |order| - 1 && forall i | 0 <= i < |r| :: r[i] == Item(order[i + 1].key, order[i + 1].val)
    {
      seq(|order| - 1, i requires 0 <= i < |order| - 1 reads this, order => Item(order[i + 1].key, order[i + 1].val))
    }

    constructor (maxHeight: nat)
      requires maxHeight >= 1
      ensures Valid() && Contents() == [] && fresh(order)
    {
      var h := new Node(maxHeight, 0, Tombstone);
      this.maxHeight, head, currentHeight, size := maxHeight, h, 1, 0;
      order, tall := [h], [maxHeight];
      new;
      forall l | 0 <= l < maxHeight ensures Linked(0, l) {
      }
      assert NodeOk(0);
    }

    // -------------------------------------------------------------------
    // Search
    // -------------------------------------------------------------------

    /** Every node up to position `at` is below `key`. */
    ghost predicate Below(at: nat, key: Key)
      reads this, order
    {
      at < |order| && (at > 0 ==> order[at].key < key)
    }

    /** `u` is the last node below `key` on level `l`. */
    ghost predicate LastBelow(u: nat, l: nat, key: Key)
      requires |order| == |tall|
      reads this, order
    {
      && Below(u, key) && tall[u] > l
      && var j := NextAt(tall, u, l); j < |order| ==> key <= order[j].key
    }

    ghost predicate SpotOk(update: seq<Node>, spots: seq<nat>, l: nat, key: Key)
      requires |order| == |tall| && l < |update| == |spots|
      reads this, order
    {
      LastBelow(spots[l], l, key) && update[l] == order[spots[l]]
    }

    /** Walks down from the top level, on each level as far as keys are below `key`. */
    method Search(key: Key) returns (cur: Node, update: seq<Node>, ghost at: nat, ghost spots: seq<nat>)
      requires Valid()
      ensures at < |order| && cur == order[at] && LastBelow(at, 0, key) && NextAt(tall, at, 0) == at + 1
      ensures |update| == |spots| == maxHeight
      ensures forall l {:trigger SpotOk(update, spots, l, key)} | 0 <= l < maxHeight :: SpotOk(update, spots, l, key)
    {
      cur, at := head, 0;
      update := seq(maxHeight, _ => head);
      spots := seq(maxHeight, _ => 0);
      assert NodeOk(0);
      forall l | currentHeight <= l < maxHeight ensures SpotOk(update, spots, l, key) {
        TopLevels(l);
      }
      var level := currentHeight;
      while level > 0
        invariant 0 <= level <= currentHeight && |update| == |spots| == maxHeight
        invariant Below(at, key) && cur == order[at] && tall[at] >= level && tall[at] >= 1
        invariant level < currentHeight ==> LastBelow(at, level, key)
        invariant forall l {:trigger SpotOk(update, spots, l, key)} | level <= l < maxHeight :: SpotOk(update, spots, l, key)
      {
        level := level - 1;
        cur, at := WalkLevel(cur, at, level, key);
        ghost var update0, spots0 := update, spots;
        update := update[level := cur];
        spots := spots[level := at];
        forall l | level < l < maxHeight ensures SpotOk(update, spots, l, key) {
          assert SpotOk(update0, spots0, l, key);
        }
      }
      FirstIsNext(at);
    }

    method WalkLevel(cur0: Node, ghost at0: nat, level: nat, key: Key) returns (cur: Node, ghost at: nat)
      requires Valid() && Below(at0, key) && cur0 == order[at0] && tall[at0] > level
      ensures at < |order| && cur == order[at] && LastBelow(at, level, key)
    {
      cur, at := cur0, at0;
      assert NodeOk(at) && Linked(at, level);
      while cur.forward[level] != null && cur.forward[level].key < key
        invariant Below(at, key) && cur == order[at] && tall[at] > level
        invariant |cur.forward| > level && Linked(at, level)
        decreases |order| - at
      {
        cur, at := cur.forward[level], NextAt(tall, at, level);
        assert NodeOk(at) && Linked(at, level);
      }
    }

    lemma FirstIsNext(at: nat)
      requires Valid() && at < |order|
      ensures NextAt(tall, at, 0) == at + 1
    {
      if at + 1 < |order| { assert NodeOk(at + 1); }
    }

    /** Above the current height only the head is linked. */
    lemma TopLevels(l: nat)
      requires Valid() && currentHeight <= l < maxHeight
      ensures NextAt(tall, 0, l) == |tall|
    {
      forall m | 0 < m < |tall| ensures tall[m] <= l {
        assert NodeOk(m);
      }
      NextIs(tall, 0, l, |tall|);
    }

    method Find(key: Key) returns (r: Option<Val>)
      requires Valid()
      ensures r == LsmTables.Find(Contents(), key)
    {
      var cur, update, at, spots := Search(key);
      assert NodeOk(at) && Linked(at, 0);
      var candidate := cur.forward[0];
      ContentsAscending();
      if candidate != null && candidate.key == key {
        FindAt(Contents(), at);
        return Some(candidate.val);
      }
      AbsentUnlessNext(at, key);
      r := None;
    }

    lemma ContentsAscending()
      requires Valid()
      ensures Ascending(Contents())
    {
      forall a, b | 0 <= a < b < |Contents()| ensures Contents()[a].key < Contents()[b].key {
        assert PairOk(order, a + 1, b + 1);
      }
    }

    lemma AbsentUnlessNext(at: nat, key: Key)
      requires Valid() && Below(at, key) && (at + 1 < |order| ==> key < order[at + 1].key)
      ensures LsmTables.Find(Contents(), key) == None
    {
      forall a | 0 <= a < |Contents()| ensures Contents()[a].key != key {
        if a + 1 < at { assert PairOk(order, a + 1, at); }
        if at < a { assert PairOk(order, at + 1, a + 1); }
      }
      FindNone(Contents(), key);
    }

    /** The node of the first entry not below `key`. */
    method LowerBound(key: Key) returns (node: Node?)
      requires Valid()
      ensures node == Ref(Place(Contents(), key) + 1)
    {
      var cur, update, at, spots := Search(key);
      assert NodeOk(at) && Linked(at, 0);
      node := cur.forward[0];
      PlaceOf(at, key);
    }

    lemma PlaceOf(at: nat, key: Key)
      requires Valid() && Below(at, key) && (at + 1 < |order| ==> key <= order[at + 1].key)
      ensures Place(Contents(), key) == at
    {
      forall a | 0 <= a < at ensures Contents()[a].key < key {
        if a + 1 < at { assert PairOk(order, a + 1, at); }
      }
      PlaceIs(Contents(), key, at);
    }

    /** The node of the first entry. */
    method Begin() returns (node: Node?)
      requires Valid()
      ensures node == Ref(1)
    {
      assert NodeOk(0) && Linked(0, 0);
      FirstIsNext(0);
      node := head.forward[0];
    }

    /** The iterator's step. */
    method Next(node: Node, ghost i: nat) returns (next: Node?)
      requires Valid() && i < |Contents()| && node == Ref(i + 1)
      ensures next == Ref(i + 2)
    {
      assert NodeOk(i + 1) && Linked(i + 1, 0);
      FirstIsNext(i + 1);
      next := node.forward[0];
    }

    // -------------------------------------------------------------------
    // Insert
    // -------------------------------------------------------------------

    /** `level` is the height drawn for a new node. */
    method Insert(key: Key, val: Val, level: nat)
      requires Valid() && 1 <= level <= maxHeight
      modifies this, order
      ensures Valid() && Contents() == Upsert(old(Contents()), key, val)
      ensures forall n | n in order && n !in old(order) :: fresh(n)
    {
      var cur, update, at, spots := Search(key);
      assert NodeOk(at) && Linked(at, 0);
      PlaceOf(at, key);
      var candidate := cur.forward[0];
      if candidate != null && candidate.key == key {
        Overwrite(candidate, at, val);
      } else {
        InsertNode(key, val, level, update, at, spots);
      }
    }

    method Overwrite(node: Node, ghost at: nat, val: Val)
      requires Valid() && at + 1 < |order| && node == order[at + 1]
      modifies node`val
      ensures Valid() && Contents() == old(Contents())[at := Item(node.key, val)]
    {
      assert forall i | 0 <= i < |order| :: NodeOk(i);
      node.val := val;
      forall i | 0 <= i < |order| && i != at + 1 ensures order[i] != node {
        if i < at + 1 { assert PairOk(order, i, at + 1); } else { assert PairOk(order, at + 1, i); }
      }
      forall i | 0 <= i < |order| ensures NodeOk(i) {
        assert old(NodeOk(i));
        forall l | 0 <= l < tall[i] ensures Linked(i, l) {
          assert old(Linked(i, l));
        }
      }
    }

    method InsertNode(key: Key, val: Val, level: nat, update: seq<Node>, ghost at: nat, ghost spots: seq<nat>)
      requires Valid() && 1 <= level <= maxHeight && LastBelow(at, 0, key)
      requires at + 1 < |order| ==> key < order[at + 1].key
      requires |update| == |spots| == maxHeight
      requires forall l {:trigger SpotOk(update, spots, l, key)} | 0 <= l < maxHeight :: SpotOk(update, spots, l, key)
      modifies this, order
      ensures Valid()
      ensures Contents() == old(Contents())[..at] + [Item(key, val)] + old(Contents())[at..]
      ensures forall n | n in order && n !in old(order) :: fresh(n)
    {
      var node := new Node(level, key, val);
      LinkNode(node, update, at, spots);
    }

    method LinkNode(node: Node, update: seq<Node>, ghost at: nat, ghost spots: seq<nat>)
      requires Valid() && node !in order && 1 <= |node.forward| <= maxHeight && LastBelow(at, 0, node.key)
      requires at + 1 < |order| ==> node.key < order[at + 1].key
      requires |update| == |spots| == maxHeight
      requires forall l {:trigger SpotOk(update, spots, l, node.key)} | 0 <= l < maxHeight :: SpotOk(update, spots, l, node.key)
      modifies this, node`forward, (set n | n in order)`forward
      ensures Valid() && order == With(old(order), at + 1, node)
      ensures Contents() == old(Contents())[..at] + [Item(node.key, node.val)] + old(Contents())[at..]
    {
      ghost var o0, t0, c0, links := order, tall, Contents(), Links();
      var level := |node.forward|;
      SpotsBefore(update, spots, at, node.key);
      WereLinked();
      SpotsLinked(update, spots, node.key, links);
      Splice(node, level, update, spots, links);
      Enter(node, at + 1, level);
      AllSpliced(o0, t0, links, node, at + 1, spots);
      Finished(o0, t0, links, node, at + 1, spots, c0);
    }

    /** `c0` are the entries of the nodes `o0`. */
    static ghost predicate EntriesOf(o0: seq<Node>, c0: seq<Item>)
      reads o0
    {
      |c0| == |o0| - 1 && forall i | 0 <= i < |c0| :: c0[i] == Item(o0[i + 1].key, o0[i + 1].val)
    }

    lemma Finished(o0: seq<Node>, t0: seq<nat>, links: seq<seq<Node?>>, node: Node, p: nat, spots: seq<nat>, c0: seq<Item>)
      requires Spliced(o0, t0, links, node, p, spots) && node !in o0 && EntriesOf(o0, c0)
      requires HeightsOk(tall, maxHeight, currentHeight) && o0[0] == head && t0[0] == maxHeight
      requires 1 <= currentHeight <= maxHeight && size == |o0|
      requires Ordered(o0)
      requires p > 1 ==> o0[p - 1].key < node.key
      requires p < |o0| ==> node.key < o0[p].key
      ensures Valid() && Contents() == c0[..p - 1] + [Item(node.key, node.val)] + c0[p - 1..]
    {
      Relinked(o0, t0, links, node, p, spots);
      OrderedWith(o0, node, p);
    }

    /** Counts the new node in. */
    method Enter(ghost node: Node, ghost p: nat, level: nat)
      requires p <= |order| == |tall|
      modifies this
      ensures order == With(old(order), p, node) && tall == Inserted(old(tall), p, level)
      ensures size == old(size) + 1 && currentHeight == if level > old(currentHeight) then level else old(currentHeight)
    {
      if level > currentHeight {
        currentHeight := level;
      }
      size := size + 1;
      order := With(order, p, node);
      tall := Inserted(tall, p, level);
    }

    lemma SpotsLinked(update: seq<Node>, spots: seq<nat>, key: Key, links: seq<seq<Node?>>)
      requires Valid() && |update| == |spots| == maxHeight && links == Links()
      requires forall l {:trigger SpotOk(update, spots, l, key)} | 0 <= l < maxHeight :: SpotOk(update, spots, l, key)
      ensures forall l | 0 <= l < maxHeight ::
                spots[l] < |order| && update[l] == order[spots[l]] && l < |links[spots[l]]|
    {
      forall l | 0 <= l < maxHeight
        ensures spots[l] < |order| && update[l] == order[spots[l]] && l < |links[spots[l]]|
      {
        assert SpotOk(update, spots, l, key);
        assert NodeOk(spots[l]);
      }
    }

    lemma AllSpliced(o0: seq<Node>, t0: seq<nat>, links: seq<seq<Node?>>, node: Node, p: nat, spots: seq<nat>)
      requires Before(o0, t0, links) && 1 <= p <= |o0| && |node.forward| <= |spots|
      requires order == With(o0, p, node) && tall == Inserted(t0, p, |node.forward|)
      requires forall a {:trigger SplicedIn(o0[a], a, |node.forward|, links, node, spots)} | 0 <= a < |o0| ::
                 SplicedIn(o0[a], a, |node.forward|, links, node, spots)
      requires forall l | 0 <= l < |node.forward| ::
                 Precedes(t0, spots[l], p, l) && l < |links[spots[l]]| && node.forward[l] == links[spots[l]][l]
      ensures Spliced(o0, t0, links, node, p, spots)
    {
      forall a | 0 <= a < |o0| ensures o0[a] in order {
        assert order[if a < p then a else a + 1] == o0[a];
      }
      forall l | 0 <= l < |node.forward| ensures NewLinkOk(t0, links, node, p, spots, l) {
      }
    }

    lemma Relinked(o0: seq<Node>, t0: seq<nat>, links: seq<seq<Node?>>, node: Node, p: nat, spots: seq<nat>)
      requires Spliced(o0, t0, links, node, p, spots)
      requires HeightsOk(tall, maxHeight, currentHeight)
      ensures |order| == |tall| && forall i | 0 <= i < |order| :: NodeOk(i)
    {
      forall i | 0 <= i < |order| ensures NodeOk(i) {
        if i < p {
          RewiredBefore(o0, t0, links, node, p, spots, i);
        } else if i == p {
          RewiredNew(o0, t0, links, node, p, spots);
        } else {
          RewiredAfter(o0, t0, links, node, p, spots, i);
        }
      }
    }

    /** The forward links of all nodes. */
    ghost function Links(): (links: seq<seq<Node?>>)
      reads this, order
      ensures |links| == |order| && forall i | 0 <= i < |order| :: links[i] == order[i].forward
    {
      seq(|order|, i requires 0 <= i < |order| reads this, order => order[i].forward)
    }

    /** Nodes `o0` of heights `t0` were properly linked by `links`. */
    static ghost predicate Before(o0: seq<Node>, t0: seq<nat>, links: seq<seq<Node?>>) {
      && |o0| == |t0| == |links|
      && forall i {:trigger LinkedBy(o0, t0, links, i)} | 0 <= i < |o0| :: LinkedBy(o0, t0, links, i)
    }

    static ghost predicate LinkedBy(o0: seq<Node>, t0: seq<nat>, links: seq<seq<Node?>>, i: nat)
      requires |t0| == |links| > i
    {
      |links[i]| == t0[i] && forall l | 0 <= l < t0[i] :: links[i][l] == RefIn(o0, NextAt(t0, i, l))
    }

    /** `u` precedes position `p` on level `l`. */
    static ghost predicate Precedes(t0: seq<nat>, u: nat, p: nat, l: nat) {
      u < p <= |t0| && t0[u] > l && NextAt(t0, u, l) >= p
    }

    lemma KeysAscend(i: nat, j: nat)
      requires Valid() && 1 <= i <= j < |order|
      ensures order[i].key <= order[j].key
    {
      if i < j { assert PairOk(order, i, j); }
    }

    lemma BelowIsBefore(a: nat, b: nat, key: Key)
      requires Valid() && Below(a, key) && 1 <= b && (b < |order| ==> key <= order[b].key)
      ensures a < b
    {
      if b <= a { KeysAscend(b, a); }
    }

    /** On every level the predecessor found comes before the place of insertion, and
        what it leads to does not. */
    lemma SpotsBefore(update: seq<Node>, spots: seq<nat>, at: nat, key: Key)
      requires Valid() && Below(at, key) && |update| == |spots| == maxHeight
      requires at + 1 < |order| ==> key < order[at + 1].key
      requires forall l {:trigger SpotOk(update, spots, l, key)} | 0 <= l < maxHeight :: SpotOk(update, spots, l, key)
      ensures forall l | 0 <= l < maxHeight :: Precedes(tall, spots[l], at + 1, l)
    {
      forall l | 0 <= l < maxHeight ensures Precedes(tall, spots[l], at + 1, l) {
        assert SpotOk(update, spots, l, key);
        BelowIsBefore(spots[l], at + 1, key);
        BelowIsBefore(at, NextAt(tall, spots[l], l), key);
      }
    }

    /** Node `a` is as before, but for the levels below `done` on which it precedes
        the new node. */
    static ghost predicate SplicedIn(n: Node, a: nat, done: nat, links: seq<seq<Node?>>, node: Node, spots: seq<nat>)
      requires a < |links| && done <= |spots|
      reads n
    {
      && |n.forward| == |links[a]|
      && forall l | 0 <= l < |links[a]| :: n.forward[l] == if l < done && spots[l] == a then node else links[a][l]
    }

    /** Links the new node in after its predecessor on each of its levels. */
    method Splice(node: Node, level: nat, update: seq<Node>, ghost spots: seq<nat>, ghost links: seq<seq<Node?>>)
      requires node !in order && |node.forward| == level <= |update| == |spots| && links == Links()
      requires Ordered(order)
      requires forall l | 0 <= l < level :: spots[l] < |order| && update[l] == order[spots[l]] && l < |links[spots[l]]|
      modifies node`forward, (set n | n in order)`forward
      ensures forall a {:trigger SplicedIn(order[a], a, level, links, node, spots)} | 0 <= a < |order| :: SplicedIn(order[a], a, level, links, node, spots)
      ensures |node.forward| == level && forall l | 0 <= l < level :: node.forward[l] == links[spots[l]][l]
    {
      var i := 0;
      while i < level
        invariant 0 <= i <= level && |node.forward| == level
        invariant forall a {:trigger SplicedIn(order[a], a, i, links, node, spots)} | 0 <= a < |order| :: SplicedIn(order[a], a, i, links, node, spots)
        invariant forall l | 0 <= l < i :: node.forward[l] == links[spots[l]][l]
        modifies node`forward, (set n | n in order)`forward
      {
        ghost var u := spots[i];
        assert SplicedIn(order[u], u, i, links, node, spots);
        label L:
        node.forward := node.forward[i := update[i].forward[i]];
        update[i].forward := update[i].forward[i := node];
        var n := i + 1;
        forall a | 0 <= a < |order| ensures SplicedIn(order[a], a, n, links, node, spots) {
          assert old@L(SplicedIn(order[a], a, i, links, node, spots));
          if a < u { assert PairOk(order, a, u); } else if u < a { assert PairOk(order, u, a); }
        }
        i := n;
      }
    }

    lemma WereLinked()
      requires Valid()
      ensures Before(order, tall, Links()) && HeightsOk(tall, maxHeight, currentHeight)
    {
      forall i | 0 <= i < |tall| ensures 1 <= tall[i] <= maxHeight && (i > 0 ==> tall[i] <= currentHeight) {
        assert NodeOk(i);
      }
      forall i | 0 <= i < |order| ensures LinkedBy(order, tall, Links(), i) {
        assert NodeOk(i);
        forall l | 0 <= l < tall[i] ensures Links()[i][l] == RefIn(order, NextAt(tall, i, l)) {
          assert Linked(i, l);
        }
      }
    }

    /** The list as it is once `node` has been spliced in at position `p`. */
    ghost predicate Spliced(o0: seq<Node>, t0: seq<nat>, links: seq<seq<Node?>>, node: Node, p: nat, spots: seq<nat>)
      reads this, order, node
    {
      && Before(o0, t0, links) && 1 <= p <= |o0| && |node.forward| <= |spots|
      && order == With(o0, p, node) && tall == Inserted(t0, p, |node.forward|)
      && (forall a {:trigger SplicedIn(o0[a], a, |node.forward|, links, node, spots)} | 0 <= a < |o0| ::
            o0[a] in order && SplicedIn(o0[a], a, |node.forward|, links, node, spots))
      && (forall l {:trigger NewLinkOk(t0, links, node, p, spots, l)} | 0 <= l < |node.forward| ::
            NewLinkOk(t0, links, node, p, spots, l))
    }

    static ghost predicate NewLinkOk(t0: seq<nat>, links: seq<seq<Node?>>, node: Node, p: nat, spots: seq<nat>, l: nat)
      requires l < |node.forward| <= |spots|
      reads node
    {
      var u := spots[l];
      Precedes(t0, u, p, l) && u < |links| && l < |links[u]| && node.forward[l] == links[u][l]
    }

    lemma RewiredBefore(o0: seq<Node>, t0: seq<nat>, links: seq<seq<Node?>>, node: Node, p: nat, spots: seq<nat>, i: nat)
      requires Spliced(o0, t0, links, node, p, spots) && i < p
      ensures |order[i].forward| == tall[i] && forall l | 0 <= l < tall[i] :: Linked(i, l)
    {
      var h := |node.forward|;
      assert order[i] == o0[i] && tall[i] == t0[i];
      assert LinkedBy(o0, t0, links, i) && SplicedIn(o0[i], i, h, links, node, spots);
      forall l | 0 <= l < tall[i] ensures Linked(i, l) {
        if l < h { assert NewLinkOk(t0, links, node, p, spots, l); }
        LeadsBefore(o0, t0, node, h, p, if l < h then spots[l] else 0, i, l);
      }
    }

    lemma RewiredNew(o0: seq<Node>, t0: seq<nat>, links: seq<seq<Node?>>, node: Node, p: nat, spots: seq<nat>)
      requires Spliced(o0, t0, links, node, p, spots)
      ensures |order[p].forward| == tall[p] && forall l | 0 <= l < tall[p] :: Linked(p, l)
    {
      var h := |node.forward|;
      assert order[p] == node && tall[p] == h;
      forall l | 0 <= l < h ensures Linked(p, l) {
        var u := spots[l];
        assert NewLinkOk(t0, links, node, p, spots, l);
        assert LinkedBy(o0, t0, links, u);
        LeadsFromNew(o0, t0, node, h, p, u, l);
      }
    }

    lemma RewiredAfter(o0: seq<Node>, t0: seq<nat>, links: seq<seq<Node?>>, node: Node, p: nat, spots: seq<nat>, i: nat)
      requires Spliced(o0, t0, links, node, p, spots) && p < i < |order|
      ensures |order[i].forward| == tall[i] && forall l | 0 <= l < tall[i] :: Linked(i, l)
    {
      var a := i - 1;
      assert order[i] == o0[a] && tall[i] == t0[a];
      assert LinkedBy(o0, t0, links, a) && SplicedIn(o0[a], a, |node.forward|, links, node, spots);
      forall l | 0 <= l < tall[i] ensures Linked(i, l) {
        RewiredAfterAt(o0, t0, links, node, p, spots, i, l);
      }
    }

    lemma RewiredAfterAt(o0: seq<Node>, t0: seq<nat>, links: seq<seq<Node?>>, node: Node, p: nat, spots: seq<nat>, i: nat, l: nat)
      requires Spliced(o0, t0, links, node, p, spots) && p < i < |order| && l < tall[i]
      ensures l < |order[i].forward| && Linked(i, l)
    {
      var h, a := |node.forward|, i - 1;
      assert order[i] == o0[a] && tall[i] == t0[a];
      assert LinkedBy(o0, t0, links, a) && SplicedIn(o0[a], a, h, links, node, spots);
      if l < h { assert NewLinkOk(t0, links, node, p, spots, l); }
      LeadsAfter(o0, t0, node, h, p, a, l);
    }
  }
}

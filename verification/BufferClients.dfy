/**
 The buffer pool as its clients see it. Frames, eviction, write-back and the
 replacement policy do not show: whatever the calls, as long as clients change only
 pages they have pinned and whoever gives up the last pin of a changed page says that
 it is dirty, every reply is that of a plain map of pages with pin counts.
 */
module BufferClients {
  import opened Common
  import opened BufferPool

  /** What each page holds, who is pinned how often, which pages have been changed since
      someone last said so, and the next page id. */
  datatype PageMap = PageMap(contents: map<Pid, Data>, pins: map<Pid, nat>, changed: set<Pid>, next: Pid)

  datatype Call =
    | Fetch(page: Pid)
    | New
    | Write(page: Pid, data: Data)
    | Unpin(page: Pid, dirty: bool)
    | Flush(page: Pid)
    | FlushAll
    | Delete(page: Pid)

  datatype Reply = Shown(data: Data) | Allocated(page: Pid) | NoFrame | Done | Refused

  function PinsOf(m: PageMap, p: Pid): nat {
    if p in m.pins then m.pins[p] else 0
  }

  function WithPin(m: PageMap, p: Pid): PageMap {
    m.(pins := m.pins[p := PinsOf(m, p) + 1])
  }

  function WithoutPin(m: PageMap, p: Pid): PageMap {
    m.(pins := if PinsOf(m, p) > 1 then m.pins[p := PinsOf(m, p) - 1] else m.pins - {p})
  }

  /** What clients have to keep to: pages fetched exist, pages changed are pinned, and the
      last pin of a changed page is not given up without a word. */
  predicate Careful(m: PageMap, c: Call) {
    match c
    case Fetch(p) => p in m.contents
    case Write(p, _) => p in m.pins
    case Unpin(p, dirty) => p in m.changed && PinsOf(m, p) == 1 ==> dirty
    case _ => true
  }

  /** The reply of a page map with room for `size` pinned pages, and what it becomes. */
  function Answer(m: PageMap, size: nat, c: Call): (Reply, PageMap)
    requires Careful(m, c)
  {
    match c
    case Fetch(p) => if p !in m.pins && |m.pins| == size then (NoFrame, m) else (Shown(m.contents[p]), WithPin(m, p))
    case New =>
      if |m.pins| == size then (NoFrame, m)
      else (Allocated(m.next), WithPin(m, m.next).(contents := m.contents[m.next := ZERO], next := m.next + 1))
    case Write(p, data) => (Done, m.(contents := m.contents[p := data], changed := m.changed + {p}))
    case Unpin(p, dirty) =>
      if p !in m.pins then (Refused, m)
      else (Done, WithoutPin(m, p).(changed := if dirty then m.changed - {p} else m.changed))
    case Flush(p) => (Done, m.(changed := m.changed - {p}))
    case FlushAll => (Done, m)
    case Delete(p) =>
      if p in m.pins then (Refused, m) else (Done, m.(contents := m.contents - {p}, changed := m.changed - {p}))
  }

  predicate CarefulRun(m: PageMap, size: nat, calls: seq<Call>)
    decreases |calls|
  {
    calls == [] || (Careful(m, calls[0]) && CarefulRun(Answer(m, size, calls[0]).1, size, calls[1..]))
  }

  function Answers(m: PageMap, size: nat, calls: seq<Call>): seq<Reply>
    requires CarefulRun(m, size, calls)
    decreases |calls|
  {
    if calls == [] then []
    else [Answer(m, size, calls[0]).0] + Answers(Answer(m, size, calls[0]).1, size, calls[1..])
  }

  function After(m: PageMap, size: nat, calls: seq<Call>): PageMap
    requires CarefulRun(m, size, calls)
    decreases |calls|
  {
    if calls == [] then m else After(Answer(m, size, calls[0]).1, size, calls[1..])
  }

  /** All pages of the file, nobody pinned. */
  function Start(disk: map<Pid, Data>, next: Pid): PageMap {
    PageMap(map p | 0 <= p < next :: if p in disk then disk[p] else ZERO, map[], {}, next)
  }

  // ---------------------------------------------------------------------
  // The pool stands for the page map
  // ---------------------------------------------------------------------

  ghost predicate Tidy(m: PageMap) {
    && m.changed <= m.pins.Keys && (forall p | p in m.pins :: m.pins[p] > 0)
    && m.next >= 0 && (forall p | p in m.contents :: p < m.next)
  }

  /** No page has the given id or a later one. */
  ghost predicate NoneFrom(pool: Pool, next: Pid)
    reads pool
  {
    forall p {:trigger IdFree(pool, p)} | p >= next :: IdFree(pool, p)
  }

  ghost predicate IdFree(pool: Pool, p: Pid)
    reads pool
  {
    p !in pool.pageTable && pool.OnDisk(p) == ZERO
  }

  ghost predicate Stands(pool: Pool, m: PageMap, size: nat)
    reads pool, pool.replacer
  {
    && Tidy(m) && pool.Valid() && |pool.frames| == size
    && pool.contents == m.contents && pool.nextPage == m.next && pool.touched <= m.changed
    && (forall p :: pool.Pins(p) == PinsOf(m, p))
    && NoneFrom(pool, m.next)
  }

  /** Every change is with someone who has the page pinned. */
  lemma StandsKept(pool: Pool, m: PageMap, size: nat)
    requires Stands(pool, m, size)
    ensures pool.Kept() && pool.Unused()
  {
    forall p | p in pool.touched ensures pool.Pins(p) != 0 {
      assert p in m.changed && p in m.pins;
    }
    assert IdFree(pool, m.next);
  }

  // ---------------------------------------------------------------------
  // Every frame is pinned when as many pages are pinned as there are frames
  // ---------------------------------------------------------------------

  lemma {:induction false} ImageCount(table: map<Pid, int>, keys: set<Pid>)
    requires keys <= table.Keys && forall p, q | p in keys && q in keys && p != q :: table[p] != table[q]
    ensures |set p | p in keys :: table[p]| == |keys|
    decreases keys
  {
    var image := set p | p in keys :: table[p];
    if keys == {} {
      assert image == {};
    } else {
      var x := Member(keys);
      var rest := keys - {x};
      ImageCount(table, rest);
      assert image == (set p | p in rest :: table[p]) + {table[x]};
    }
  }

  lemma {:induction false} AllBelow(s: set<int>, n: nat)
    requires forall x | x in s :: 0 <= x < n
    ensures |s| <= n && (|s| == n <==> forall x | 0 <= x < n :: x in s)
  {
    if n == 0 {
      forall x: int ensures x !in s { }
      assert s == {};
    } else {
      var rest := s - {n - 1};
      AllBelow(rest, n - 1);
      if n - 1 in s { assert s == rest + {n - 1}; }
    }
  }

  /** The frames of the pinned pages. */
  lemma FullIff(pool: Pool, m: PageMap, size: nat)
    requires Stands(pool, m, size)
    ensures |m.pins| == size <==> pool.Exhausted()
  {
    var table, keys := pool.pageTable, m.pins.Keys;
    forall p | p in keys ensures p in table && pool.PageOk(p) && pool.frames[table[p]].pins > 0 {
      assert pool.Pins(p) == PinsOf(m, p);
    }
    forall p, q | p in keys && q in keys && p != q ensures table[p] != table[q] {
      assert pool.PageOk(p) && pool.PageOk(q);
    }
    ImageCount(table, keys);
    var image := set p | p in keys :: table[p];
    forall f | f in image ensures 0 <= f < size && f !in pool.freeList && pool.frames[f].pins > 0 {
      var p :| p in keys && table[p] == f;
      assert pool.PageOk(p);
    }
    AllBelow(image, size);
    if pool.Exhausted() {
      forall f | 0 <= f < size ensures f in image {
        assert pool.FrameOk(f) && pool.frames[f].pins > 0;
        var p := pool.frames[f].page;
        assert pool.Pins(p) == PinsOf(m, p);
        assert p in keys && table[p] == f;
      }
    }
  }

  // ---------------------------------------------------------------------
  // One call
  // ---------------------------------------------------------------------

  method ServeFetch(pool: Pool, p: Pid, ghost m: PageMap, ghost size: nat) returns (r: Reply)
    requires Stands(pool, m, size) && Careful(m, Fetch(p))
    modifies pool, pool.replacer
    ensures r == Answer(m, size, Fetch(p)).0 && Stands(pool, Answer(m, size, Fetch(p)).1, size)
  {
    StandsKept(pool, m, size);
    FullIff(pool, m, size);
    assert 0 <= p by { assert pool.View(p) == m.contents[p]; }
    assert pool.Exhausted() && p in pool.pageTable ==> p in m.pins by {
      if p in pool.pageTable { assert pool.PageOk(p) && pool.Pins(p) == PinsOf(m, p); }
    }
    var data := pool.FetchPage(p);
    forall q | q >= m.next ensures IdFree(pool, q) { assert old(IdFree(pool, q)); }
    r := if data.None? then NoFrame else Shown(data.value);
  }

  method ServeNew(pool: Pool, ghost m: PageMap, ghost size: nat) returns (r: Reply)
    requires Stands(pool, m, size)
    modifies pool, pool.replacer
    ensures r == Answer(m, size, New).0 && Stands(pool, Answer(m, size, New).1, size)
  {
    StandsKept(pool, m, size);
    FullIff(pool, m, size);
    var p := pool.NewPage();
    forall q | q >= pool.nextPage ensures IdFree(pool, q) { assert old(IdFree(pool, q)); }
    r := if p.None? then NoFrame else Allocated(p.value);
  }

  method ServeUnpin(pool: Pool, p: Pid, dirty: bool, ghost m: PageMap, ghost size: nat) returns (r: Reply)
    requires Stands(pool, m, size) && Careful(m, Unpin(p, dirty))
    modifies pool, pool.replacer
    ensures r == Answer(m, size, Unpin(p, dirty)).0 && Stands(pool, Answer(m, size, Unpin(p, dirty)).1, size)
  {
    assert pool.Pins(p) == PinsOf(m, p);
    var ok := pool.UnpinPage(p, dirty);
    forall q | q >= m.next ensures IdFree(pool, q) { assert old(IdFree(pool, q)); }
    r := if ok then Done else Refused;
  }

  method ServeDelete(pool: Pool, p: Pid, ghost m: PageMap, ghost size: nat) returns (r: Reply)
    requires Stands(pool, m, size)
    modifies pool, pool.replacer
    ensures r == Answer(m, size, Delete(p)).0 && Stands(pool, Answer(m, size, Delete(p)).1, size)
  {
    assert pool.Pins(p) == PinsOf(m, p);
    var ok := pool.DeletePage(p);
    forall q | q >= m.next ensures IdFree(pool, q) { assert old(IdFree(pool, q)); }
    r := if ok then Done else Refused;
  }

  method ServeWrite(pool: Pool, p: Pid, data: Data, ghost m: PageMap, ghost size: nat) returns (r: Reply)
    requires Stands(pool, m, size) && Careful(m, Write(p, data))
    modifies pool, pool.replacer
    ensures r == Answer(m, size, Write(p, data)).0 && Stands(pool, Answer(m, size, Write(p, data)).1, size)
  {
    assert pool.Pins(p) == PinsOf(m, p);
    assert p < m.next by { assert p >= m.next ==> IdFree(pool, p); }
    pool.WriteData(p, data);
    forall q | q >= m.next ensures IdFree(pool, q) { assert old(IdFree(pool, q)); }
    r := Done;
  }

  method ServeFlush(pool: Pool, p: Pid, ghost m: PageMap, ghost size: nat) returns (r: Reply)
    requires Stands(pool, m, size)
    modifies pool, pool.replacer
    ensures r == Answer(m, size, Flush(p)).0 && Stands(pool, Answer(m, size, Flush(p)).1, size)
  {
    var ok := pool.FlushPage(p);
    forall q | q >= m.next ensures IdFree(pool, q) { assert old(IdFree(pool, q)); }
    r := Done;
  }

  method ServeFlushAll(pool: Pool, ghost m: PageMap, ghost size: nat) returns (r: Reply)
    requires Stands(pool, m, size)
    modifies pool, pool.replacer
    ensures r == Answer(m, size, FlushAll).0 && Stands(pool, Answer(m, size, FlushAll).1, size)
  {
    pool.FlushAllPages();
    forall q | q >= m.next ensures IdFree(pool, q) { assert old(IdFree(pool, q)); }
    r := Done;
  }

  /** Any call by a careful client is answered as the page map answers it. */
  method Serve(pool: Pool, c: Call, ghost m: PageMap, ghost size: nat) returns (r: Reply)
    requires Stands(pool, m, size) && Careful(m, c)
    modifies pool, pool.replacer
    ensures r == Answer(m, size, c).0 && Stands(pool, Answer(m, size, c).1, size)
  {
    match c {
      case Fetch(p) => r := ServeFetch(pool, p, m, size);
      case New => r := ServeNew(pool, m, size);
      case Write(p, data) => r := ServeWrite(pool, p, data, m, size);
      case Unpin(p, dirty) => r := ServeUnpin(pool, p, dirty, m, size);
      case Flush(p) => r := ServeFlush(pool, p, m, size);
      case FlushAll => r := ServeFlushAll(pool, m, size);
      case Delete(p) => r := ServeDelete(pool, p, m, size);
    }
  }

  // ---------------------------------------------------------------------
  // Every run
  // ---------------------------------------------------------------------

  method ServeAll(pool: Pool, calls: seq<Call>, ghost m: PageMap, ghost size: nat) returns (replies: seq<Reply>)
    requires Stands(pool, m, size) && CarefulRun(m, size, calls)
    modifies pool, pool.replacer
    ensures replies == Answers(m, size, calls) && Stands(pool, After(m, size, calls), size)
    decreases |calls|
  {
    if calls == [] {
      return [];
    }
    var r := Serve(pool, calls[0], m, size);
    var rest := ServeAll(pool, calls[1..], Answer(m, size, calls[0]).1, size);
    replies := [r] + rest;
  }

  /** However small the pool and whatever k is, over every run of careful clients its
      replies are those of the page map. */
  method PoolIsAPageMap(size: nat, k: nat, disk: map<Pid, Data>, next: Pid, calls: seq<Call>) returns (replies: seq<Reply>)
    requires k >= 1 && next >= 0 && forall p | p in disk :: p < next
    requires CarefulRun(Start(disk, next), size, calls)
    ensures replies == Answers(Start(disk, next), size, calls)
  {
    var pool := new Pool(size, k, disk, next);
    forall p | p >= next ensures IdFree(pool, p) { }
    replies := ServeAll(pool, calls, Start(disk, next), size);
  }

  /** A page keeps what it holds until it is written or deleted itself, whatever becomes
      of the others. */
  lemma {:induction false} ContentsStay(m: PageMap, size: nat, calls: seq<Call>, p: Pid)
    requires CarefulRun(m, size, calls) && p in m.contents && p < m.next
    requires forall i | 0 <= i < |calls| :: !(calls[i].Write? || calls[i].Delete?) || calls[i].page != p
    ensures p in After(m, size, calls).contents && After(m, size, calls).contents[p] == m.contents[p]
    decreases |calls|
  {
    if calls != [] {
      assert calls[0].Write? || calls[0].Delete? ==> calls[0].page != p;
      ContentsStay(Answer(m, size, calls[0]).1, size, calls[1..], p);
    }
  }
}
